/** bitmap4.go: attribute numbers as a list of 32-bit words. */
module Bitmap {
  import opened Octets

  // ---------------------------------------------------------------- bits of a word

  /** uint32(1) << j */
  function Shl(j: nat): (p: nat)
    ensures p > 0
  {
    if j == 0 then 1 else 2 * Shl(j - 1)
  }

  function Bit(w: nat, j: nat): bool {
    if j == 0 then w % 2 == 1 else Bit(w / 2, j - 1)
  }

  /** a | b */
  function Or(a: nat, b: nat): nat {
    if a == 0 then b else 2 * Or(a / 2, b / 2) + (if a % 2 == 1 then 1 else b % 2)
  }

  /** a & b */
  function And(a: nat, b: nat): nat {
    if a == 0 then 0 else 2 * And(a / 2, b / 2) + (if a % 2 == 1 then b % 2 else 0)
  }

  lemma {:induction false} BitOfZero(k: nat)
    ensures !Bit(0, k)
  {
    if k > 0 { BitOfZero(k - 1); }
  }

  lemma {:induction false} BitOfShl(j: nat, k: nat)
    ensures Bit(Shl(j), k) <==> j == k
  {
    if j == 0 {
      if k > 0 { BitOfZero(k - 1); }
    } else if k > 0 {
      BitOfShl(j - 1, k - 1);
    }
  }

  lemma {:induction false} BitOfOr(a: nat, b: nat, k: nat)
    ensures Bit(Or(a, b), k) <==> Bit(a, k) || Bit(b, k)
  {
    if a == 0 {
      BitOfZero(k);
    } else if k > 0 {
      BitOfOr(a / 2, b / 2, k - 1);
      assert Or(a, b) / 2 == Or(a / 2, b / 2);
    }
  }

  lemma {:induction false} BitOfAnd(a: nat, b: nat, k: nat)
    ensures Bit(And(a, b), k) <==> Bit(a, k) && Bit(b, k)
  {
    if a == 0 {
      BitOfZero(k);
    } else if k > 0 {
      BitOfAnd(a / 2, b / 2, k - 1);
      assert And(a, b) / 2 == And(a / 2, b / 2);
    }
  }

  lemma {:induction false} OrFits(a: nat, b: nat, n: nat)
    requires a < Shl(n) && b < Shl(n)
    ensures Or(a, b) < Shl(n)
  {
    if n > 0 && a > 0 { OrFits(a / 2, b / 2, n - 1); }
  }

  lemma {:induction false} AndFits(a: nat, b: nat, n: nat)
    requires a < Shl(n)
    ensures And(a, b) < Shl(n)
  {
    if n > 0 && a > 0 { AndFits(a / 2, b / 2, n - 1); }
  }

  lemma {:induction false} ShlGrows(j: nat, n: nat)
    requires j < n
    ensures Shl(j) < Shl(n)
  {
    if j + 1 < n { ShlGrows(j, n - 1); }
  }

  lemma Shl32()
    ensures Shl(32) == TWO32
  {
    assert Shl(8) == 0x100;
    assert Shl(16) == 0x1_0000;
    assert Shl(24) == 0x100_0000;
  }

  /** A word is its bits. */
  lemma {:induction false} SameBits(a: nat, b: nat, n: nat)
    requires a < Shl(n) && b < Shl(n)
    requires forall k: nat :: k < n ==> Bit(a, k) == Bit(b, k)
    ensures a == b
  {
    if n > 0 {
      assert Bit(a, 0) == Bit(b, 0);
      forall k: nat | k < n - 1
        ensures Bit(a / 2, k) == Bit(b / 2, k)
      {
        assert Bit(a, k + 1) == Bit(b, k + 1);
      }
      SameBits(a / 2, b / 2, n - 1);
    }
  }

  /** The decoder's test: s & v == s for s = 1 << j. */
  lemma TestsBit(v: u32, j: nat)
    requires j < 32
    ensures And(Shl(j), v) == Shl(j) <==> Bit(v, j)
  {
    BitOfShl(j, j);
    BitOfAnd(Shl(j), v, j);
    if Bit(v, j) {
      ShlGrows(j, 32);
      AndFits(Shl(j), v, 32);
      forall k: nat | k < 32
        ensures Bit(And(Shl(j), v), k) == Bit(Shl(j), k)
      {
        BitOfAnd(Shl(j), v, k);
        BitOfShl(j, k);
      }
      SameBits(And(Shl(j), v), Shl(j), 32);
    }
  }

  lemma SetsBit(w: u32, j: nat)
    requires j < 32
    ensures Or(w, Shl(j)) < TWO32
    ensures forall k: nat :: Bit(Or(w, Shl(j)), k) <==> Bit(w, k) || k == j
  {
    Shl32();
    ShlGrows(j, 32);
    OrFits(w, Shl(j), 32);
    forall k: nat
      ensures Bit(Or(w, Shl(j)), k) <==> Bit(w, k) || k == j
    {
      BitOfOr(w, Shl(j), k);
      BitOfShl(j, k);
    }
  }

  // ---------------------------------------------------------------- maps and word lists

  predicate On(x: map<int, bool>, v: int) { v in x && x[v] }

  predicate OnWords(ws: seq<u32>, v: int) { 0 <= v && v / 32 < |ws| && Bit(ws[v / 32], v % 32) }

  /** The largest key, at least 0: what the first loop of bitmap4Encode leaves in maxInt. */
  ghost predicate IsMax(x: map<int, bool>, m: int) {
    m >= 0 && (m == 0 || m in x) && forall v :: v in x ==> v <= m
  }

  function Size(m: nat): nat { if m % 32 > 0 then m / 32 + 1 else m / 32 }

  /** What bitmap4Encode may answer for x. */
  ghost predicate Encodes(x: map<int, bool>, ws: seq<u32>) {
    && (forall m :: IsMax(x, m) ==> |ws| == Size(m))
    && (forall v :: OnWords(ws, v) <==> On(x, v))
  }

  /** The next key a loop over a map visits. */
  method Pick(todo: set<int>) returns (v: int)
    requires todo != {}
    ensures v in todo
  {
    assert exists u :: u in todo by { if forall u :: u !in todo { assert false; } }
    v :| v in todo;
  }

  method Largest(x: map<int, bool>) returns (m: int)
    ensures IsMax(x, m)
  {
    m := 0;
    var todo := x.Keys;
    while todo != {}
      invariant todo <= x.Keys && m >= 0 && (m == 0 || m in x)
      invariant forall v :: v in x && v !in todo ==> v <= m
      decreases todo
    {
      var v := Pick(todo);
      todo := todo - {v};
      if v > m { m := v; }
    }
  }

  /** bitmap4Encode. None: an index or a shift out of range. */
  method Encode(x: map<int, bool>) returns (r: Option<seq<u32>>)
    ensures r.None? <==> exists v :: On(x, v) && (v < 0 || (v % 32 == 0 && IsMax(x, v)))
    ensures r.Some? ==> Encodes(x, r.value)
  {
    var m := Largest(x);
    var size := m / 32;
    if m % 32 > 0 { size := size + 1; }
    var rs: seq<u32> := seq(size, _ => 0);
    NothingOn(rs);
    var todo := x.Keys;
    while todo != {}
      invariant todo <= x.Keys && |rs| == size
      invariant forall v :: v in x && v !in todo && x[v] ==> 0 <= v && v / 32 < size
      invariant forall v :: OnWords(rs, v) <==> On(x, v) && v !in todo
      decreases todo
    {
      var v := Pick(todo);
      todo := todo - {v};
      if !x[v] { continue; }
      if v < 0 { assert On(x, v); return None; }
      var i, j := v / 32, v % 32;
      if i >= |rs| {
        assert On(x, v) && v % 32 == 0 && v == m;
        return None;
      }
      ghost var before := rs;
      SetsBit(rs[i], j);
      rs := rs[i := Or(rs[i], Shl(j))];
      TurnsOn(before, v);
    }
    OneMax(x, m);
    forall v | On(x, v)
      ensures !(v < 0 || (v % 32 == 0 && v == m))
    {
    }
    return Some(rs);
  }

  lemma OneMax(x: map<int, bool>, m: int)
    requires IsMax(x, m)
    ensures forall k :: IsMax(x, k) ==> k == m
  {
  }

  lemma NothingOn(ws: seq<u32>)
    requires forall i :: 0 <= i < |ws| ==> ws[i] == 0
    ensures forall v :: !OnWords(ws, v)
  {
    forall v
      ensures !OnWords(ws, v)
    {
      if v >= 0 { BitOfZero(v % 32); }
    }
  }

  lemma TurnsOn(ws: seq<u32>, v: nat)
    requires v / 32 < |ws|
    requires Or(ws[v / 32], Shl(v % 32)) < TWO32
    ensures var ws' := ws[v / 32 := Or(ws[v / 32], Shl(v % 32))];
            forall u :: OnWords(ws', u) <==> OnWords(ws, u) || u == v
  {
    var ws' := ws[v / 32 := Or(ws[v / 32], Shl(v % 32))];
    SetsBit(ws[v / 32], v % 32);
    forall u
      ensures OnWords(ws', u) <==> OnWords(ws, u) || u == v
    {
      if 0 <= u && u / 32 < |ws| && u / 32 == v / 32 {
        assert u % 32 == v % 32 <==> u == v;
      }
    }
  }

  /** bitmap4Decode: every bit of every word is a key. */
  function Decoded(ws: seq<u32>): (x: map<int, bool>)
    ensures forall v :: v in x <==> 0 <= v < 32 * |ws|
    ensures forall v :: On(x, v) <==> OnWords(ws, v)
  {
    map v | 0 <= v < 32 * |ws| :: Bit(ws[v / 32], v % 32)
  }

  method Decode(ws: seq<u32>) returns (x: map<int, bool>)
    ensures x == Decoded(ws)
  {
    x := map[];
    for i := 0 to |ws|
      invariant x == map v | 0 <= v < 32 * i :: OnWords(ws, v)
    {
      for j := 32 downto 0
        invariant x == map v | 0 <= v < 32 * i + 32 && !(32 * i <= v < 32 * i + j) :: OnWords(ws, v)
      {
        TestsBit(ws[i], j);
        var s, n := Shl(j), 32 * i + j;
        assert n / 32 == i && n % 32 == j;
        x := x[n := And(s, ws[i]) == s];
      }
    }
  }

  // ---------------------------------------------------------------- both directions

  /** Two word lists of one length with the same numbers on are the same. */
  lemma SameWords(a: seq<u32>, b: seq<u32>)
    requires |a| == |b| && forall v :: OnWords(a, v) <==> OnWords(b, v)
    ensures a == b
  {
    forall i | 0 <= i < |a|
      ensures a[i] == b[i]
    {
      Shl32();
      forall k: nat | k < 32
        ensures Bit(a[i], k) == Bit(b[i], k)
      {
        var v := 32 * i + k;
        assert v / 32 == i && v % 32 == k;
        assert OnWords(a, v) <==> OnWords(b, v);
      }
      SameBits(a[i], b[i], 32);
    }
  }

  lemma DecodedMax(ws: seq<u32>)
    ensures var m := if ws == [] then 0 else 32 * |ws| - 1;
            IsMax(Decoded(ws), m) && Size(m) == |ws| && (m % 32 == 0 ==> !On(Decoded(ws), m))
  {
  }

  /** Encoding what was decoded is in range and gives the word list back, length included. */
  method EncodeDecoded(ws: seq<u32>) returns (r: Option<seq<u32>>)
    ensures r == Some(ws)
  {
    DecodedMax(ws);
    var x := Decode(ws);
    r := Encode(x);
    OneMax(x, if ws == [] then 0 else 32 * |ws| - 1);
    if r.None? {
      assert false;
    } else {
      SameWords(r.value, ws);
    }
  }

  /** Decoding what was encoded keeps the numbers that are on, whenever the encoding is in range. */
  method DecodeEncoded(x: map<int, bool>) returns (y: Option<map<int, bool>>)
    ensures y.None? <==> exists v :: On(x, v) && (v < 0 || (v % 32 == 0 && IsMax(x, v)))
    ensures y.Some? ==> forall v :: On(y.value, v) <==> On(x, v)
  {
    var r := Encode(x);
    if r.None? { return None; }
    var z := Decode(r.value);
    y := Some(z);
  }

  /** n bits of x from `base` on, the lowest first. */
  function WordAt(x: map<int, bool>, base: int, n: nat): nat
    decreases n
  {
    if n == 0 then 0 else 2 * WordAt(x, base + 1, n - 1) + if On(x, base) then 1 else 0
  }

  lemma {:induction false} WordAtBits(x: map<int, bool>, base: int, n: nat, k: nat)
    ensures WordAt(x, base, n) < Shl(n)
    ensures Bit(WordAt(x, base, n), k) <==> k < n && On(x, base + k)
    decreases n
  {
    if n == 0 {
      BitOfZero(k);
    } else {
      WordAtBits(x, base + 1, n - 1, if k > 0 then k - 1 else 0);
    }
  }

  function Word32(x: map<int, bool>, base: int): u32 {
    Shl32();
    WordAtBits(x, base, 32, 0);
    WordAt(x, base, 32)
  }

  /** x as n words. */
  function Words(x: map<int, bool>, n: nat): (ws: seq<u32>)
    ensures |ws| == n
  {
    seq(n, i => Word32(x, 32 * i))
  }

  lemma WordsOnAt(x: map<int, bool>, n: nat, v: int)
    requires 0 <= v < 32 * n
    ensures OnWords(Words(x, n), v) <==> On(x, v)
  {
    hide WordAt, Bit, On;
    WordAtBits(x, 32 * (v / 32), 32, v % 32);
  }

  lemma WordsOn(x: map<int, bool>, n: nat)
    ensures forall v :: OnWords(Words(x, n), v) <==> 0 <= v < 32 * n && On(x, v)
  {
    hide Words, On, Bit;
    forall v
      ensures OnWords(Words(x, n), v) <==> 0 <= v < 32 * n && On(x, v)
    {
      if 0 <= v < 32 * n { WordsOnAt(x, n, v); }
    }
  }

  /** The answer is determined by the map: no iteration order shows. */
  lemma EncodesWords(x: map<int, bool>, m: int, ws: seq<u32>)
    requires IsMax(x, m) && Encodes(x, ws)
    ensures ws == Words(x, Size(m))
  {
    WordsOn(x, Size(m));
    SameWords(ws, Words(x, Size(m))) by {
      forall v
        ensures OnWords(ws, v) <==> OnWords(Words(x, Size(m)), v)
      {
        if On(x, v) { assert OnWords(ws, v); }
      }
    }
  }
}
