/** What attribute values tell a client (attrs.go): owners as decimal numbers, the change attribute that
    it compares to see whether a file was modified, and what the stored values say of the file. */
module AttrValues {
  import opened Octets
  import opened XdrSchema
  import opened Bitmap
  import opened Attrs
  import opened AttrLaws

  predicate Digits(s: seq<byte>) { forall i :: 0 <= i < |s| ==> 48 <= s[i] <= 57 }

  /** What a reader of decimal numbers makes of digits. */
  function Read10(s: seq<byte>): int {
    if s == [] then 0 else 10 * Read10(s[..|s| - 1]) + (s[|s| - 1] as int - 48)
  }

  lemma OneDigitMore(s: seq<byte>, d: nat)
    requires d < 10 && Digits(s)
    ensures Digits(s + [48 + d]) && Read10(s + [48 + d]) == 10 * Read10(s) + d
  {
    var t := s + [48 + d];
    assert t[..|t| - 1] == s && t[|t| - 1] == 48 + d;
  }

  /** The string is decimal, without a leading zero, and reads back as the number. */
  lemma {:induction false} DecimalReads(n: nat)
    ensures Digits(Decimal(n)) && Read10(Decimal(n)) == n && (n > 0 ==> Decimal(n)[0] != 48)
  {
    hide Digits, Read10;
    if n < 10 {
      NoDigits();
      OneDigitMore([], n);
      assert Decimal(n) == [] + [48 + n];
    } else {
      DecimalReads(n / 10);
      OneDigitMore(Decimal(n / 10), n % 10);
    }
  }

  lemma NoDigits()
    ensures Digits([]) && Read10([]) == 0
  {
  }

  lemma OwnerValues(st: State)
    ensures AttrValue(st, 36) == VOpaque(Decimal(st.info.uid)) && AttrValue(st, 37) == VOpaque(Decimal(st.info.gid))
  {
    hide Decimal;
  }

  /** Attributes 36 and 37 are the file's uid and gid in decimal. */
  lemma OwnersRead(st: State)
    ensures AttrValue(st, 36).VOpaque? && Digits(AttrValue(st, 36).s) && Read10(AttrValue(st, 36).s) == st.info.uid
    ensures AttrValue(st, 37).VOpaque? && Digits(AttrValue(st, 37).s) && Read10(AttrValue(st, 37).s) == st.info.gid
  {
    hide Decimal, Digits, Read10, AttrValue;
    OwnerValues(st);
    DecimalReads(st.info.uid);
    DecimalReads(st.info.gid);
  }

  /** The mask with one attribute number below 64. */
  function Only(a: nat): seq<u32>
    requires a < 64
  {
    Shl32();
    ShlGrows(a % 32, 32);
    if a < 32 then [Shl(a)] else [0, Shl(a - 32)]
  }

  lemma OnlyThat(a: nat)
    requires a < 64
    ensures forall v :: OnWords(Only(a), v) <==> v == a
  {
    forall v
      ensures OnWords(Only(a), v) <==> v == a
    {
      if v >= 0 {
        BitOfZero(v % 32);
        BitOfShl(a % 32, v % 32);
      }
    }
  }

  /** VERIFY of the owner alone succeeds exactly if the uid is what it was. */
  method VerifyOwner(before: State, c: Context) returns (status: u32)
    requires |before.fh| < TWO32 && c.handle.Some? && |c.handle.value| < TWO32 && FileOf(c).Some?
    ensures status == NFS4_OK <==> before.info.uid == FileOf(c).value.uid
  {
    OnlyThat(36);
    var after := State(c.handle.value, FileOf(c).value, NFS4_OK, c.uid, c.session);
    OwnersRead(before);
    OwnersRead(after);
    OwnerValues(before);
    OwnerValues(after);
    hide OnWords, Only, AttrValue, Decimal, Read10, Digits;
    status := VerifyMeansUnchanged(Only(36), before, c);
    assert before.info.uid == after.info.uid ==> AttrValue(before, 36) == AttrValue(after, 36);
  }

  // ---------------------------------------------------------------- the change attribute

  const K: int := 0xffff_ffff

  /** Multiplication by 2^32 - 1 modulo 2^64 loses nothing: times 2^32 + 1 it is -1. */
  lemma TimesK(a: int, b: int, c: int)
    requires -TWO64 < a - b < TWO64
    ensures (a * K + c) % TWO64 == (b * K + c) % TWO64 <==> a == b
  {
    var x, y := a * K + c, b * K + c;
    if x % TWO64 == y % TWO64 {
      var t := x / TWO64 - y / TWO64;
      assert (a - b) * K == t * TWO64;
      assert (a - b) * (TWO64 - 1) == (a - b) * K * 0x1_0000_0001 == t * TWO64 * 0x1_0000_0001;
      var u := (a - b) - t * 0x1_0000_0001;
      assert a - b == u * TWO64;
    }
  }

  predicate Int64Range(i: int) { -TWO64 / 2 <= i < TWO64 / 2 }

  lemma ChangeValue(st: State)
    ensures AttrValue(st, 3) == VInt((st.info.seconds * K + (st.uid + st.session)) % TWO64)
  {
  }

  /** For one user in one session the change attribute differs exactly if the modification time does, to
      the second; and at one time in one session it differs exactly between different users. */
  lemma ChangeTells(p: State, q: State)
    requires Int64Range(p.info.seconds) && Int64Range(q.info.seconds) && p.session == q.session
    ensures p.uid == q.uid ==> (AttrValue(p, 3) == AttrValue(q, 3) <==> p.info.seconds == q.info.seconds)
    ensures p.info.seconds == q.info.seconds ==> (AttrValue(p, 3) == AttrValue(q, 3) <==> p.uid == q.uid)
  {
    hide AttrValue;
    ChangeValue(p);
    ChangeValue(q);
    if p.uid == q.uid { TimesK(p.info.seconds, q.info.seconds, p.uid + p.session); }
    if p.info.seconds == q.info.seconds {
      NearRemainders(p.info.seconds * K + p.session, p.uid, q.uid);
    }
  }

  lemma NearRemainders(x: int, u: u32, v: u32)
    ensures (x + u) % TWO64 == (x + v) % TWO64 <==> u == v
  {
  }

  // ---------------------------------------------------------------- what the values say of the file

  /** Type, size, mode, links and times as a client reads them. */
  lemma ValuesTell(st: State)
    requires 0 <= st.info.size < TWO64 - 4096 && 0 <= st.info.seconds < TWO64
    ensures AttrValue(st, 1) == VInt(2) <==> st.info.isDir || st.info.modeType.Directory?
    ensures AttrValue(st, 1) == VInt(5) <==> !st.info.isDir && st.info.modeType.Symlink?
    ensures AttrValue(st, 4) == VInt(st.info.size) && AttrValue(st, 45) == VInt(st.info.size + 4096)
    ensures AttrValue(st, 33).VInt? && 0 <= AttrValue(st, 33).i < 512 && (st.info.mode - AttrValue(st, 33).i) % 512 == 0
    ensures AttrValue(st, 35).VInt? && AttrValue(st, 35).i > 0
    ensures 0 < st.info.links < TWO32 ==> AttrValue(st, 35) == VInt(st.info.links)
    ensures forall a :: a == 47 || a == 52 || a == 53 ==>
              AttrValue(st, a) == VList([VInt(st.info.seconds), VInt(st.info.nanos)])
    ensures AttrValue(st, 19) == VOpaque(st.fh) && AttrValue(st, 11) == VInt(st.status)
    ensures AttrValue(st, 10) == VInt(300)
    ensures AttrValue(st, 20) == AttrValue(st, 55) && AttrValue(st, 20) != VInt(0)
  {
    hide Decimal, Words;
  }

  /** What is the same for every file: links and symlinks are supported and names keep their case; there
      are no named attributes, handles are not unique, and case matters. */
  lemma ServerTells(st: State)
    ensures forall a :: a in {5, 6, 17, 18, 34} ==> AttrValue(st, a) == VBool(true)
    ensures forall a :: a in {7, 9, 16} ==> AttrValue(st, a) == VBool(false)
    ensures AttrValue(st, 2) == VInt(3) && AttrValue(st, 13) == VInt(1) && AttrValue(st, 82) == VInt(1)
    ensures AttrValue(st, 29) == VInt(255) && AttrValue(st, 30) == AttrValue(st, 31) == VInt(32768)
    ensures AttrValue(st, 8) == VList([VInt(1), VInt(1)]) && AttrValue(st, 41) == VList([VInt(0), VInt(0)])
  {
    hide Decimal, Words;
  }
}
