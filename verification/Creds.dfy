/** auth/authenticate.go: when two credentials count as the same user. */
module Creds {
  import opened Octets

  datatype Creds = Creds(expiration: u32, hostname: seq<byte>, uid: u32, gid: u32, groups: seq<u32>)

  // slices.Sort and slices.Compact, on the copies that Equal makes

  function Insert(x: u32, s: seq<u32>): seq<u32> {
    if s == [] || x <= s[0] then [x] + s else [s[0]] + Insert(x, s[1..])
  }

  function Sort(s: seq<u32>): seq<u32> {
    if s == [] then [] else Insert(s[0], Sort(s[1..]))
  }

  function Compact(s: seq<u32>): seq<u32> {
    if |s| <= 1 then s
    else if s[0] == s[1] then Compact(s[1..])
    else [s[0]] + Compact(s[1..])
  }

  predicate Equal(c: Creds, other: Creds) {
    if c.groups == other.groups then c.uid == other.uid
    else
      var d := |c.groups| - |other.groups|;
      if d > 1 || d < -1 then false
      else
        var mine := Compact(Sort([c.gid] + c.groups));
        var others := Compact(Sort([other.gid] + other.groups));
        c.uid == other.uid && mine == others
  }

  // ---------------------------------------------------------------- a canonical form of a set

  ghost predicate Sorted(s: seq<u32>) { forall i, j :: 0 <= i < j < |s| ==> s[i] <= s[j] }
  ghost predicate Increasing(s: seq<u32>) { forall i, j :: 0 <= i < j < |s| ==> s[i] < s[j] }
  ghost function Elems(s: seq<u32>): set<u32> { set x | x in s }

  lemma ElemsCons(x: u32, s: seq<u32>)
    ensures Elems([x] + s) == Elems(s) + {x}
  {
  }

  lemma ElemsHead(s: seq<u32>)
    requires s != []
    ensures Elems(s) == Elems(s[1..]) + {s[0]}
  {
    ElemsCons(s[0], s[1..]);
    assert s == [s[0]] + s[1..];
  }

  lemma SortedCons(x: u32, s: seq<u32>)
    requires Sorted(s) && forall y :: y in Elems(s) ==> x <= y
    ensures Sorted([x] + s)
  {
    forall j | 0 <= j < |s| ensures x <= s[j] { assert s[j] in Elems(s); }
  }

  lemma IncreasingCons(x: u32, s: seq<u32>)
    requires Increasing(s) && forall y :: y in Elems(s) ==> x < y
    ensures Increasing([x] + s)
  {
    forall j | 0 <= j < |s| ensures x < s[j] { assert s[j] in Elems(s); }
  }

  lemma {:induction false} InsertSorts(x: u32, s: seq<u32>)
    requires Sorted(s)
    ensures Sorted(Insert(x, s)) && Elems(Insert(x, s)) == Elems(s) + {x}
  {
    if s == [] || x <= s[0] {
      ElemsCons(x, s);
      SortedCons(x, s);
    } else {
      InsertSorts(x, s[1..]);
      ElemsHead(s);
      ElemsCons(s[0], Insert(x, s[1..]));
      SortedCons(s[0], Insert(x, s[1..]));
    }
  }

  lemma {:induction false} SortSorts(s: seq<u32>)
    ensures Sorted(Sort(s)) && Elems(Sort(s)) == Elems(s)
  {
    if s != [] {
      SortSorts(s[1..]);
      InsertSorts(s[0], Sort(s[1..]));
      ElemsHead(s);
    }
  }

  lemma {:induction false} CompactIncreases(s: seq<u32>)
    requires Sorted(s)
    ensures Increasing(Compact(s)) && Elems(Compact(s)) == Elems(s)
  {
    if |s| > 1 {
      CompactIncreases(s[1..]);
      ElemsHead(s);
      if s[0] != s[1] {
        ElemsCons(s[0], Compact(s[1..]));
        IncreasingCons(s[0], Compact(s[1..]));
      }
    }
  }

  /** Increasing sequences are determined by their elements. */
  lemma {:induction false} IncreasingUnique(s: seq<u32>, t: seq<u32>)
    requires Increasing(s) && Increasing(t) && Elems(s) == Elems(t)
    ensures s == t
  {
    assert s != [] ==> s[0] in Elems(s);
    assert t != [] ==> t[0] in Elems(t);
    if s != [] && t != [] {
      ElemsHead(s);
      ElemsHead(t);
      assert s[0] in Elems(t) && t[0] in Elems(s);
      assert s[0] == t[0];
      assert s[0] !in Elems(s[1..]) && t[0] !in Elems(t[1..]);
      assert Elems(s[1..]) == Elems(s) - {s[0]} && Elems(t[1..]) == Elems(t) - {t[0]};
      IncreasingUnique(s[1..], t[1..]);
    }
  }

  /** Sort then compact is a canonical form: equal exactly when the element sets are equal. */
  lemma Canonical(s: seq<u32>, t: seq<u32>)
    ensures Compact(Sort(s)) == Compact(Sort(t)) <==> Elems(s) == Elems(t)
  {
    SortSorts(s);
    SortSorts(t);
    CompactIncreases(Sort(s));
    CompactIncreases(Sort(t));
    if Elems(s) == Elems(t) { IncreasingUnique(Compact(Sort(s)), Compact(Sort(t))); }
  }

  ghost function Groups(c: Creds): set<u32> { {c.gid} + Elems(c.groups) }

  /** What Equal decides, without sorting: same user, and either the same group list or lists of
      nearly the same length whose groups, counting the primary one, are the same set. */
  lemma EqualMeans(c: Creds, o: Creds)
    ensures Equal(c, o) <==>
            && c.uid == o.uid
            && (c.groups == o.groups || (-1 <= |c.groups| - |o.groups| <= 1 && Groups(c) == Groups(o)))
  {
    Canonical([c.gid] + c.groups, [o.gid] + o.groups);
    assert Elems([c.gid] + c.groups) == Groups(c);
    assert Elems([o.gid] + o.groups) == Groups(o);
  }

  lemma EqualReflexive(c: Creds)
    ensures Equal(c, c)
  {
  }

  lemma EqualSymmetric(c: Creds, o: Creds)
    ensures Equal(c, o) == Equal(o, c)
  {
    EqualMeans(c, o);
    EqualMeans(o, c);
  }

  /** When a chain of two equal pairs carries over: exactly if the ends have the same list, or lists whose
      lengths differ by at most one and the same groups. */
  lemma EqualChains(a: Creds, b: Creds, c: Creds)
    requires Equal(a, b) && Equal(b, c)
    ensures Equal(a, c)
       <==> a.groups == c.groups || (-1 <= |a.groups| - |c.groups| <= 1 && Groups(a) == Groups(c))
  {
    hide Equal;
    EqualMeans(a, b);
    EqualMeans(b, c);
    EqualMeans(a, c);
  }

  /** It is no equivalence: the primary group is ignored when the lists agree, so a chain of two
      equal pairs can join different group sets; and list lengths can drift apart. */
  lemma EqualNotTransitive()
    ensures var a, b, c := Creds(0, [], 7, 5, [1]), Creds(0, [], 7, 6, [1]), Creds(0, [], 7, 6, [1, 6]);
            Equal(a, b) && Equal(b, c) && !Equal(a, c) && Groups(a) != Groups(c)
    ensures var a, b, c := Creds(0, [], 7, 1, [1]), Creds(0, [], 7, 1, [1, 1]), Creds(0, [], 7, 1, [1, 1, 1]);
            Equal(a, b) && Equal(b, c) && !Equal(a, c) && Groups(a) == Groups(c)
  {
    hide Equal;
    OtherGroups();
    OtherLengths();
  }

  lemma OtherGroups()
    ensures var a, b, c := Creds(0, [], 7, 5, [1]), Creds(0, [], 7, 6, [1]), Creds(0, [], 7, 6, [1, 6]);
            Equal(a, b) && Equal(b, c) && !Equal(a, c) && Groups(a) != Groups(c)
  {
    var a, b, c := Creds(0, [], 7, 5, [1]), Creds(0, [], 7, 6, [1]), Creds(0, [], 7, 6, [1, 6]);
    EqualMeans(b, c);
    EqualMeans(a, c);
    assert Groups(b) == {6, 1} && Groups(c) == {6, 1};
    assert 5 in Groups(a) && 5 !in Groups(c);
  }

  lemma OtherLengths()
    ensures var a, b, c := Creds(0, [], 7, 1, [1]), Creds(0, [], 7, 1, [1, 1]), Creds(0, [], 7, 1, [1, 1, 1]);
            Equal(a, b) && Equal(b, c) && !Equal(a, c) && Groups(a) == Groups(c)
  {
    hide Equal;
    var a, b, c := Creds(0, [], 7, 1, [1]), Creds(0, [], 7, 1, [1, 1]), Creds(0, [], 7, 1, [1, 1, 1]);
    EqualMeans(a, b);
    EqualMeans(b, c);
    EqualMeans(a, c);
    assert Groups(a) == {1} && Groups(b) == {1} && Groups(c) == {1};
  }
}
