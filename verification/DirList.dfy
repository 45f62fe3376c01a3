/** The reply of READDIR on the wire: the chain of Entry4 records of msg/structs.go. */
module DirList {
  import opened Octets
  import opened XdrSchema
  import opened XdrLaws
  import opened XdrGenerate
  import opened XdrAgreement
  import opened ReadDir

  const FATTR4 := Def(false, [Slice(Word(KUint32)), Opaque])
  const ENTRY4 := Def(false, [Hyper(false), Opaque, Struct("FAttr4"), Ptr(Struct("Entry4"))])
  const DIRLIST4 := Def(false, [Ptr(Struct("Entry4")), Bool])

  const DIR := Schema(map["FAttr4" := FATTR4, "Entry4" := ENTRY4, "DirList4" := DIRLIST4],
                      map["FAttr4" := 0, "Entry4" := 1, "DirList4" := 0])

  lemma DirRanks()
    ensures RankAll(DIR, FATTR4.fields) == 0 && RankAll(DIR, DIRLIST4.fields) == 0 && RankAll(DIR, ENTRY4.fields) <= 1
  {
    hide RankAll;
    RankZero(DIR, FATTR4.fields);
    RankZero(DIR, DIRLIST4.fields);
    RankAtMostOne(DIR, ENTRY4.fields);
  }

  lemma DirValid()
    ensures ValidSchema(DIR)
  {
    hide RankAll, Rank;
    DirRanks();
    forall n | n in DIR.defs
      ensures RankAll(DIR, DIR.defs[n].fields) <= DIR.rank[n] && !DIR.defs[n].union
    {
    }
  }

  lemma DirPlain()
    ensures PlainSchema(DIR)
  {
    assert forall i :: 0 <= i < |FATTR4.fields| ==> Plain(FATTR4.fields[i]);
    assert forall i :: 0 <= i < |ENTRY4.fields| ==> Plain(ENTRY4.fields[i]);
    assert forall i :: 0 <= i < |DIRLIST4.fields| ==> Plain(DIRLIST4.fields[i]);
    hide Plain;
  }

  /** The generator gives the entry the template that ends in a pointer, the list the one that
      starts with a pointer: the codecs of msg/structs_xdr.go. */
  lemma DirTemplates()
    ensures Emit(ENTRY4) == [DefinitionStar] && Emit(DIRLIST4) == [StarDefinition] && Emit(FATTR4) == [Definition]
  {
    assert ENTRY4.fields[3].Ptr? && DIRLIST4.fields[0].Ptr?;
    assert !Collects(ENTRY4.fields) && !Collects(DIRLIST4.fields);
  }

  // ---------------------------------------------------------------- pages as values

  function AttrsOf(e: Entry): Value { VList([Numbers(e.mask), VOpaque(e.vals)]) }

  /** The linked list that ReadDir builds. */
  function Chain(page: seq<Sent>): Value {
    if page == [] then VNil
    else VRef(VList([VInt(page[0].cookie), VOpaque(page[0].entry.name), AttrsOf(page[0].entry), Chain(page[1..])]))
  }

  /** Reading the list back by following Next. */
  function Unchain(v: Value): seq<Sent> {
    if v.VRef? && v.v.VList? && |v.v.vs| == 4 then
      var f := v.v.vs;
      if f[0].VInt? && 0 <= f[0].i < TWO64 && f[1].VOpaque? && f[2].VList? && |f[2].vs| == 2
         && f[2].vs[0].VList? && f[2].vs[1].VOpaque?
      then [Sent(f[0].i, Entry(f[1].s, Unmask(f[2].vs[0].vs), f[2].vs[1].s))] + Unchain(f[3])
      else []
    else []
  }

  function Unmask(vs: seq<Value>): seq<u32> {
    seq(|vs|, i requires 0 <= i < |vs| => if vs[i].VInt? then Truncate32(vs[i].i) else 0)
  }

  lemma {:induction false} UnchainChain(page: seq<Sent>)
    ensures Unchain(Chain(page)) == page
  {
    if page != [] {
      UnchainChain(page[1..]);
      assert Unmask(Numbers(page[0].entry.mask).vs) == page[0].entry.mask;
      assert [page[0]] + page[1..] == page;
    }
  }

  /** Every length in the entry is below 2^32. */
  predicate Small(e: Entry) { |e.name| < TWO32 && |e.mask| < TWO32 && |e.vals| < TWO32 }

  lemma AttrsFit(e: Entry)
    requires Small(e)
    ensures Fits(DIR, Struct("FAttr4"), AttrsOf(e)) && HasShape(DIR, Struct("FAttr4"), AttrsOf(e))
  {
    NumbersFit(DIR, e.mask);
    assert Fits(DIR, Opaque, VOpaque(e.vals)) && HasShape(DIR, Opaque, VOpaque(e.vals));
    hide Numbers, Fits, HasShape;
    StructHas("FAttr4", [Numbers(e.mask), VOpaque(e.vals)]);
  }

  lemma EntryFits(s: Sent, next: Value)
    requires Small(s.entry)
    requires Fits(DIR, Ptr(Struct("Entry4")), next) && HasShape(DIR, Ptr(Struct("Entry4")), next)
    ensures var v := VList([VInt(s.cookie), VOpaque(s.entry.name), AttrsOf(s.entry), next]);
            Fits(DIR, Struct("Entry4"), v) && HasShape(DIR, Struct("Entry4"), v)
  {
    AttrsFit(s.entry);
    assert Fits(DIR, Hyper(false), VInt(s.cookie)) && HasShape(DIR, Hyper(false), VInt(s.cookie));
    assert Fits(DIR, Opaque, VOpaque(s.entry.name)) && HasShape(DIR, Opaque, VOpaque(s.entry.name));
    var vs := [VInt(s.cookie), VOpaque(s.entry.name), AttrsOf(s.entry), next];
    hide AttrsOf, Fits, HasShape;
    StructHas("Entry4", vs);
  }

  lemma StructHas(n: string, vs: seq<Value>)
    requires n in DIR.defs && !DIR.defs[n].union && |vs| == |DIR.defs[n].fields|
    requires forall i :: 0 <= i < |vs| ==> Fits(DIR, DIR.defs[n].fields[i], vs[i])
    requires forall i :: 0 <= i < |vs| ==> HasShape(DIR, DIR.defs[n].fields[i], vs[i])
    ensures Fits(DIR, Struct(n), VList(vs)) && HasShape(DIR, Struct(n), VList(vs))
  {
  }

  lemma {:induction false} ChainFits(page: seq<Sent>)
    requires forall i :: 0 <= i < |page| ==> Small(page[i].entry)
    ensures Fits(DIR, Ptr(Struct("Entry4")), Chain(page)) && HasShape(DIR, Ptr(Struct("Entry4")), Chain(page))
  {
    if page != [] {
      ChainFits(page[1..]);
      EntryFits(page[0], Chain(page[1..]));
    }
  }

  /** A page of any length, sent with any mix of generated and reflective codecs and read with any
      other, arrives entry by entry, and nothing of what follows is touched. */
  lemma PageArrives(gen: set<string>, gen': set<string>, page: seq<Sent>, eof: bool, rest: seq<byte>)
    requires forall i :: 0 <= i < |page| ==> Small(page[i].entry)
    ensures ValidSchema(DIR)
    ensures var r := Decode(DIR, gen', Struct("DirList4"),
                            Encode(DIR, gen, Struct("DirList4"), VList([Chain(page), VBool(eof)])).bytes + rest);
            r.Got? && r.rest == rest && r.value.VList? && |r.value.vs| == 2
            && Unchain(r.value.vs[0]) == page && r.value.vs[1] == VBool(eof)
  {
    hide Encode, Decode, ValidSchema, PlainSchema, Fits, HasShape, Chain, Unchain;
    DirValid();
    DirPlain();
    ChainFits(page);
    ListFits(Chain(page), eof);
    RoundTripAcrossCodecs(DIR, gen, gen', Struct("DirList4"), VList([Chain(page), VBool(eof)]), rest);
    UnchainChain(page);
  }

  lemma ListFits(chain: Value, eof: bool)
    requires Fits(DIR, Ptr(Struct("Entry4")), chain) && HasShape(DIR, Ptr(Struct("Entry4")), chain)
    ensures var v := VList([chain, VBool(eof)]);
            Fits(DIR, Struct("DirList4"), v) && HasShape(DIR, Struct("DirList4"), v)
  {
    assert Fits(DIR, Bool, VBool(eof)) && HasShape(DIR, Bool, VBool(eof));
    hide Fits, HasShape;
    StructHas("DirList4", [chain, VBool(eof)]);
  }

  // ---------------------------------------------------------------- what the budgets measure

  /** The size of an entry before it is cut to 32 bits. */
  function RealSize(e: Entry): nat {
    8 + |PutOpaque(e.name).bytes| + (4 + 4 * |e.mask|) + |PutOpaque(e.vals).bytes| + 4
  }

  function SumReal(page: seq<Sent>): nat {
    if page == [] then 0 else RealSize(page[0].entry) + SumReal(page[1..])
  }

  lemma {:induction false} WordsSize(vs: seq<Value>)
    requires forall i :: 0 <= i < |vs| ==> vs[i].VInt?
    ensures EncEach(DIR, Word(KUint32), vs).ok && |EncEach(DIR, Word(KUint32), vs).bytes| == 4 * |vs|
  {
    hide BigEndian;
    if vs != [] {
      WordsSize(vs[1..]);
      assert Enc(DIR, Word(KUint32), vs[0]) == PutWord(Truncate32(vs[0].i));
    }
  }

  lemma AttrsSize(e: Entry)
    ensures var out := Enc(DIR, Struct("FAttr4"), AttrsOf(e));
            out.ok && |out.bytes| == 4 + 4 * |e.mask| + |PutOpaque(e.vals).bytes|
  {
    hide BigEndian, EncFields, EncEach, PutOpaque;
    var fs, vs := FATTR4.fields, AttrsOf(e).vs;
    WordsSize(Numbers(e.mask).vs);
    var none := NoFields(DIR);
    assert fs[1..][1..] == [] && vs[1..][1..] == [];
    var one := Fields(DIR, fs[1..], vs[1..], none);
    var all := Fields(DIR, fs, vs, one);
    OpaqueOk(e.vals);
  }

  lemma OpaqueOk(s: seq<byte>)
    ensures PutOpaque(s).ok
  {
  }

  lemma EntrySize(s: Sent, next: Value)
    requires Enc(DIR, Ptr(Struct("Entry4")), next).ok
    ensures var v := VList([VInt(s.cookie), VOpaque(s.entry.name), AttrsOf(s.entry), next]);
            var out := Enc(DIR, Struct("Entry4"), v);
            out.ok && |out.bytes| == RealSize(s.entry) - 4 + |Enc(DIR, Ptr(Struct("Entry4")), next).bytes|
  {
    var fs, vs := ENTRY4.fields, [VInt(s.cookie), VOpaque(s.entry.name), AttrsOf(s.entry), next];
    var rest := LastTwo(s, next);
    OpaqueOk(s.entry.name);
    assert Enc(DIR, Hyper(false), VInt(s.cookie)) == Out(U64Bytes(s.cookie % TWO64), true);
    assert Enc(DIR, Opaque, VOpaque(s.entry.name)) == PutOpaque(s.entry.name);
    assert Enc(DIR, Struct("Entry4"), VList(vs)) == EncFields(DIR, fs, vs);
    hide BigEndian, Enc, EncFields, PutOpaque, AttrsOf;
    var one := Fields(DIR, fs[1..], vs[1..], rest);
    var all := Fields(DIR, fs, vs, one);
  }

  lemma LastTwo(s: Sent, next: Value) returns (out: Out)
    requires Enc(DIR, Ptr(Struct("Entry4")), next).ok
    ensures var vs := [VInt(s.cookie), VOpaque(s.entry.name), AttrsOf(s.entry), next];
            out == EncFields(DIR, ENTRY4.fields[2..], vs[2..])
    ensures out.ok && |out.bytes| == 4 + 4 * |s.entry.mask| + |PutOpaque(s.entry.vals).bytes|
                                     + |Enc(DIR, Ptr(Struct("Entry4")), next).bytes|
  {
    hide BigEndian, Enc, EncFields, PutOpaque, AttrsOf;
    var fs, vs := ENTRY4.fields, [VInt(s.cookie), VOpaque(s.entry.name), AttrsOf(s.entry), next];
    AttrsSize(s.entry);
    var none := NoFields(DIR);
    assert fs[3..][1..] == [] && vs[3..][1..] == [];
    var one := Fields(DIR, fs[3..], vs[3..], none);
    out := Fields(DIR, fs[2..], vs[2..], one);
  }

  lemma {:induction false} ChainSize(page: seq<Sent>)
    ensures var out := Enc(DIR, Ptr(Struct("Entry4")), Chain(page));
            out.ok && |out.bytes| == SumReal(page) + 4
  {
    hide BigEndian, EncFields, AttrsOf, RealSize;
    if page != [] {
      ChainSize(page[1..]);
      EntrySize(page[0], Chain(page[1..]));
    }
  }

  /** What is subtracted from DirCount is the cookie and the name as they go on the wire. */
  lemma DirCountIsBytes(s: Sent)
    requires |s.entry.name| < TWO32 - 16
    ensures DirSize(s.entry)
         == |Enc(DIR, Hyper(false), VInt(s.cookie)).bytes| + |Enc(DIR, Opaque, VOpaque(s.entry.name)).bytes|
  {
    hide BigEndian;
  }

  /** The sizes that READDIR subtracts from MaxCount add up to the bytes of the entries on the wire,
      up to the flag that ends the chain; so the page without its last entry leaves the 128 bytes
      that are kept back for the rest of the reply. */
  lemma BudgetIsBytes(batch: seq<Entry>, offset: u64, dir: u32, max: u32)
    requires forall e :: e in batch ==> RealSize(e) + 128 < TWO32
    ensures var n := Fill(batch, dir, max).count;
            n > 1 ==> |Enc(DIR, Ptr(Struct("Entry4")), Chain(Page(batch, offset, n - 1))).bytes| - 4 + 128 <= max
  {
    hide Enc, RealSize, FullSize, DirSize;
    var n := Fill(batch, dir, max).count;
    forall e | e in batch
      ensures FullSize(e) + 128 < TWO32
    {
      SizesAgree(e);
    }
    if n > 1 {
      PageFillsBudgets(batch, dir, max);
      ChainSize(Page(batch, offset, n - 1));
      SumsAgree(batch, offset, n - 1);
    }
  }

  lemma SizesAgree(e: Entry)
    requires RealSize(e) < TWO32
    ensures FullSize(e) == RealSize(e)
  {
    hide PutOpaque;
  }

  lemma {:induction false} SumsAgree(batch: seq<Entry>, offset: u64, n: nat)
    requires n <= |batch| && forall e :: e in batch ==> RealSize(e) < TWO32
    ensures SumReal(Page(batch, offset, n)) == SumFull(batch[..n])
  {
    var page := Page(batch, offset, n);
    EntriesOf(batch, offset, n);
    SumOver(page, batch[..n]);
  }

  lemma EntriesOf(batch: seq<Entry>, offset: u64, n: nat)
    requires n <= |batch|
    ensures forall i :: 0 <= i < n ==> Page(batch, offset, n)[i].entry == batch[..n][i]
  {
  }

  lemma {:induction false} SumOver(page: seq<Sent>, es: seq<Entry>)
    requires |page| == |es| && forall i :: 0 <= i < |es| ==> page[i].entry == es[i] && RealSize(es[i]) < TWO32
    ensures SumReal(page) == SumFull(es)
    decreases page
  {
    hide RealSize, FullSize;
    if page != [] {
      SizesAgree(es[0]);
      SumOver(page[1..], es[1..]);
    }
  }
}
