/** READDIR (mux_v4.go ReadDir, worker/lister.go): one page of a directory at a time, by cookies. */
module ReadDir {
  import opened Octets
  import opened XdrSchema

  const NFS4ERR_NOT_SAME: u32 := 10027
  const EOF_LISTER: u64 := 0xffff_ffff_ffff_ffff
  const BATCH := 128

  datatype Entry = Entry(name: seq<byte>, mask: seq<u32>, vals: seq<byte>)

  /** SizeOf(xdr.Marshal(cookie, name)). */
  function DirSize(e: Entry): u32 { Truncate32(8 + |PutOpaque(e.name).bytes|) }

  /** SizeOf(xdr.Marshal(cookie, name, attrs)) + 4, in uint32. */
  function FullSize(e: Entry): u32 {
    Truncate32(8 + |PutOpaque(e.name).bytes| + (4 + 4 * |e.mask|) + |PutOpaque(e.vals).bytes| + 4)
  }

  // ---------------------------------------------------------------- one page

  /** How many entries of a batch go into the page, and whether a budget cut it short. */
  datatype Cut = Cut(count: nat, short: bool)

  function Fill(batch: seq<Entry>, dir: u32, max: u32): (c: Cut)
    ensures c.count <= |batch|
    ensures if batch == [] then !c.short else c.count > 0
    ensures !c.short ==> c.count == |batch|
  {
    if batch == [] then Cut(0, false)
    else if dir < DirSize(batch[0]) then Cut(1, true)
    else if max < Truncate32(FullSize(batch[0]) + 128) then Cut(1, true)
    else
      var c := Fill(batch[1..], dir - DirSize(batch[0]), Truncate32(max - FullSize(batch[0])));
      Cut(c.count + 1, c.short)
  }

  /** An entry as sent: with the cookie that asks for what comes after it. */
  datatype Sent = Sent(cookie: u64, entry: Entry)

  function CookieAt(offset: u64, i: nat): u64 { (offset + 1000 + i + 1) % TWO64 }

  function Page(batch: seq<Entry>, offset: u64, n: nat): seq<Sent>
    requires n <= |batch|
  {
    seq(n, i requires 0 <= i < n => Sent(CookieAt(offset, i), batch[i]))
  }

  /** The loop over lbuf[:n]. */
  method FillPage(batch: seq<Entry>, offset: u64, dirCount: u32, maxCount: u32)
    returns (page: seq<Sent>, short: bool)
    ensures var c := Fill(batch, dirCount, maxCount);
            short == c.short && page == Page(batch, offset, c.count)
  {
    hide DirSize, FullSize;
    var dir: u32, max: u32 := dirCount, maxCount;
    page := [];
    for i := 0 to |batch|
      invariant page == Page(batch, offset, i)
      invariant var c := Fill(batch[i..], dir, max);
                Fill(batch, dirCount, maxCount) == Cut(c.count + i, c.short)
    {
      assert batch[i..][0] == batch[i] && batch[i..][1..] == batch[i + 1..];
      page := page + [Sent(CookieAt(offset, i), batch[i])];
      var size := DirSize(batch[i]);
      if dir < size { return page, true; }
      dir := dir - size;
      var full: int := FullSize(batch[i]);
      if max < Truncate32(full + 128) { return page, true; }
      max := Truncate32(max - full);
    }
    return page, false;
  }

  function SumDir(es: seq<Entry>): nat { if es == [] then 0 else DirSize(es[0]) + SumDir(es[1..]) }
  function SumFull(es: seq<Entry>): nat { if es == [] then 0 else FullSize(es[0]) + SumFull(es[1..]) }

  /** These entries are within both budgets, with 128 bytes to spare for the rest of the reply. */
  predicate Within(es: seq<Entry>, dir: int, max: int) {
    SumDir(es) <= dir && (es == [] || SumFull(es) + 128 <= max)
  }

  lemma WithinCons(e: Entry, es: seq<Entry>, dir: int, max: int)
    requires DirSize(e) <= dir && FullSize(e) + 128 <= max
    ensures Within([e] + es, dir, max) <==> Within(es, dir - DirSize(e), max - FullSize(e))
  {
    assert ([e] + es)[1..] == es;
  }

  /** A page holds the longest run of entries that is within the budgets, and one more if there is
      one: all entries but the last fit, and a page is cut short exactly if its last does not. */
  lemma {:induction false} PageFillsBudgets(batch: seq<Entry>, dir: u32, max: u32)
    requires forall e :: e in batch ==> FullSize(e) + 128 < TWO32
    ensures var c := Fill(batch, dir, max);
            && (c.count > 0 ==> Within(batch[..c.count - 1], dir, max))
            && (c.short <==> !Within(batch[..c.count], dir, max))
  {
    hide DirSize, FullSize, Within, SumDir, SumFull, Fill;
    NoEntries(dir, max);
    FillStep(batch, dir, max);
    if batch == [] {
      assert batch[..0] == [];
    } else {
      var e, tail := batch[0], batch[1..];
      if dir < DirSize(e) || max < FullSize(e) + 128 {
        OneEntry(e, dir, max);
        assert batch[..1] == [e] && batch[..0] == [];
      } else {
        PageFillsBudgets(tail, dir - DirSize(e), max - FullSize(e));
        MoreEntries(batch, dir, max, Fill(tail, dir - DirSize(e), max - FullSize(e)).count);
      }
    }
  }

  /** Fill without wrap-around. */
  lemma FillStep(batch: seq<Entry>, dir: u32, max: u32)
    requires forall e :: e in batch ==> FullSize(e) + 128 < TWO32
    ensures batch == [] ==> Fill(batch, dir, max) == Cut(0, false)
    ensures batch != [] ==>
              var e := batch[0];
              if dir < DirSize(e) || max < FullSize(e) + 128 then Fill(batch, dir, max) == Cut(1, true)
              else
                var c := Fill(batch[1..], dir - DirSize(e), max - FullSize(e));
                Fill(batch, dir, max) == Cut(c.count + 1, c.short)
  {
    hide DirSize, FullSize;
    if batch != [] { assert batch[0] in batch; }
  }

  lemma MoreEntries(batch: seq<Entry>, dir: int, max: int, n: nat)
    requires batch != [] && n < |batch|
    requires DirSize(batch[0]) <= dir && FullSize(batch[0]) + 128 <= max
    ensures Within(batch[..n + 1], dir, max)
       <==> Within(batch[1..][..n], dir - DirSize(batch[0]), max - FullSize(batch[0]))
    ensures n > 0 ==> (Within(batch[..n], dir, max)
       <==> Within(batch[1..][..n - 1], dir - DirSize(batch[0]), max - FullSize(batch[0])))
    ensures n == 0 ==> Within(batch[..n], dir, max)
  {
    hide DirSize, FullSize, Within, SumDir, SumFull;
    NoEntries(dir, max);
    var e, tail := batch[0], batch[1..];
    assert batch[..n + 1] == [e] + tail[..n];
    WithinCons(e, tail[..n], dir, max);
    if n > 0 {
      assert batch[..n] == [e] + tail[..n - 1];
      WithinCons(e, tail[..n - 1], dir, max);
    }
  }

  lemma NoEntries(dir: int, max: int)
    requires dir >= 0
    ensures Within([], dir, max)
  {
  }

  lemma OneEntry(e: Entry, dir: int, max: int)
    ensures Within([e], dir, max) <==> DirSize(e) <= dir && FullSize(e) + 128 <= max
  {
    hide DirSize, FullSize;
    assert [e][1..] == [];
    assert SumDir([e]) == DirSize(e) && SumFull([e]) == FullSize(e);
  }

  // ---------------------------------------------------------------- one call

  datatype Args = Args(cookie: u64, verf: u64, dirCount: u32, maxCount: u32)

  /** What fs.List and ListAt answer: an error's status, or entries and whether io.EOF came along; a
      lister may also panic. */
  datatype Listing = Opened(entries: seq<Entry>) | NotOpened(status: u32)
  datatype Answer = Listed(batch: seq<Entry>, eof: bool) | ListError(status: u32) | ListPanics

  /** The surroundings of one call: the file system's answers, the index AddLister picks and the
      status of an error from closing. */
  datatype Env = Env(listing: Listing, index: u64, answer: Answer, closeError: Option<u32>)

  datatype Reply = Error(status: u32) | Reply(verf: u64, page: seq<Sent>, eof: bool) | Panicked

  type Listers = map<u64, seq<Entry>>

  function Offset(cookie: u64): u64 { if cookie == 0 then 0 else (cookie - 1000) % TWO64 }

  /** The reply once a lister is at hand. */
  function Answered(listers: Listers, verf: u64, a: Args, e: Env): (Listers, Reply) {
    match e.answer
    case ListPanics => (listers, Panicked)
    case ListError(status) => (listers, Error(status))
    case Listed(batch, eof) =>
      var c := Fill(batch, a.dirCount, a.maxCount);
      var page := Page(batch, Offset(a.cookie), c.count);
      if eof && !c.short then
        (listers - {verf}, if e.closeError.Some? then Error(e.closeError.value) else Reply(EOF_LISTER, page, true))
      else (listers, Reply(verf, page, false))
  }

  function Serve(listers: Listers, a: Args, e: Env): (Listers, Reply) {
    if a.cookie == 0 then
      match e.listing
      case NotOpened(status) => (listers, Error(status))
      case Opened(entries) => Answered(listers[e.index := entries], e.index, a, e)
    else if a.verf == EOF_LISTER then (listers, Reply(EOF_LISTER, [], true))
    else if a.verf !in listers then (listers, Error(NFS4ERR_NOT_SAME))
    else Answered(listers, a.verf, a, e)
  }

  /** The lister table of a worker, as READDIR uses it. */
  class Directory {
    var listers: Listers

    method ReadDir(args: Args, e: Env) returns (r: Reply)
      requires e.index !in listers && e.index != EOF_LISTER
      modifies this
      ensures (listers, r) == Serve(old(listers), args, e)
    {
      hide Fill, Page;
      var verf := args.verf;
      if args.cookie == 0 {
        if e.listing.NotOpened? { return Error(e.listing.status); }
        listers := listers[e.index := e.listing.entries];
        verf := e.index;
      } else if args.verf == EOF_LISTER {
        return Reply(args.verf, [], true);
      } else if args.verf !in listers {
        return Error(NFS4ERR_NOT_SAME);
      }
      var offset := (args.cookie - 1000) % TWO64;
      if args.cookie == 0 { offset := 0; }
      if e.answer.ListPanics? { return Panicked; }
      if e.answer.ListError? { return Error(e.answer.status); }
      var page, short := FillPage(e.answer.batch, offset, args.dirCount, args.maxCount);
      var eof := e.answer.eof && !short;
      if eof {
        listers := listers - {verf};
        if e.closeError.Some? { return Error(e.closeError.value); }
        verf := EOF_LISTER;
      }
      return Reply(verf, page, eof);
    }
  }

  // ---------------------------------------------------------------- a whole walk

  /** A lister over `es` that makes progress and reports io.EOF only at the end. */
  ghost predicate Good(es: seq<Entry>, offset: int, a: Answer) {
    && 0 <= offset <= |es| && a.Listed? && |a.batch| <= BATCH
    && offset + |a.batch| <= |es| && a.batch == es[offset..offset + |a.batch|]
    && (offset < |es| ==> a.batch != [])
    && (offset == |es| ==> a.eof)
    && (a.eof ==> offset + |a.batch| == |es|)
  }

  /** int64(offset) */
  function Int64(u: u64): int { if u >= TWO64 / 2 then u - TWO64 else u }

  /** vfs.FileInfoListerAt.ListAt: a negative offset is out of the slice's range. */
  function ListAt(es: seq<Entry>, offset: int): Answer {
    if offset >= |es| then Listed([], true)
    else if offset < 0 then ListPanics
    else
      var n := if |es| - offset < BATCH then |es| - offset else BATCH;
      Listed(es[offset..offset + n], n < BATCH)
  }

  lemma FileInfoListerIsGood(es: seq<Entry>, offset: int)
    ensures Good(es, offset, ListAt(es, offset)) <==> 0 <= offset <= |es|
  {
  }

  /** With the stock lister READDIR panics exactly if it gets as far as the lister with a cookie that it
      never hands out: one below 1000, or one so large that its offset is negative as an int64. */
  lemma StrayCookiePanics(listers: Listers, a: Args, e: Env, es: seq<Entry>)
    requires e.listing == Opened(es) && e.answer == ListAt(es, Int64(Offset(a.cookie)))
    ensures Serve(listers, a, e).1 == Panicked <==>
            && (1 <= a.cookie < 1000 || a.cookie >= 1000 + TWO64 / 2)
            && a.verf != EOF_LISTER && a.verf in listers
  {
    hide Fill, Page;
  }

  /** A call: the table it met, what was asked, the surroundings and the reply. */
  datatype Call = Call(listers: Listers, args: Args, env: Env, reply: Reply)

  /** A client reads a directory from the start, each time from the last cookie and with the last
      verifier, until it sees Eof or an error. Budgets are free in every call. Between calls anything
      may happen to the table, the loss of the walk's lister included, except that no lister of
      another directory takes its index. */
  ghost predicate Walk(es: seq<Entry>, h: seq<Call>) {
    && (forall k :: 0 <= k < |h| ==>
          && h[k].reply == Serve(h[k].listers, h[k].args, h[k].env).1
          && h[k].env.index !in h[k].listers && h[k].env.index != EOF_LISTER && h[k].env.closeError.None?
          && (Asked(h[k]) ==> Good(es, Offset(h[k].args.cookie), h[k].env.answer)))
    && (h != [] ==> h[0].args.cookie == 0 && h[0].env.listing == Opened(es))
    && (forall k :: 0 < k < |h| ==> Continues(es, h[k - 1].reply, h[k]))
  }

  ghost predicate Continues(es: seq<Entry>, last: Reply, c: Call) {
    && last.Reply? && !last.eof && last.page != []
    && c.args.cookie == last.page[|last.page| - 1].cookie && c.args.verf == last.verf
    && (c.args.verf in c.listers ==> c.listers[c.args.verf] == es)
  }

  /** The call gets as far as a lister. */
  predicate Asked(c: Call) { c.args.cookie == 0 || c.args.verf in c.listers }

  function Entries(page: seq<Sent>): seq<Entry> { seq(|page|, i requires 0 <= i < |page| => page[i].entry) }

  ghost function Visited(h: seq<Call>): seq<Entry> {
    if h == [] then []
    else Visited(h[..|h| - 1]) + if h[|h| - 1].reply.Reply? then Entries(h[|h| - 1].reply.page) else []
  }

  /** What one call of a walk at position m gives. */
  lemma PageAt(es: seq<Entry>, c: Call, m: nat)
    requires m <= |es| < TWO64 / 2
    requires c.reply == Serve(c.listers, c.args, c.env).1 && c.env.index != EOF_LISTER && c.env.closeError.None?
    requires c.args.cookie == 0 ==> m == 0 && c.env.listing == Opened(es)
    requires c.args.cookie != 0 ==> c.args.cookie == 1000 + m && c.args.verf != EOF_LISTER && c.args.verf in c.listers
    requires Good(es, m, c.env.answer)
    ensures c.reply.Reply?
    ensures var p := c.reply.page;
            && m + |p| <= |es| && Entries(p) == es[m..m + |p|]
            && (p != [] ==> p[|p| - 1].cookie == 1000 + m + |p|)
            && (c.reply.eof ==> m + |p| == |es|)
            && (!c.reply.eof ==> p != [] && c.reply.verf != EOF_LISTER)
  {
    hide Fill, Page, Entries;
    var batch := c.env.answer.batch;
    var n := Fill(batch, c.args.dirCount, c.args.maxCount).count;
    assert c.reply.Reply? && c.reply.page == Page(batch, m, n);
    PageIs(es, batch, m, n);
  }

  lemma PageIs(es: seq<Entry>, batch: seq<Entry>, m: nat, n: nat)
    requires n <= |batch| && m + |batch| <= |es| < TWO64 / 2 && batch == es[m..m + |batch|]
    ensures var p := Page(batch, m, n);
            |p| == n && Entries(p) == es[m..m + n] && (n > 0 ==> p[n - 1].cookie == 1000 + m + n)
  {
    var p := Page(batch, m, n);
    if n > 0 { assert p[n - 1].cookie == CookieAt(m, n - 1); }
    assert forall i :: 0 <= i < n ==> p[i].entry == batch[i] == es[m + i];
  }

  /** Every walk, under any budgets and whatever becomes of its lister: the replies so far are the
      directory's first entries, each once and in order; Eof comes only with or after the last; a reply
      is the error NOT_SAME exactly if the verifier's lister is gone at that call; and there is a new
      entry in every reply but possibly the last, so the walk ends after at most one call more than
      there are entries. */
  lemma {:induction false} WalkVisitsAll(es: seq<Entry>, h: seq<Call>)
    requires |es| < TWO64 / 2 && Walk(es, h) && h != []
    ensures Reached(es, h, |Visited(h)|)
  {
    hide Serve, Good, Walk, Reached, Visited, Continues;
    var n := |h| - 1;
    var before := h[..n];
    if n == 0 {
      FirstPage(es, h);
    } else {
      ShorterWalk(es, h);
      WalkVisitsAll(es, before);
      NextPage(es, h, |Visited(before)|);
    }
  }

  /** The walk has come to position m. */
  ghost predicate Reached(es: seq<Entry>, h: seq<Call>, m: nat)
    requires h != []
  {
    var c := h[|h| - 1];
    var last := c.reply;
    && m <= |es| && Visited(h) == es[..m] && |h| <= m + 1
    && (last.Reply? <==> c.args.cookie == 0 || c.args.verf in c.listers)
    && (!last.Reply? ==> last == Error(10027))
    && (last.Reply? && last.eof ==> m == |es|)
    && (last.Reply? && !last.eof ==>
          && |h| <= m && last.verf != EOF_LISTER
          && last.page != [] && last.page[|last.page| - 1].cookie == 1000 + m)
  }

  lemma ShorterWalk(es: seq<Entry>, h: seq<Call>)
    requires Walk(es, h) && |h| > 1
    ensures Walk(es, h[..|h| - 1])
  {
    hide Serve, Good;
    var before := h[..|h| - 1];
    forall k | 0 < k < |before|
      ensures Continues(es, before[k - 1].reply, before[k])
    {
      assert Continues(es, h[k - 1].reply, h[k]);
    }
  }

  lemma FirstPage(es: seq<Entry>, h: seq<Call>)
    requires |es| < TWO64 / 2 && Walk(es, h) && |h| == 1
    ensures Reached(es, h, |Visited(h)|)
  {
    hide Serve, Good;
    assert Visited(h[..0]) == [];
    PageAt(es, h[0], 0);
    var p := h[0].reply.page;
    assert es[0..|p|] == es[..|p|] && [] + Entries(p) == Entries(p);
  }

  lemma NextPage(es: seq<Entry>, h: seq<Call>, m: nat)
    requires |es| < TWO64 / 2 && Walk(es, h) && |h| > 1
    requires Reached(es, h[..|h| - 1], m)
    ensures Reached(es, h, |Visited(h)|)
  {
    hide Serve, Good, Entries;
    var n := |h| - 1;
    assert Continues(es, h[n - 1].reply, h[n]);
    if Asked(h[n]) {
      PageAt(es, h[n], m);
      var p := h[n].reply.page;
      assert es[..m] + es[m..m + |p|] == es[..m + |p|];
      assert |Entries(p)| == |p|;
    } else {
      ListerGone(h[n]);
      assert es[..m] + [] == es[..m];
    }
  }

  lemma ListerGone(c: Call)
    requires c.reply == Serve(c.listers, c.args, c.env).1
    requires c.args.cookie != 0 && c.args.verf != EOF_LISTER && c.args.verf !in c.listers
    ensures c.reply == Error(10027)
  {
  }

  /** The lister that a call uses, if it gets that far. */
  function UsedLister(a: Args, e: Env): u64 { if a.cookie == 0 then e.index else a.verf }

  /** A call takes a lister out of the table only if it is the one it used and the entries are at their
      end: after Eof that lister is gone, any other call leaves all that were there, and none changes. */
  lemma ListersKept(listers: Listers, a: Args, e: Env)
    requires e.index !in listers && e.index != EOF_LISTER
    ensures var (after, r) := Serve(listers, a, e);
            && (forall v :: v in after && v in listers ==> after[v] == listers[v])
            && (forall v :: v in after && v !in listers ==>
                  v == e.index && a.cookie == 0 && e.listing == Opened(after[v]))
            && (forall v :: v in listers && v !in after ==>
                  && v == UsedLister(a, e)
                  && ((r.Reply? && r.eof) || (e.closeError.Some? && r == Error(e.closeError.value))))
            && (r.Reply? && r.eof && (a.cookie == 0 || a.verf != EOF_LISTER) ==> UsedLister(a, e) !in after)
            && (r.Reply? && !r.eof ==> UsedLister(a, e) in after && r.verf == UsedLister(a, e))
  {
    hide Fill, Page;
  }

  /** A verifier says no more than an index: if the lister is gone and that of another directory has
      taken its index, the walk goes on there, from the same position. */
  lemma TakenOver(other: seq<Entry>, c: Call, m: nat)
    requires m <= |other| < TWO64 / 2 && c.args.cookie == 1000 + m && c.args.verf != EOF_LISTER
    requires c.args.verf in c.listers && c.listers[c.args.verf] == other
    requires c.reply == Serve(c.listers, c.args, c.env).1 && c.env.index != EOF_LISTER && c.env.closeError.None?
    requires Good(other, m, c.env.answer)
    ensures c.reply.Reply? && m + |c.reply.page| <= |other|
    ensures Entries(c.reply.page) == other[m..m + |c.reply.page|]
  {
    hide Serve, Good, Entries;
    PageAt(other, c, m);
  }

  /** Following the cookies never gets stuck: until Eof the next call is a good one. */
  lemma WalkGoesOn(es: seq<Entry>, h: seq<Call>, dirCount: u32, maxCount: u32) returns (next: Call)
    requires |es| < TWO64 / 2 && Walk(es, h) && h != [] && h[|h| - 1].reply.Reply? && !h[|h| - 1].reply.eof
    ensures next.args.dirCount == dirCount && next.args.maxCount == maxCount && Walk(es, h + [next])
  {
    hide Serve, Good;
    WalkVisitsAll(es, h);
    var last := h[|h| - 1].reply;
    var cookie := last.page[|last.page| - 1].cookie;
    var m := |Visited(h)|;
    FileInfoListerIsGood(es, m);
    var index := if last.verf == 0 then 1 else 0;
    var args := Args(cookie, last.verf, dirCount, maxCount);
    var env := Env(Opened(es), index, ListAt(es, m), None);
    var listers := map[last.verf := es];
    next := Call(listers, args, env, Serve(listers, args, env).1);
    assert Offset(cookie) == m;
    assert Continues(es, last, next);
    var h' := h + [next];
    forall k | 0 < k < |h'|
      ensures Continues(es, h'[k - 1].reply, h'[k])
    {
      if k < |h| { assert Continues(es, h[k - 1].reply, h[k]); }
    }
  }
}
