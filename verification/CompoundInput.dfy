/** COMPOUND on the bytes it is given (mux_v4.go Run, Operation): each operation's number and its
    arguments are read from what the operations before it have left in the buffer. */
module CompoundInput {
  import opened Octets
  import opened XdrSchema
  import opened XdrLaws
  import opened B = XdrBuf
  import M = Compound

  /** What a handler does once its arguments are read. */
  datatype Answer = Answered(status: u32, body: seq<byte>) | Errs

  /** The types of the operations' arguments by operation number, none for an operation that reads
      none; and what the handlers answer, by the position of the operation in the compound. */
  datatype Menu = Menu(g: Schema, shapes: map<u32, Shape>, answers: nat -> Answer)

  /** The number of an operation, and its arguments. */
  function ReadOp(m: Menu, b: seq<byte>): (f: Fate<u32>)
    requires ValidSchema(m.g)
    ensures f.Done? ==> |f.rest| < |b|
  {
    var w := WordB(b);
    if !w.Done? then w.Lost(0)
    else if w.value !in m.shapes then w
    else
      var x := DecB(m.g, m.shapes[w.value], w.rest);
      if !x.Done? then x.Lost(w.turns) else Done(w.value, x.rest, w.turns + x.turns)
  }

  /** The loop on the bytes b, the i-th operation being next. */
  function Course(m: Menu, b: seq<byte>, count: nat, i: nat): M.Course
    requires ValidSchema(m.g) && i > 0
    decreases |b|
  {
    var r := ReadOp(m, b);
    if r.Hangs? then M.Sticks
    else if r.Refused? then M.Fails
    else
      match m.answers(i - 1)
      case Errs => M.Fails
      case Answered(status, _) =>
        if i < count && !M.Fatal(status) then Course(m, r.rest, count, i + 1) else M.Ran(i)
  }

  /** The operations that the bytes come to, from the i-th on: what RunOperations is given. */
  function Ops(m: Menu, b: seq<byte>, count: nat, i: nat): seq<M.Op>
    requires ValidSchema(m.g) && i > 0
    decreases |b|
  {
    var r := ReadOp(m, b);
    if r.Hangs? then [M.Stuck]
    else if r.Refused? || m.answers(i - 1).Errs? then [M.Error]
    else
      var a := m.answers(i - 1);
      [M.Done(r.value, a.status, a.body)] + if i < count then Ops(m, r.rest, count, i + 1) else []
  }

  /** The loop over those operations goes as the loop over the bytes. */
  lemma {:induction false} SameCourse(m: Menu, b: seq<byte>, count: nat, i: nat, before: seq<M.Op>)
    requires ValidSchema(m.g) && i > 0 && |before| == i - 1
    ensures M.CourseOf(before + Ops(m, b, count, i), count, i) == Course(m, b, count, i)
    decreases |b|
  {
    hide ReadOp, ValidSchema, M.Fatal;
    var r := ReadOp(m, b);
    var ops := before + Ops(m, b, count, i);
    assert M.At(ops, i - 1) == Ops(m, b, count, i)[0];
    M.CourseStep(ops, count, i);
    if r.Done? && m.answers(i - 1).Answered? && i < count {
      var a := m.answers(i - 1);
      var o := M.Done(r.value, a.status, a.body);
      SameCourse(m, r.rest, count, i + 1, before + [o]);
      assert before + [o] + Ops(m, r.rest, count, i + 1) == ops;
    }
  }

  // ---------------------------------------------------------------- compounds that are cut

  /** An operation as a client sends it. */
  datatype Item = Item(op: u32, args: Value)

  ghost predicate ItemFits(m: Menu, it: Item) { it.op in m.shapes ==> Fits(m.g, m.shapes[it.op], it.args) }

  function ArgBytes(m: Menu, it: Item): seq<byte> {
    if it.op in m.shapes then Enc(m.g, m.shapes[it.op], it.args).bytes else []
  }

  function ItemBytes(m: Menu, it: Item): seq<byte> { U32Bytes(it.op) + ArgBytes(m, it) }

  function Bytes(m: Menu, items: seq<Item>): seq<byte> {
    if items == [] then [] else ItemBytes(m, items[0]) + Bytes(m, items[1..])
  }

  lemma WordCut(n: u32, rest: seq<byte>, k: nat)
    requires k <= 4 + |rest|
    ensures var f := WordB((U32Bytes(n) + rest)[..k]);
            if k < 4 then f.Hangs? else f.Done? && f.value == n && f.rest == rest[..k - 4]
  {
    hide BigEndian, FromBigEndian;
    if k >= 4 {
      assert (U32Bytes(n) + rest)[..k] == U32Bytes(n) + rest[..k - 4];
      GetPutWord(n, rest[..k - 4]);
      WordAgrees(U32Bytes(n) + rest[..k - 4]);
    }
  }

  /** One operation: reading it hangs exactly if it is not all there. */
  lemma ItemCut(m: Menu, it: Item, rest: seq<byte>, k: nat)
    requires ValidSchema(m.g) && ItemFits(m, it) && k <= |ItemBytes(m, it) + rest|
    ensures var f := ReadOp(m, (ItemBytes(m, it) + rest)[..k]);
            if k < |ItemBytes(m, it)| then f.Hangs?
            else f.Done? && f.value == it.op && f.rest == rest[..k - |ItemBytes(m, it)|]
  {
    hide DecB, Enc, Fits, ValidSchema, WordB, BigEndian;
    var a := ArgBytes(m, it);
    Assoc(U32Bytes(it.op), a, rest);
    WordCut(it.op, a + rest, k);
    if k >= 4 {
      if it.op in m.shapes {
        CutHangs(m.g, m.shapes[it.op], it.args, rest, k - 4);
      } else {
        assert [] + rest == rest;
      }
    }
  }

  /** Operation n is reached: it is the first or within the count, and every one before it, from p on,
      was answered with a status that is not fatal. */
  ghost predicate Reached(m: Menu, count: nat, p: nat, n: nat) {
    && p <= n && (n == p || n < count)
    && forall j :: p <= j < n ==> m.answers(j).Answered? && !M.Fatal(m.answers(j).status)
  }

  /** The n-th of these operations is missing, or its last byte is not among the first k. */
  ghost predicate Missing(m: Menu, items: seq<Item>, n: nat, k: nat) {
    n >= |items| || k < |Bytes(m, items[..n + 1])|
  }

  lemma MissingLater(m: Menu, items: seq<Item>, n: nat, k: nat)
    requires items != [] && |ItemBytes(m, items[0])| <= k
    ensures Missing(m, items, n + 1, k) <==> Missing(m, items[1..], n, k - |ItemBytes(m, items[0])|)
  {
    if n + 1 < |items| {
      assert items[..n + 2][1..] == items[1..][..n + 1];
    }
  }

  lemma MissingFirst(m: Menu, items: seq<Item>, k: nat)
    requires items != []
    ensures Missing(m, items, 0, k) <==> k < |ItemBytes(m, items[0])|
  {
    hide ItemBytes;
    assert items[..1][1..] == [] && items[..1][0] == items[0];
    assert Bytes(m, items[..1]) == ItemBytes(m, items[0]) + [];
  }

  /** The operation n places after the p-th is reached, and not all there. */
  ghost predicate SticksAt(m: Menu, items: seq<Item>, count: nat, p: nat, n: nat, k: nat) {
    Reached(m, count, p, p + n) && Missing(m, items, n, k)
  }

  ghost predicate SticksSomewhere(m: Menu, items: seq<Item>, count: nat, p: nat, k: nat) {
    exists n :: SticksAt(m, items, count, p, n, k)
  }

  lemma {:induction false} CutSticksFrom(m: Menu, items: seq<Item>, count: nat, i: nat, k: nat)
    requires ValidSchema(m.g) && i > 0 && (forall it :: it in items ==> ItemFits(m, it)) && k <= |Bytes(m, items)|
    ensures Course(m, Bytes(m, items)[..k], count, i).Sticks? <==> SticksSomewhere(m, items, count, i - 1, k)
    decreases |items|
  {
    hide ReadOp, ItemBytes, ValidSchema, ItemFits, M.Fatal, SticksSomewhere;
    if items == [] {
      NothingLeft(m, count, i, k);
    } else {
      var first, tail := items[0], items[1..];
      ItemCut(m, first, Bytes(m, tail), k);
      var size := |ItemBytes(m, first)|;
      if k >= size {
        CutSticksFrom(m, tail, count, i + 1, k - size);
        LaterPoints(m, items, count, i, k);
      } else {
        FirstPoint(m, items, count, i, k);
      }
    }
  }

  lemma NothingLeft(m: Menu, count: nat, i: nat, k: nat)
    requires ValidSchema(m.g) && i > 0
    ensures ReadOp(m, []).Hangs? && SticksSomewhere(m, [], count, i - 1, k)
  {
    assert SticksAt(m, [], count, i - 1, 0, k);
  }

  lemma FirstPoint(m: Menu, items: seq<Item>, count: nat, i: nat, k: nat)
    requires i > 0 && items != [] && k < |ItemBytes(m, items[0])|
    ensures SticksSomewhere(m, items, count, i - 1, k)
  {
    MissingFirst(m, items, k);
    assert SticksAt(m, items, count, i - 1, 0, k);
  }

  /** The points at which the operations after the first can stick are those of the whole. */
  lemma LaterPoints(m: Menu, items: seq<Item>, count: nat, i: nat, k: nat)
    requires i > 0 && items != [] && |ItemBytes(m, items[0])| <= k
    ensures SticksSomewhere(m, items, count, i - 1, k)
       <==> var a, k' := m.answers(i - 1), k - |ItemBytes(m, items[0])|;
            && i < count && a.Answered? && !M.Fatal(a.status)
            && SticksSomewhere(m, items[1..], count, i, k')
  {
    hide ItemBytes, M.Fatal, Missing;
    var p, k' := i - 1, k - |ItemBytes(m, items[0])|;
    MissingFirst(m, items, k);
    forall n: nat | SticksAt(m, items, count, p, n, k)
      ensures n > 0 && SticksAt(m, items[1..], count, i, n - 1, k')
    {
      if n > 0 { MissingLater(m, items, n - 1, k); }
    }
    forall n: nat | SticksAt(m, items[1..], count, i, n, k')
      ensures Missing(m, items, n + 1, k)
    {
      MissingLater(m, items, n, k);
    }
    if SticksSomewhere(m, items[1..], count, i, k') {
      var a := m.answers(i - 1);
      if i < count && a.Answered? && !M.Fatal(a.status) {
        var n: nat :| SticksAt(m, items[1..], count, i, n, k');
        assert SticksAt(m, items, count, p, n + 1, k);
      }
    }
  }

  /** A compound of any operations, of which only the first k bytes are there, never returns exactly if
      it reaches an operation that is missing or cut: whatever the handlers answer, and whether the
      count says more operations than there are, fewer, or as many. */
  lemma CutCompoundSticks(m: Menu, items: seq<Item>, count: nat, k: nat)
    requires ValidSchema(m.g) && (forall it :: it in items ==> ItemFits(m, it)) && k <= |Bytes(m, items)|
    ensures Course(m, Bytes(m, items)[..k], count, 1).Sticks?
       <==> exists n :: Reached(m, count, 0, n) && Missing(m, items, n, k)
  {
    hide Course, Missing, Reached, Bytes, ItemFits, ValidSchema;
    CutSticksFrom(m, items, count, 1, k);
    forall n: nat | Reached(m, count, 0, n) && Missing(m, items, n, k)
      ensures SticksAt(m, items, count, 0, n, k)
    {
    }
    if n: nat :| SticksAt(m, items, count, 0, n, k) {
      assert Reached(m, count, 0, n);
    }
  }

  /** For instance one that announces more operations than it holds. */
  lemma ShortCompoundSticks(m: Menu, items: seq<Item>, count: nat)
    requires ValidSchema(m.g) && (forall it :: it in items ==> ItemFits(m, it)) && |items| < count
    requires forall j :: 0 <= j < |items| ==> m.answers(j).Answered? && !M.Fatal(m.answers(j).status)
    ensures Course(m, Bytes(m, items), count, 1).Sticks?
  {
    hide Course, ItemFits, ValidSchema;
    var k := |Bytes(m, items)|;
    assert Bytes(m, items)[..k] == Bytes(m, items);
    assert Reached(m, count, 0, |items|) && Missing(m, items, |items|, k);
    CutCompoundSticks(m, items, count, k);
  }
}
