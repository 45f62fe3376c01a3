/** bufpool/: byte buffers with a read and a write cursor, grown and overwritten in place, and the
    pool that recycles them. */
module Bufpool {
  import opened Octets

  /** raw with p laid over it from position w on. */
  function Overwrite(raw: seq<byte>, w: nat, p: seq<byte>): (r: seq<byte>)
    requires w <= |raw|
    ensures |r| == if w + |p| > |raw| then w + |p| else |raw|
  {
    raw[..w] + p + if w + |p| < |raw| then raw[w + |p|..] else []
  }

  /** Go's copy into a slice of an array. */
  method CopyInto(a: array<byte>, at: nat, p: seq<byte>)
    requires at + |p| <= a.Length
    modifies a
    ensures a[..] == Overwrite(old(a[..]), at, p)
  {
    ghost var before := a[..];
    for i := 0 to |p|
      invariant a[..] == before[..at] + p[..i] + before[at + i..]
    {
      a[at + i] := p[i];
    }
    assert p[..|p|] == p;
  }

  lemma GrowThenOverwrite(raw: seq<byte>, grown: seq<byte>, w: nat, p: seq<byte>)
    requires raw <= grown && w <= |raw| && w + |p| <= |grown|
    requires |grown| == |raw| || |grown| == w + |p|
    ensures Overwrite(grown, w, p) == Overwrite(raw, w, p)
  {
    assert grown[..w] == raw[..w];
  }

  class Buf {
    var buf: array<byte>
    var r: nat
    var w: nat

    ghost predicate Valid()
      reads this
    {
      r <= w <= buf.Length
    }

    /** Bytes: what has been written and not yet read. */
    ghost function Content(): seq<byte>
      requires Valid()
      reads this, buf
    {
      buf[r..w]
    }

    constructor (size: nat)
      ensures Valid() && r == 0 && w == 0 && buf.Length == size && fresh(buf)
    {
      buf := new byte[size](_ => 0);
      r, w := 0, 0;
    }

    method Grow(n: nat)
      requires Valid()
      modifies this`buf
      ensures Valid() && (buf == old(buf) || fresh(buf))
      ensures buf.Length == if n > old(buf.Length) then n else old(buf.Length)
      ensures old(buf[..]) <= buf[..]
    {
      if n <= buf.Length { return; }
      var bigger := new byte[n](_ => 0);
      for i := 0 to buf.Length
        modifies bigger
        invariant bigger[..i] == buf[..i]
      {
        bigger[i] := buf[i];
      }
      assert bigger[..buf.Length] == buf[..];
      buf := bigger;
    }

    method Write(p: seq<byte>)
      requires Valid()
      modifies this`buf, this`w, buf
      ensures Valid() && (buf == old(buf) || fresh(buf))
      ensures buf[..] == Overwrite(old(buf[..]), old(w), p) && w == old(w) + |p| && r == old(r)
      ensures Content() == old(Content()) + p
    {
      if w + |p| > buf.Length { Grow(w + |p|); }
      GrowThenOverwrite(old(buf[..]), buf[..], w, p);
      CopyInto(buf, w, p);
      w := w + |p|;
      WrittenContent(old(buf[..]), r, old(w), p, buf[..]);
    }

    /** Read copies what fits and never reports the end of the data. */
    method Read(n: nat) returns (p: seq<byte>)
      requires Valid()
      modifies this`r
      ensures Valid() && |p| == if n < |old(Content())| then n else |old(Content())|
      ensures old(Content()) == p + Content()
    {
      var k := if n < w - r then n else w - r;
      p := buf[r..r + k];
      r := r + k;
    }

    /** The buffer stays usable exactly if the cursor stays between the read cursor and the end. */
    method SeekWrite(n: nat) returns (old_: nat)
      modifies this`w
      ensures old_ == old(w) && w == n
      ensures Valid() <==> r <= n <= buf.Length
    {
      old_ := w;
      w := n;
    }

    method Reset()
      modifies this`r, this`w
      ensures Valid() && r == 0 && w == 0 && Content() == []
    {
      r, w := 0, 0;
    }

    /** Allocate makes room for n bytes after the write cursor; Commit moves the cursor over them. */
    method Allocate(n: nat)
      requires Valid()
      modifies this`buf
      ensures Valid() && (buf == old(buf) || fresh(buf)) && w + n <= buf.Length
      ensures buf[..w] == old(buf[..w]) && buf.Length == if w + n > old(buf.Length) then w + n else old(buf.Length)
    {
      ghost var raw := buf[..];
      if w + n > buf.Length { Grow(w + n); }
      assert buf[..w] == buf[..][..w] == raw[..w];
    }

    method Commit(n: nat)
      requires Valid()
      modifies this`w
      ensures w == old(w) + n && (Valid() <==> w <= buf.Length)
    {
      w := w + n;
    }

    /** Copy appends to its target, which may be the buffer itself; it does not replace what the target
        holds. Different buffers have arrays of their own. */
    method Copy(other: Buf)
      requires Valid() && other.Valid() && (other != this ==> other.buf != buf)
      modifies other`buf, other`w, other.buf
      ensures other.Valid() && (other.buf == old(other.buf) || fresh(other.buf)) && other.r == old(other.r)
      ensures other.Content() == old(other.Content()) + old(Content())
    {
      ghost var content := Content();
      ghost var held := other.buf[..other.w];
      other.Allocate(w - r);
      assert other.buf[..other.w] == held;
      assert other.buf[..][other.r..other.w] == held[other.r..] == old(other.Content());
      assert other == this ==> buf[r..w] == content;
      assert buf[r..w] == content;
      ghost var raw := other.buf[..];
      var n := w - r;
      CopyInto(other.buf, other.w, buf[r..w]);
      other.Commit(n);
      WrittenContent(raw, other.r, old(other.w), content, other.buf[..]);
    }
  }

  class Pool {
    var bufs: seq<Buf>

    constructor ()
      ensures bufs == []
    {
      bufs := [];
    }

    /** Every free buffer is empty. */
    ghost predicate Clean()
      reads this, bufs
    {
      forall b :: b in bufs ==> b.r == 0 && b.w == 0
    }

    /** Get hands out the oldest free buffer as it is: an empty one, if all free buffers are. */
    method Get() returns (b: Buf)
      modifies this
      ensures old(bufs) == [] ==> fresh(b) && fresh(b.buf) && bufs == [] && b.Valid() && b.Content() == []
      ensures old(bufs) != [] ==> b == old(bufs)[0] && bufs == old(bufs)[1..]
      ensures old(Clean()) ==> Clean() && b.Valid() && b.Content() == []
    {
      if |bufs| > 0 {
        b := bufs[0];
        bufs := bufs[1..];
      } else {
        b := new Buf(1024);
      }
    }

    method Put(b: Buf)
      modifies this, b`r, b`w
      ensures bufs == old(bufs) + [b] && b.Valid() && b.Content() == [] && b.r == 0 && b.w == 0
      ensures old(Clean()) ==> Clean()
    {
      b.Reset();
      bufs := bufs + [b];
    }

    /** The end of a SEQUENCE compound that caches its reply. The pool stays clean exactly if the
        slot's buffer was not given back meanwhile, as DESTROY_SESSION inside the compound does, or
        there was nothing to copy. */
    method CacheReply(out: Buf, slot: Buf)
      requires Clean() && out.Valid() && slot.Valid() && out != slot && out.buf != slot.buf
      modifies slot`buf, slot`w, slot.buf
      ensures slot.Valid() && slot.Content() == old(slot.Content()) + out.Content()
      ensures Clean() <==> slot !in bufs || out.Content() == []
    {
      out.Copy(slot);
    }
  }

  lemma WrittenContent(raw: seq<byte>, r: nat, w: nat, p: seq<byte>, raw': seq<byte>)
    requires r <= w <= |raw| && raw' == Overwrite(raw, w, p)
    ensures raw'[r..w + |p|] == raw[r..w] + p
  {
    assert raw'[..w + |p|] == raw[..w] + p;
  }
}
