/** clients/client.go: sessions, their slots and the pooled buffers of the slots. */
module Sessions {
  import opened Octets
  import opened Bufpool
  import opened XdrWire
  import S = Slots
  import opened M = Compound

  function Present(bufs: seq<Buf?>): seq<Buf> {
    if bufs == [] then []
    else
      var last := bufs[|bufs| - 1];
      Present(bufs[..|bufs| - 1]) + if last != null then [last] else []
  }

  function Bufs(slots: seq<Slot>): seq<Buf?>
    reads slots
  {
    seq(|slots|, i reads slots requires 0 <= i < |slots| => slots[i].buf)
  }

  /** The buffers of the slots that have one, in order. */
  function Buffers(slots: seq<Slot>): seq<Buf>
    reads slots
  {
    Present(Bufs(slots))
  }

  function BufferSet(slots: seq<Slot>): set<Buf>
    reads slots
  {
    set s | s in slots && s.buf != null :: s.buf
  }

  lemma {:induction false} PresentHas(bufs: seq<Buf?>, b: Buf)
    requires b in bufs
    ensures b in Present(bufs)
  {
    var n := |bufs| - 1;
    if b != bufs[n] {
      assert b in bufs[..n];
      PresentHas(bufs[..n], b);
    }
  }

  lemma PresentNext(bufs: seq<Buf?>, i: nat)
    requires i < |bufs|
    ensures Present(bufs[..i + 1]) == Present(bufs[..i]) + if bufs[i] != null then [bufs[i]] else []
  {
    assert bufs[..i + 1][..i] == bufs[..i];
  }

  lemma BufferOf(slots: seq<Slot>, slot: Slot)
    requires slot in slots && slot.buf != null
    ensures slot.buf in Buffers(slots)
  {
    var i :| 0 <= i < |slots| && slots[i] == slot;
    assert Bufs(slots)[i] == slot.buf;
    PresentHas(Bufs(slots), slot.buf);
  }

  /** clients.Client as far as it concerns sessions; a nil map is an empty one. */
  class Client {
    const clientID: u64
    var sessions: map<u64, seq<Slot>>

    constructor (id: u64)
      ensures clientID == id && sessions == map[]
    {
      clientID, sessions := id, map[];
    }

    /** BuildSession, with the key on which the search for a free one ended. */
    method BuildSession(persist: bool, cacheID: u64, pool: Pool) returns (id: seq<byte>)
      requires cacheID !in sessions
      modifies this, pool
      ensures |id| == 16 && S.ClientIDFromSessionID(id) == clientID && S.CacheIDFromSessionID(id) == cacheID
      ensures Word8(id[..8], clientID) && Word8(id[8..], cacheID)
      ensures cacheID in sessions && sessions == old(sessions)[cacheID := sessions[cacheID]]
      ensures var slots := sessions[cacheID];
              && |slots| == S.SLOTS
              && forall i :: 0 <= i < S.SLOTS ==>
                   && fresh(slots[i]) && slots[i].slotID == i && slots[i].sequenceID == 0 && !slots[i].containsData
                   && (slots[i].buf != null <==> persist)
      ensures old(pool.Clean()) ==>
                && pool.Clean()
                && forall i :: 0 <= i < S.SLOTS ==>
                     var slot := sessions[cacheID][i];
                     slot.Valid() && slot.View() == S.NewSlot(persist)
    {
      S.SessionIDUnpacks(clientID, cacheID);
      id := S.SessionID(clientID, cacheID);
      HyperBytes(clientID);
      HyperBytes(cacheID);
      assert id[..8] == U64Bytes(clientID) && id[8..] == U64Bytes(cacheID);
      hide Word8, BigEndian;
      var slots: seq<Slot> := [];
      for i := 0 to S.SLOTS
        invariant |slots| == i && cacheID !in sessions && sessions == old(sessions)
        invariant old(pool.Clean()) ==> pool.Clean()
        invariant forall k :: 0 <= k < i ==>
                    && fresh(slots[k]) && slots[k].slotID == k && slots[k].sequenceID == 0 && !slots[k].containsData
                    && (slots[k].buf != null <==> persist)
        invariant old(pool.Clean()) ==>
                    forall k :: 0 <= k < i ==> slots[k].Valid() && slots[k].View() == S.NewSlot(persist)
      {
        var slot := new Slot(i);
        if persist {
          var b := pool.Get();
          slot.buf := b;
        }
        slots := slots + [slot];
      }
      sessions := sessions[cacheID := slots];
    }

    method GetSlot(id: seq<byte>, slotID: u32) returns (slot: Slot?)
      requires |id| == 16
      ensures var key := S.CacheIDFromSessionID(id);
              slot == if key in sessions && slotID < |sessions[key]| then sessions[key][slotID] else null
    {
      var cacheID := S.CacheIDFromSessionID(id);
      if cacheID !in sessions { return null; }
      if |sessions[cacheID]| <= slotID { return null; }
      slot := sessions[cacheID][slotID];
    }

    /** The slots of a session, none if there is no such session. */
    function SlotsOf(id: seq<byte>): seq<Slot>
      requires |id| == 16
      reads this
    {
      var key := S.CacheIDFromSessionID(id);
      if key in sessions then sessions[key] else []
    }

    /** RemoveSession: that session and no other goes, and the buffers of its slots join the pool,
        empty. Whoever still uses a slot keeps its buffer as well. */
    method RemoveSession(id: seq<byte>, pool: Pool)
      requires |id| == 16
      modifies this, pool, BufferSet(SlotsOf(id))`r, BufferSet(SlotsOf(id))`w
      ensures sessions == old(sessions) - {S.CacheIDFromSessionID(id)}
      ensures pool.bufs == old(pool.bufs) + Buffers(old(SlotsOf(id)))
      ensures forall s :: s in old(SlotsOf(id)) && s.buf != null ==> s.buf.r == 0 && s.buf.w == 0
      ensures old(pool.Clean()) ==> pool.Clean()
    {
      var cacheID := S.CacheIDFromSessionID(id);
      if cacheID !in sessions {
        assert sessions - {cacheID} == sessions;
        assert pool.bufs + [] == pool.bufs;
        return;
      }
      PutAll(sessions[cacheID], pool);
      sessions := sessions - {cacheID};
    }
  }

  /** The loop over the slots of a session that goes, in RemoveSession and RemoveExpiredClients. */
  method PutAll(slots: seq<Slot>, pool: Pool)
    modifies pool, BufferSet(slots)`r, BufferSet(slots)`w
    ensures pool.bufs == old(pool.bufs) + Buffers(slots)
    ensures forall k :: 0 <= k < |slots| && slots[k].buf != null ==> slots[k].buf.r == 0 && slots[k].buf.w == 0
    ensures old(pool.Clean()) ==> pool.Clean()
  {
    ghost var bufs := Bufs(slots);
    assert bufs[..0] == [] && Present(bufs[..0]) == [];
    hide Present;
    for i := 0 to |slots|
      invariant Bufs(slots) == bufs && pool.bufs == old(pool.bufs) + Present(bufs[..i])
      invariant forall k :: 0 <= k < i && slots[k].buf != null ==> slots[k].buf.r == 0 && slots[k].buf.w == 0
      invariant old(pool.Clean()) ==> pool.Clean()
    {
      PresentNext(bufs, i);
      assert bufs[i] == slots[i].buf;
      if slots[i].buf != null { pool.Put(slots[i].buf); }
    }
    assert bufs[..|slots|] == bufs;
  }

  /** k buffers are taken from the pool. */
  method GetMany(pool: Pool, k: nat)
    requires k <= |pool.bufs|
    modifies pool
    ensures pool.bufs == old(pool.bufs)[k..]
  {
    for i := 0 to k
      invariant pool.bufs == old(pool.bufs)[i..]
    {
      var b := pool.Get();
    }
  }

  /** DESTROY_SESSION of its own session inside a SEQUENCE compound that caches its reply: the slot's
      buffer is in the pool when the reply is copied into it, and whoever gets it from the pool next
      finds the whole reply in front of what it writes. */
  method DestroyedMeanwhile(client: Client, id: seq<byte>, slot: Slot, out: Buf, pool: Pool) returns (next: Buf)
    requires |id| == 16 && slot in client.SlotsOf(id) && slot.buf != null && pool.Clean()
    requires out.Valid() && out.Content() != []
    requires forall b :: b in BufferSet(client.SlotsOf(id)) ==> b != out && b.buf != out.buf
    modifies client, pool, BufferSet(client.SlotsOf(id)), slot.buf.buf
    ensures next == slot.buf && next.Valid() && next.Content() == old(out.Content()) != []
  {
    ghost var reply := out.Content();
    var slots := client.SlotsOf(id);
    BufferOf(slots, slot);
    client.RemoveSession(id, pool);
    assert slot.buf in pool.bufs;
    pool.CacheReply(out, slot.buf);
    assert [] + reply == reply;
    var k :| 0 <= k < |pool.bufs| && pool.bufs[k] == slot.buf;
    GetMany(pool, k);
    next := pool.Get();
  }
}
