/** What every run of the client registry keeps, and what follows from it. */
module ClientLaws {
  import opened Octets
  import opened C = Creds
  import opened R = Clients

  /** Two records of one name belong to Equal credentials, share their verifier only if they are
      the same record, and are not both unconfirmed. */
  ghost predicate Valid(t: Table) {
    && (forall id :: id in t ==> t[id].clientID == id)
    && (forall i, j :: i in t && j in t && i != j && t[i].name == t[j].name ==>
          && t[i].verifier != t[j].verifier
          && (t[i].confirmed || t[j].confirmed)
          && Equal(t[i].creds, t[j].creds))
  }

  /** c can replace stored in place: same identity, and confirmed for good. */
  predicate Succeeds(c: Client, stored: Client) {
    && c.name == stored.name && c.verifier == stored.verifier && c.creds == stored.creds
    && c.clientID == stored.clientID && (stored.confirmed ==> c.confirmed)
  }

  lemma UpdateKeeps(t: Table, id: u64, c: Client)
    requires Valid(t) && id in t && Succeeds(c, t[id])
    ensures Valid(t[id := c])
  {
    hide Equal;
  }

  lemma RemovalKeeps(t: Table, gone: set<u64>)
    requires Valid(t)
    ensures Valid(t - gone)
  {
    hide Equal;
  }

  lemma NewKeeps(t: Table, id: u64, c: Client)
    requires Valid(t) && c.clientID == id && id !in t
    requires forall i :: i in t && t[i].name == c.name ==>
               t[i].verifier != c.verifier && t[i].confirmed && Equal(t[i].creds, c.creds)
    ensures Valid(t[id := c])
  {
    forall i | i in t && t[i].name == c.name ensures Equal(c.creds, t[i].creds) { EqualSymmetric(c.creds, t[i].creds); }
    NewKeepsPairs(t, id, c);
  }

  lemma NewKeepsPairs(t: Table, id: u64, c: Client)
    requires Valid(t) && c.clientID == id && id !in t
    requires forall i :: i in t && t[i].name == c.name ==>
               && t[i].verifier != c.verifier && t[i].confirmed
               && Equal(t[i].creds, c.creds) && Equal(c.creds, t[i].creds)
    ensures Valid(t[id := c])
  {
    hide Equal;
  }

  /** Every call keeps the table valid: pairwise Equal although Equal is not transitive, because a
      new record is compared with every confirmed one of its name and displaces the others. */
  lemma MayKeeps(t: Table, q: Call, t': Table, r: Result)
    requires Valid(t) && May(t, q, t', r)
    ensures Valid(t')
  {
    hide Equal, Valid;
    match q
    case Add(name, verifier, creds, now, newID, random) => AddKeeps(t, q, t', r);
    case GetByName(name, verifier, creds, now) =>
      if t' != t {
        var id :| id in t && t' == t[id := t[id].(lastSeen := now)];
        UpdateKeeps(t, id, t[id].(lastSeen := now));
      }
    case RemoveClient(id) => RemovalKeeps(t, {id});
    case RemoveExpired(now, expiration) => RemovalKeeps(t, Expired(t, now, expiration));
    case Confirm(id, _, _, _) => if id in t { UpdateKeeps(t, id, t'[id]); }
    case Confirm41(id, _, _, _) => if id in t { UpdateKeeps(t, id, t'[id]); }
    case Get(id, _) => if id in t { UpdateKeeps(t, id, t'[id]); }
    case Count(id, n) => if id in t { UpdateKeeps(t, id, t'[id]); }
  }

  lemma AddKeeps(t: Table, q: Call, t': Table, r: Result)
    requires Valid(t) && q.Add? && q.newID !in t && AddMay(t, q, t', r)
    ensures Valid(t')
  {
    hide Equal, Valid;
    if Conflict(t, q.name, q.creds) {
    } else if exists id :: id in t && SameClient(t[id], q.name, q.verifier) {
      var id :| id in t && SameClient(t[id], q.name, q.verifier) && t' == t[id := Updated(t[id], q.random, q.now)];
      UpdateKeeps(t, id, Updated(t[id], q.random, q.now));
    } else {
      RemovalKeeps(t, Unconfirmed(t, q.name));
      NewKeeps(t - Unconfirmed(t, q.name), q.newID, t'[q.newID]);
    }
  }

  ghost predicate Run(ts: seq<Table>, qs: seq<Call>, rs: seq<Result>) {
    && |ts| == |qs| + 1 && |rs| == |qs| && ts[0] == map[]
    && forall k :: 0 <= k < |qs| ==> May(ts[k], qs[k], ts[k + 1], rs[k])
  }

  lemma {:induction false} RunValid(ts: seq<Table>, qs: seq<Call>, rs: seq<Result>, k: nat)
    requires Run(ts, qs, rs) && k < |ts|
    ensures Valid(ts[k])
  {
    hide May;
    if k > 0 {
      RunValid(ts, qs, rs, k - 1);
      MayKeeps(ts[k - 1], qs[k - 1], ts[k], rs[k - 1]);
    }
  }

  lemma OnlyOne(t: Table, i: u64, j: u64, name: seq<byte>, verifier: u64)
    requires Valid(t) && i in t && j in t && SameClient(t[i], name, verifier) && SameClient(t[j], name, verifier)
    ensures i == j
  {
  }

  lemma AddOneWay(t: Table, q: Call, t1: Table, r1: Result, t2: Table, r2: Result)
    requires Valid(t) && q.Add? && AddMay(t, q, t1, r1) && AddMay(t, q, t2, r2)
    ensures t1 == t2 && r1 == r2
  {
    hide Valid;
    if !Conflict(t, q.name, q.creds) && exists id :: id in t && SameClient(t[id], q.name, q.verifier) {
      var i :| i in t && SameClient(t[i], q.name, q.verifier) && t1 == t[i := Updated(t[i], q.random, q.now)] &&
               r1 == Added(i, q.random, Truncate32(t[i].seqID + 1));
      var j :| j in t && SameClient(t[j], q.name, q.verifier) && t2 == t[j := Updated(t[j], q.random, q.now)] &&
               r2 == Added(j, q.random, Truncate32(t[j].seqID + 1));
      OnlyOne(t, i, j, q.name, q.verifier);
    }
  }

  lemma GetByNameOneWay(t: Table, q: Call, t1: Table, r1: Result, t2: Table, r2: Result)
    requires Valid(t) && q.GetByName? && GetByNameMay(t, q, t1, r1) && GetByNameMay(t, q, t2, r2)
    ensures t1 == t2 && r1 == r2
  {
    hide Valid, Equal;
    if exists id :: id in t && SameClient(t[id], q.name, q.verifier) && Equal(t[id].creds, q.creds) {
      var i :| i in t && SameClient(t[i], q.name, q.verifier) &&
               t1 == t[i := t[i].(lastSeen := q.now)] && r1 == Found(i);
      var j :| j in t && SameClient(t[j], q.name, q.verifier) &&
               t2 == t[j := t[j].(lastSeen := q.now)] && r2 == Found(j);
      OnlyOne(t, i, j, q.name, q.verifier);
    }
  }

  /** In a valid table every call has one effect and one answer: no range over a map shows. */
  lemma OrderDoesNotShow(t: Table, q: Call, t1: Table, r1: Result, t2: Table, r2: Result)
    requires Valid(t) && May(t, q, t1, r1) && May(t, q, t2, r2)
    ensures t1 == t2 && r1 == r2
  {
    hide Equal, Valid, AddMay, GetByNameMay;
    if q.Add? { AddOneWay(t, q, t1, r1, t2, r2); }
    if q.GetByName? { GetByNameOneWay(t, q, t1, r1, t2, r2); }
  }

  /** The calls that may come between Add and Confirm of client id: no Add for its name, which would
      give it a new confirm value or displace it, and no removal that takes it away. */
  predicate Harmless(t: Table, q: Call, id: u64) {
    match q
    case Add(name, _, _, _, _, _) => id in t && name != t[id].name
    case RemoveClient(i) => i != id || (id in t && (!t[id].confirmed || t[id].busy > 0))
    case RemoveExpired(now, expiration) => id !in Expired(t, now, expiration)
    case _ => true
  }

  /** Name, verifier, credentials and confirm value are what they were. */
  predicate Waits(t: Table, id: u64, c: Client) {
    && id in t && t[id].name == c.name && t[id].verifier == c.verifier
    && t[id].creds == c.creds && t[id].confirmValue == c.confirmValue
  }

  lemma HarmlessWaits(t: Table, q: Call, t': Table, r: Result, id: u64, c: Client)
    requires Waits(t, id, c) && May(t, q, t', r) && Harmless(t, q, id)
    ensures Waits(t', id, c)
  {
    hide Equal;
    if q.Add? { AddWaits(t, q, t', r, id, c); }
    if q.GetByName? && t' != t {
      var i :| i in t && t' == t[i := t[i].(lastSeen := q.now)];
    }
  }

  lemma AddWaits(t: Table, q: Call, t': Table, r: Result, id: u64, c: Client)
    requires q.Add? && Waits(t, id, c) && q.newID !in t && AddMay(t, q, t', r) && q.name != t[id].name
    ensures Waits(t', id, c)
  {
    hide Equal;
  }

  /** A run of calls from table t on, none of which harms client id. */
  ghost predicate HarmlessRun(t: Table, ts: seq<Table>, qs: seq<Call>, rs: seq<Result>, id: u64) {
    && |ts| == |qs| + 1 && |rs| == |qs| && ts[0] == t
    && forall k :: 0 <= k < |qs| ==> May(ts[k], qs[k], ts[k + 1], rs[k]) && Harmless(ts[k], qs[k], id)
  }

  lemma {:induction false} StillWaits(t: Table, ts: seq<Table>, qs: seq<Call>, rs: seq<Result>, id: u64, k: nat)
    requires Valid(t) && id in t && HarmlessRun(t, ts, qs, rs, id) && k < |ts|
    ensures Valid(ts[k]) && Waits(ts[k], id, t[id])
  {
    hide May, Harmless, Valid, Waits;
    if k == 0 {
      WaitsAtFirst(t, id);
    } else {
      StillWaits(t, ts, qs, rs, id, k - 1);
      MayKeeps(ts[k - 1], qs[k - 1], ts[k], rs[k - 1]);
      HarmlessWaits(ts[k - 1], qs[k - 1], ts[k], rs[k - 1], id, t[id]);
    }
  }

  lemma WaitsAtFirst(t: Table, id: u64)
    requires id in t
    ensures Waits(t, id, t[id])
  {
  }

  /** The two-step handshake of SETCLIENTID: in every reachable table, and after any harmless calls in
      between, confirming what Add answered succeeds, and from then on RENEW and EXCHANGE_ID find
      exactly that client. */
  lemma Handshake(t: Table, q: Call, t1: Table, id: u64, value: u64, seqID: u32,
                  ts: seq<Table>, qs: seq<Call>, rs: seq<Result>, now: int, t2: Table, r2: Result)
    requires Valid(t) && q.Add? && May(t, q, t1, Added(id, value, seqID))
    requires HarmlessRun(t1, ts, qs, rs, id)
    requires May(ts[|qs|], Confirm(id, value, q.creds, now), t2, r2)
    ensures r2 == Found(id) && Valid(t2)
    ensures forall t3, r3, later :: May(t2, Get(id, later), t3, r3) ==> r3 == Found(id)
    ensures forall t3, r3, later :: May(t2, GetByName(q.name, q.verifier, q.creds, later), t3, r3) ==> r3 == Found(id)
  {
    EqualReflexive(q.creds);
    MayKeeps(t, q, t1, Added(id, value, seqID));
    AddedIsThere(t, q, t1, id, value, seqID);
    StillWaits(t1, ts, qs, rs, id, |qs|);
    MayKeeps(ts[|qs|], Confirm(id, value, q.creds, now), t2, r2);
    hide Equal, Valid, HarmlessRun;
    assert SameClient(t2[id], q.name, q.verifier) && Equal(t2[id].creds, q.creds);
    forall t3, r3, later | May(t2, GetByName(q.name, q.verifier, q.creds, later), t3, r3) ensures r3 == Found(id) {
      FoundByName(t2, id, GetByName(q.name, q.verifier, q.creds, later), t3, r3);
    }
  }

  /** The calls that may come between Add and CREATE_SESSION of client id: harmless ones, and of its
      CREATE_SESSIONs those with the sequence id that it stands at. */
  predicate HarmlessToSession(t: Table, q: Call, id: u64) {
    Harmless(t, q, id) && (q.Confirm41? && q.id == id && id in t ==> q.seqID == t[id].seqID)
  }

  lemma SequenceWaits(t: Table, q: Call, t': Table, r: Result, id: u64)
    requires Valid(t) && id in t && May(t, q, t', r) && HarmlessToSession(t, q, id) && id in t'
    ensures t'[id].seqID == t[id].seqID && (t[id].confirmed ==> t'[id].confirmed)
  {
    hide Equal;
    if q.Add? && t' != t && exists i :: i in t && SameClient(t[i], q.name, q.verifier) {
      var i :| i in t && SameClient(t[i], q.name, q.verifier) && t' == t[i := Updated(t[i], q.random, q.now)];
    }
    if q.GetByName? && t' != t {
      var i :| i in t && t' == t[i := t[i].(lastSeen := q.now)];
    }
  }

  ghost predicate SessionRun(t: Table, ts: seq<Table>, qs: seq<Call>, rs: seq<Result>, id: u64) {
    && HarmlessRun(t, ts, qs, rs, id)
    && forall k :: 0 <= k < |qs| ==> HarmlessToSession(ts[k], qs[k], id)
  }

  lemma {:induction false} StillInSequence(t: Table, ts: seq<Table>, qs: seq<Call>, rs: seq<Result>, id: u64, k: nat)
    requires Valid(t) && id in t && SessionRun(t, ts, qs, rs, id) && k < |ts|
    ensures Valid(ts[k]) && Waits(ts[k], id, t[id])
    ensures ts[k][id].seqID == t[id].seqID && (t[id].confirmed ==> ts[k][id].confirmed)
  {
    hide May, HarmlessToSession, Harmless, Valid;
    StillWaits(t, ts, qs, rs, id, k);
    if k > 0 {
      StillInSequence(t, ts, qs, rs, id, k - 1);
      SequenceWaits(ts[k - 1], qs[k - 1], ts[k], rs[k - 1], id);
    }
  }

  /** The two steps of EXCHANGE_ID and CREATE_SESSION: after any harmless calls in between, the sequence id
      that Add answered confirms the client, new or known; and repeating it, after any harmless calls
      again, finds the client and changes nothing. */
  lemma SessionHandshake(t: Table, q: Call, t1: Table, id: u64, value: u64, seqID: u32,
                         ts: seq<Table>, qs: seq<Call>, rs: seq<Result>, now: int, t2: Table, r2: Result,
                         us: seq<Table>, ps: seq<Call>, os: seq<Result>, later: int, t3: Table, r3: Result)
    requires Valid(t) && q.Add? && May(t, q, t1, Added(id, value, seqID))
    requires SessionRun(t1, ts, qs, rs, id) && May(ts[|qs|], Confirm41(id, seqID, q.creds, now), t2, r2)
    requires SessionRun(t2, us, ps, os, id) && May(us[|ps|], Confirm41(id, seqID, q.creds, later), t3, r3)
    ensures r2 == Found(id) && id in t2 && t2[id].confirmed && Valid(t2)
    ensures r3 == Found(id) && t3 == us[|ps|]
  {
    EqualReflexive(q.creds);
    AddedIsThere(t, q, t1, id, value, seqID);
    MayKeeps(t, q, t1, Added(id, value, seqID));
    StillInSequence(t1, ts, qs, rs, id, |qs|);
    MayKeeps(ts[|qs|], Confirm41(id, seqID, q.creds, now), t2, r2);
    hide Equal, Valid, SessionRun;
    assert t2[id].confirmed && t2[id].seqID == seqID;
    StillInSequence(t2, us, ps, os, id, |ps|);
  }

  lemma AddedIsThere(t: Table, q: Call, t1: Table, id: u64, value: u64, seqID: u32)
    requires q.Add? && May(t, q, t1, Added(id, value, seqID)) && Equal(q.creds, q.creds)
    ensures id in t1 && t1[id].name == q.name && t1[id].verifier == q.verifier
    ensures t1[id].confirmValue == value && t1[id].seqID == seqID && Equal(t1[id].creds, q.creds)
  {
    hide Equal;
  }

  lemma FoundByName(t: Table, id: u64, q: Call, t': Table, r: Result)
    requires Valid(t) && id in t && q.GetByName? && May(t, q, t', r)
    requires SameClient(t[id], q.name, q.verifier) && Equal(t[id].creds, q.creds)
    ensures r == Found(id)
  {
    hide Equal;
    var i :| i in t && SameClient(t[i], q.name, q.verifier) && r == Found(i);
    assert i == id;
  }
}
