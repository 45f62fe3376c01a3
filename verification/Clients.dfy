/** clients/clients.go: the registry of clients behind SETCLIENTID, SETCLIENTID_CONFIRM,
    EXCHANGE_ID, CREATE_SESSION, RENEW, DESTROY_CLIENTID and expiry. */
module Clients {
  import opened Octets
  import opened C = Creds

  datatype Client = Client(
    name: seq<byte>, verifier: u64, creds: Creds,
    clientID: u64, lastSeen: int, confirmed: bool, confirmValue: u64, seqID: u32, busy: int)

  type Table = map<u64, Client>

  datatype Result =
    | Added(id: u64, confirmValue: u64, seqID: u32)
    | Found(id: u64)
    | NotFound
    | Removed(ids: set<u64>)
    | Counted
    | ClidInUse | StaleClientID | SeqMisordered | ClientIDBusy

  /** One call on the registry. newID and random are what the random source delivered: an id that
      is not in use, and a confirm value. */
  datatype Call =
    | Add(name: seq<byte>, verifier: u64, creds: Creds, now: int, newID: u64, random: u64)
    | Confirm(id: u64, value: u64, creds: Creds, now: int)
    | Confirm41(id: u64, seqID: u32, creds: Creds, now: int)
    | Get(id: u64, now: int)
    | GetByName(name: seq<byte>, verifier: u64, creds: Creds, now: int)
    | RemoveClient(id: u64)
    | RemoveExpired(now: int, expiration: int)
    | Count(id: u64, n: int)   // Client.Add(n), and Client.Done with n = -1, from a file that refers to the client

  // ---------------------------------------------------------------- what each call may do

  /** A confirmed client of that name belongs to somebody else. */
  ghost predicate Conflict(t: Table, name: seq<byte>, creds: Creds) {
    exists id :: id in t && t[id].confirmed && t[id].name == name && !Equal(t[id].creds, creds)
  }

  predicate SameClient(c: Client, name: seq<byte>, verifier: u64) {
    c.confirmed && c.name == name && c.verifier == verifier
  }

  function Unconfirmed(t: Table, name: seq<byte>): set<u64> {
    set id | id in t && !t[id].confirmed && t[id].name == name
  }

  function Updated(c: Client, random: u64, now: int): Client {
    c.(confirmValue := random, seqID := Truncate32(c.seqID + 1), lastSeen := now)
  }

  ghost predicate AddMay(t: Table, q: Call, t': Table, r: Result)
    requires q.Add?
  {
    if Conflict(t, q.name, q.creds) then t' == t && r == ClidInUse
    else if exists id :: id in t && SameClient(t[id], q.name, q.verifier) then
      exists id ::
        && id in t && SameClient(t[id], q.name, q.verifier)
        && t' == t[id := Updated(t[id], q.random, q.now)]
        && r == Added(id, q.random, Truncate32(t[id].seqID + 1))
    else
      && t' == (t - Unconfirmed(t, q.name))
                [q.newID := Client(q.name, q.verifier, q.creds, q.newID, q.now, false, q.random, 1, 0)]
      && r == Added(q.newID, q.random, 1)
  }

  predicate ConfirmMay(t: Table, q: Call, t': Table, r: Result)
    requires q.Confirm?
  {
    if q.id !in t || t[q.id].confirmValue != q.value then t' == t && r == StaleClientID
    else if !Equal(t[q.id].creds, q.creds) then t' == t && r == ClidInUse
    else t' == t[q.id := t[q.id].(confirmed := true, lastSeen := q.now)] && r == Found(q.id)
  }

  predicate Confirm41May(t: Table, q: Call, t': Table, r: Result)
    requires q.Confirm41?
  {
    if q.id !in t then t' == t && r == StaleClientID
    else
      var c := t[q.id];
      if c.confirmed then
        if q.seqID == 0 && c.seqID != 0 then t' == t[q.id := c.(lastSeen := q.now, seqID := 0)] && r == Found(q.id)
        else if q.seqID < c.seqID then t' == t && r == SeqMisordered
        else if c.seqID == q.seqID then t' == t && r == Found(q.id)
        else t' == t[q.id := c.(lastSeen := q.now, seqID := q.seqID)] && r == Found(q.id)
      else if c.seqID != q.seqID then t' == t && r == StaleClientID
      else if !Equal(c.creds, q.creds) then t' == t && r == ClidInUse
      else t' == t[q.id := c.(confirmed := true, lastSeen := q.now)] && r == Found(q.id)
  }

  ghost predicate GetByNameMay(t: Table, q: Call, t': Table, r: Result)
    requires q.GetByName?
  {
    if exists id :: id in t && SameClient(t[id], q.name, q.verifier) && Equal(t[id].creds, q.creds) then
      exists id ::
        && id in t && SameClient(t[id], q.name, q.verifier) && Equal(t[id].creds, q.creds)
        && t' == t[id := t[id].(lastSeen := q.now)] && r == Found(id)
    else t' == t && r == NotFound
  }

  function Expired(t: Table, now: int, expiration: int): set<u64> {
    set id | id in t && now - t[id].lastSeen > expiration && t[id].busy <= 0
  }

  /** The effect and the answer that call q may have, whatever order the maps are ranged over. */
  ghost predicate May(t: Table, q: Call, t': Table, r: Result) {
    match q
    case Add(_, _, _, _, newID, _) => newID !in t && AddMay(t, q, t', r)
    case Confirm(_, _, _, _) => ConfirmMay(t, q, t', r)
    case Confirm41(_, _, _, _) => Confirm41May(t, q, t', r)
    case Get(id, now) =>
      if id in t && t[id].confirmed then t' == t[id := t[id].(lastSeen := now)] && r == Found(id)
      else t' == t && r == NotFound
    case GetByName(_, _, _, _) => GetByNameMay(t, q, t', r)
    case RemoveClient(id) =>
      if id !in t || !t[id].confirmed then t' == t && r == StaleClientID
      else if t[id].busy > 0 then t' == t && r == ClientIDBusy
      else t' == t - {id} && r == Removed({id})
    case RemoveExpired(now, expiration) =>
      t' == t - Expired(t, now, expiration) && r == Removed(Expired(t, now, expiration))
    case Count(id, n) =>
      r == Counted && t' == if id in t then t[id := t[id].(busy := t[id].busy + n)] else t
  }

  // ---------------------------------------------------------------- the object

  class Clients {
    var clients: Table

    constructor ()
      ensures clients == map[]
    {
      clients := map[];
    }

    /** Add: three loops, over the table, over the confirmed clients of the name, over the table. */
    method AddClient(name: seq<byte>, verifier: u64, creds: Creds, now: int, newID: u64, random: u64)
      returns (r: Result)
      requires newID !in clients
      modifies this
      ensures May(old(clients), Add(name, verifier, creds, now, newID, random), clients, r)
    {
      hide Equal;
      var conflict, prev := Previous(name, creds);
      if conflict { return ClidInUse; }
      var found, id := FindVerifier(prev, verifier);
      if found {
        assert SameClient(clients[id], name, verifier);
        r := Added(id, random, Truncate32(clients[id].seqID + 1));
        clients := clients[id := Updated(clients[id], random, now)];
      } else {
        assert forall i :: i in clients ==> !SameClient(clients[i], name, verifier);
        DropUnconfirmed(name);
        clients := clients[newID := Client(name, verifier, creds, newID, now, false, random, 1, 0)];
        r := Added(newID, random, 1);
      }
    }

    method Previous(name: seq<byte>, creds: Creds) returns (conflict: bool, prev: set<u64>)
      ensures conflict <==> Conflict(clients, name, creds)
      ensures !conflict ==> prev == set id | id in clients && clients[id].confirmed && clients[id].name == name
    {
      hide Equal;
      prev := {};
      var todo := clients.Keys;
      while todo != {}
        invariant todo <= clients.Keys
        invariant prev == set id | id in clients.Keys - todo && clients[id].confirmed && clients[id].name == name
        invariant forall id :: id in prev ==> Equal(clients[id].creds, creds)
        decreases |todo|
      {
        var id :| id in todo;
        todo := todo - {id};
        var stored := clients[id];
        if !stored.confirmed || stored.name != name { continue; }
        if !Equal(stored.creds, creds) { return true, prev; }
        prev := prev + {id};
      }
      conflict := false;
      assert forall id :: id in clients && clients[id].confirmed && clients[id].name == name ==> id in prev;
    }

    method FindVerifier(prev: set<u64>, verifier: u64) returns (found: bool, id: u64)
      requires prev <= clients.Keys && forall i :: i in prev ==> clients[i].confirmed
      ensures found ==> id in prev && clients[id].verifier == verifier
      ensures !found ==> forall i :: i in prev ==> clients[i].verifier != verifier
    {
      var todo := prev;
      while todo != {}
        invariant todo <= prev
        invariant forall i :: i in prev - todo ==> clients[i].verifier != verifier
        decreases |todo|
      {
        id :| id in todo;
        todo := todo - {id};
        if clients[id].verifier != verifier || !clients[id].confirmed { continue; }
        return true, id;
      }
      return false, 0;
    }

    method DropUnconfirmed(name: seq<byte>)
      modifies this
      ensures clients == old(clients) - Unconfirmed(old(clients), name)
    {
      ghost var gone := Unconfirmed(clients, name);
      var todo := clients.Keys;
      while todo != {}
        invariant todo <= clients.Keys && clients.Keys == old(clients).Keys - (gone - todo)
        invariant forall id :: id in clients ==> clients[id] == old(clients)[id]
        decreases |todo|
      {
        var id :| id in todo;
        todo := todo - {id};
        if clients[id].confirmed || clients[id].name != name { continue; }
        assert id in gone;
        clients := clients - {id};
      }
    }

    method ConfirmClient(id: u64, value: u64, creds: Creds, now: int) returns (r: Result)
      modifies this
      ensures May(old(clients), Confirm(id, value, creds, now), clients, r)
    {
      if id !in clients || clients[id].confirmValue != value { return StaleClientID; }
      if !Equal(clients[id].creds, creds) { return ClidInUse; }
      clients := clients[id := clients[id].(confirmed := true, lastSeen := now)];
      r := Found(id);
    }

    method ConfirmSession(id: u64, seqID: u32, creds: Creds, now: int) returns (r: Result)
      modifies this
      ensures May(old(clients), Confirm41(id, seqID, creds, now), clients, r)
    {
      if id !in clients { return StaleClientID; }
      var client := clients[id];
      if client.confirmed {
        if seqID == 0 && client.seqID != 0 {
          clients := clients[id := client.(lastSeen := now, seqID := 0)];
          return Found(id);
        }
        if seqID < client.seqID { return SeqMisordered; }
        if client.seqID == seqID { return Found(id); }
        clients := clients[id := client.(lastSeen := now, seqID := seqID)];
        return Found(id);
      }
      if client.seqID != seqID { return StaleClientID; }
      if !Equal(client.creds, creds) { return ClidInUse; }
      clients := clients[id := client.(confirmed := true, lastSeen := now)];
      r := Found(id);
    }

    method GetClient(id: u64, now: int) returns (r: Result)
      modifies this
      ensures May(old(clients), Get(id, now), clients, r)
    {
      if id !in clients || !clients[id].confirmed { return NotFound; }
      clients := clients[id := clients[id].(lastSeen := now)];
      r := Found(id);
    }

    method DestroyClient(id: u64) returns (r: Result)
      modifies this
      ensures May(old(clients), RemoveClient(id), clients, r)
    {
      if id !in clients || !clients[id].confirmed { return StaleClientID; }
      if clients[id].busy > 0 { return ClientIDBusy; }
      clients := clients - {id};
      r := Removed({id});
    }

    /** Add and Done of clients/client.go, under the registry's lock. */
    method AddBusy(id: u64, n: int)
      modifies this
      ensures May(old(clients), Count(id, n), clients, Counted)
    {
      if id in clients { clients := clients[id := clients[id].(busy := clients[id].busy + n)]; }
    }

    method GetClientByName(name: seq<byte>, verifier: u64, creds: Creds, now: int) returns (r: Result)
      modifies this
      ensures May(old(clients), GetByName(name, verifier, creds, now), clients, r)
    {
      var todo := clients.Keys;
      while todo != {}
        invariant todo <= clients.Keys && clients == old(clients)
        invariant forall id :: id in clients.Keys - todo ==>
                    !(SameClient(clients[id], name, verifier) && Equal(clients[id].creds, creds))
        decreases |todo|
      {
        var id :| id in todo;
        todo := todo - {id};
        var c := clients[id];
        if c.name != name || c.verifier != verifier || !Equal(c.creds, creds) || !c.confirmed { continue; }
        clients := clients[id := c.(lastSeen := now)];
        assert SameClient(old(clients)[id], name, verifier);
        return Found(id);
      }
      r := NotFound;
    }

    method RemoveExpiredClients(now: int, expiration: int) returns (r: Result)
      modifies this
      ensures May(old(clients), RemoveExpired(now, expiration), clients, r)
    {
      hide AddMay, ConfirmMay, Confirm41May, GetByNameMay, Equal;
      ghost var gone := Expired(clients, now, expiration);
      var removed: set<u64> := {};
      var todo := clients.Keys;
      while todo != {}
        invariant todo <= clients.Keys && clients.Keys == old(clients).Keys - removed
        invariant removed <= gone && forall id :: id in gone ==> id in removed || id in todo
        invariant forall id :: id in clients ==> clients[id] == old(clients)[id]
        decreases |todo|
      {
        var id :| id in todo;
        todo := todo - {id};
        if now - clients[id].lastSeen <= expiration || clients[id].busy > 0 { continue; }
        assert id in gone;
        clients := clients - {id};
        removed := removed + {id};
      }
      assert removed == gone;
      r := Removed(removed);
    }
  }
}
