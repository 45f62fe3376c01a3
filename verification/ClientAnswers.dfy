/** What the client registry answers, over every run: who confirms a client, what renews it, and what
    takes it away. */
module ClientAnswers {
  import opened Octets
  import opened C = Creds
  import opened R = Clients
  import opened L = ClientLaws

  // ---------------------------------------------------------------- adding

  /** SETCLIENTID and EXCHANGE_ID: refused exactly if a confirmed client of the name has other
      credentials, and then without effect. A confirmed client with the same verifier keeps its id and
      gets the next sequence number and a new confirm value; otherwise there is a new, unconfirmed
      client with sequence number 1, and it is the only unconfirmed one of its name. */
  lemma AddAnswers(t: Table, q: Call, t': Table, r: Result)
    requires Valid(t) && q.Add? && May(t, q, t', r)
    ensures r == ClidInUse <==>
            exists i :: i in t && t[i].confirmed && t[i].name == q.name && !Equal(t[i].creds, q.creds)
    ensures r == ClidInUse ==> t' == t
    ensures r != ClidInUse ==> r.Added? && r.id in t' && t'[r.id].confirmValue == q.random == r.confirmValue
    ensures r.Added? && r.id in t ==>
              && t[r.id].confirmed && t[r.id].name == q.name && t[r.id].verifier == q.verifier
              && r.seqID == t'[r.id].seqID == (if t[r.id].seqID == 0xffff_ffff then 0 else t[r.id].seqID + 1)
              && t'.Keys == t.Keys
    ensures r.Added? && r.id !in t ==>
              && r.seqID == t'[r.id].seqID == 1 && !t'[r.id].confirmed && t'[r.id].name == q.name
              && (forall i :: i in t ==> !(t[i].confirmed && t[i].name == q.name && t[i].verifier == q.verifier))
              && (forall i :: i in t' && t'[i].name == q.name && !t'[i].confirmed ==> i == r.id)
              && (forall i :: i in t && (t[i].confirmed || t[i].name != q.name) ==> i in t' && t'[i] == t[i])
  {
    hide Equal;
    if !Conflict(t, q.name, q.creds) {
      if exists i :: i in t && SameClient(t[i], q.name, q.verifier) {
        var i :| i in t && SameClient(t[i], q.name, q.verifier) && t' == t[i := Updated(t[i], q.random, q.now)]
                 && r == Added(i, q.random, Truncate32(t[i].seqID + 1));
      } else {
        assert forall i :: i in t ==> !SameClient(t[i], q.name, q.verifier);
      }
    }
  }

  // ---------------------------------------------------------------- confirming

  /** The call names this record and knows what Add answered for it. */
  predicate Knows(q: Call, id: u64, c: Client) {
    || (q.Confirm? && q.id == id && q.value == c.confirmValue)
    || (q.Confirm41? && q.id == id && q.seqID == c.seqID)
  }

  lemma ConfirmsStep(t: Table, q: Call, t': Table, r: Result, id: u64)
    requires Valid(t) && May(t, q, t', r) && id in t && !t[id].confirmed
    ensures (id in t' && t'[id].confirmed) <==> Knows(q, id, t[id]) && Equal(t[id].creds, q.creds)
    ensures Knows(q, id, t[id]) && !Equal(t[id].creds, q.creds) ==> r == ClidInUse && t' == t
    ensures (q.Confirm? || q.Confirm41?) && q.id == id && !Knows(q, id, t[id]) ==> r == StaleClientID && t' == t
  {
    hide Equal;
    if q.Add? { AddConfirmsNone(t, q, t', r, id); }
    if q.GetByName? && t' != t {
      var i :| i in t && SameClient(t[i], q.name, q.verifier) && t' == t[i := t[i].(lastSeen := q.now)];
    }
  }

  lemma AddConfirmsNone(t: Table, q: Call, t': Table, r: Result, id: u64)
    requires q.Add? && q.newID !in t && AddMay(t, q, t', r) && id in t && !t[id].confirmed
    ensures id in t' ==> !t'[id].confirmed
  {
    hide Equal;
  }

  /** In every run an unconfirmed record becomes confirmed exactly by a call that knows the confirm
      value or the sequence id and comes with Equal credentials. With other credentials the same call
      is answered CLID_INUSE, and without the knowledge STALE_CLIENTID, and nothing changes. */
  lemma ConfirmedExactlyIf(ts: seq<Table>, qs: seq<Call>, rs: seq<Result>, k: nat, id: u64)
    requires Run(ts, qs, rs) && k < |qs| && id in ts[k] && !ts[k][id].confirmed
    ensures var q, c := qs[k], ts[k][id];
            && ((id in ts[k + 1] && ts[k + 1][id].confirmed) <==> Knows(q, id, c) && Equal(c.creds, q.creds))
            && (Knows(q, id, c) && !Equal(c.creds, q.creds) ==> rs[k] == ClidInUse && ts[k + 1] == ts[k])
            && ((q.Confirm? || q.Confirm41?) && q.id == id && !Knows(q, id, c) ==>
                  rs[k] == StaleClientID && ts[k + 1] == ts[k])
  {
    hide May, Equal, Knows;
    RunValid(ts, qs, rs, k);
    ConfirmsStep(ts[k], qs[k], ts[k + 1], rs[k], id);
  }

  /** SETCLIENTID_CONFIRM of a record that is confirmed already asks the same of its caller. */
  lemma ConfirmAgain(t: Table, q: Call, t': Table, r: Result)
    requires May(t, q, t', r) && q.Confirm? && q.id in t && t[q.id].confirmed
    ensures r == Found(q.id) <==> q.value == t[q.id].confirmValue && Equal(t[q.id].creds, q.creds)
    ensures r != Found(q.id) ==> t' == t && r == if q.value == t[q.id].confirmValue then ClidInUse else StaleClientID
  {
    hide Equal;
  }

  /** CREATE_SESSION for a confirmed client: it is misordered exactly if its sequence id is below the
      client's and not zero, and changes nothing then; otherwise the client stands at it. */
  lemma SessionSequence(t: Table, q: Call, t': Table, r: Result)
    requires May(t, q, t', r) && q.Confirm41? && q.id in t && t[q.id].confirmed
    ensures r == SeqMisordered <==> 0 < q.seqID < t[q.id].seqID
    ensures r == SeqMisordered ==> t' == t
    ensures r != SeqMisordered ==> r == Found(q.id) && q.id in t' && t'[q.id].seqID == q.seqID
  {
  }

  // ---------------------------------------------------------------- renewing and expiry

  /** The time at which a call is made, if it looks at the clock. */
  function Time(q: Call): Option<int> {
    match q
    case Add(_, _, _, now, _, _) => Some(now)
    case Confirm(_, _, _, now) => Some(now)
    case Confirm41(_, _, _, now) => Some(now)
    case Get(_, now) => Some(now)
    case GetByName(_, _, _, now) => Some(now)
    case RemoveExpired(now, _) => Some(now)
    case _ => None
  }

  ghost predicate InTime(qs: seq<Call>) {
    forall j, k :: 0 <= j < k < |qs| && Time(qs[j]).Some? && Time(qs[k]).Some? ==>
      Time(qs[j]).value <= Time(qs[k]).value
  }

  /** RENEW and EXCHANGE_ID that found the client, its confirmation, and Add that answered it. */
  predicate Renews(q: Call, r: Result, id: u64) {
    || ((q.Get? || q.GetByName? || q.Confirm?) && r == Found(id))
    || (q.Add? && r.Added? && r.id == id)
  }

  lemma RenewsNow(t: Table, q: Call, t': Table, r: Result, id: u64)
    requires May(t, q, t', r) && Renews(q, r, id)
    ensures id in t' && Time(q).Some? && t'[id].lastSeen == Time(q).value
  {
    hide Equal;
  }

  /** A record's time changes only to that of the call. */
  lemma TimeOnlyOnward(t: Table, q: Call, t': Table, r: Result, id: u64)
    requires May(t, q, t', r) && id in t'
    ensures (id in t && t'[id].lastSeen == t[id].lastSeen) || (Time(q).Some? && t'[id].lastSeen == Time(q).value)
  {
    hide Equal;
    if q.Add? { AddTime(t, q, t', r, id); }
    if q.GetByName? && t' != t {
      var i :| i in t && t' == t[i := t[i].(lastSeen := q.now)];
    }
  }

  lemma AddTime(t: Table, q: Call, t': Table, r: Result, id: u64)
    requires q.Add? && q.newID !in t && AddMay(t, q, t', r) && id in t'
    ensures (id in t && t'[id].lastSeen == t[id].lastSeen) || t'[id].lastSeen == q.now
  {
    hide Equal;
  }

  lemma {:induction false} SeenSince(ts: seq<Table>, qs: seq<Call>, rs: seq<Result>, j: nat, k: nat, id: u64)
    requires Run(ts, qs, rs) && InTime(qs) && j < k < |ts| && Renews(qs[j], rs[j], id)
    ensures Time(qs[j]).Some? && (id in ts[k] ==> ts[k][id].lastSeen >= Time(qs[j]).value)
    decreases k
  {
    hide May, Renews;
    RenewsNow(ts[j], qs[j], ts[j + 1], rs[j], id);
    if j + 1 < k {
      SeenSince(ts, qs, rs, j, k - 1, id);
      if id in ts[k] { TimeOnlyOnward(ts[k - 1], qs[k - 1], ts[k], rs[k - 1], id); }
    }
  }

  /** In every run in which the clock does not run backwards, expiry does not take away a client that
      was renewed within the expiration. */
  lemma RenewedStays(ts: seq<Table>, qs: seq<Call>, rs: seq<Result>, j: nat, k: nat, id: u64)
    requires Run(ts, qs, rs) && InTime(qs) && j < k < |qs| && Renews(qs[j], rs[j], id)
    requires qs[k].RemoveExpired? && id in ts[k]
    requires Time(qs[j]).Some? && qs[k].now - Time(qs[j]).value <= qs[k].expiration
    ensures id in ts[k + 1] && ts[k + 1][id] == ts[k][id]
  {
    SeenSince(ts, qs, rs, j, k, id);
    assert May(ts[k], qs[k], ts[k + 1], rs[k]);
  }

  /** Whatever takes a client out of the table: DESTROY_CLIENTID of a confirmed one, expiry, or a new
      client of its name while it was unconfirmed; the first two exactly if it is not busy. */
  lemma LeavesExactlyIf(t: Table, q: Call, t': Table, r: Result, id: u64)
    requires May(t, q, t', r) && id in t
    ensures q.RemoveClient? && q.id == id && t[id].confirmed ==>
              (id !in t' <==> t[id].busy <= 0) && (r == ClientIDBusy <==> t[id].busy > 0)
    ensures q.RemoveExpired? ==> (id !in t' <==> t[id].busy <= 0 && q.now - t[id].lastSeen > q.expiration)
    ensures id !in t' ==>
              || (q.RemoveClient? && q.id == id && t[id].confirmed)
              || q.RemoveExpired?
              || (q.Add? && q.name == t[id].name && !t[id].confirmed && r.Added? && r.id != id)
  {
    hide Equal;
  }

  /** Nobody is found who is not confirmed. */
  lemma FoundIsConfirmed(t: Table, q: Call, t': Table, r: Result)
    requires May(t, q, t', r) && (q.Get? || q.GetByName?) && r.Found?
    ensures r.id in t && t[r.id].confirmed
    ensures q.GetByName? ==>
              t[r.id].name == q.name && t[r.id].verifier == q.verifier && Equal(t[r.id].creds, q.creds)
  {
    hide Equal;
  }
}
