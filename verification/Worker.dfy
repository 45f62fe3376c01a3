/** worker/: one Worker object, its lock regions as methods on the object and as functions on the
    state that the lock protects. */
module Worker {
  import opened Octets

  /** obj is the identity of the open vfs file, client that of the *clients.Client. */
  datatype File = File(obj: nat, client: nat, clientSeqID: u32)
  datatype Lister = Lister(obj: nat, lastSeen: int)

  const EOF_LISTER: u64 := 0xffff_ffff_ffff_ffff
  const IDLE_TIMEOUT := 300
  const LISTER_EXPIRATION := 60

  /** The fields under the worker's lock; cleanups counts the cleanup goroutines started. */
  datatype Tables = Tables(
    inUse: int,
    discarded: bool,
    lastUse: int,
    listers: map<u64, Lister>,
    files: map<u64, File>,
    closedFiles: set<u64>,
    cleanups: nat)
  {
    function Use(now: int): Tables {
      if discarded then this else this.(inUse := inUse + 1, lastUse := now)
    }

    function Discard(): Tables {
      if discarded then this
      else this.(discarded := true, cleanups := if inUse > 0 then cleanups else cleanups + 1)
    }

    function Close(): Tables {
      this.(inUse := inUse - 1, cleanups := if discarded && inUse == 1 then cleanups + 1 else cleanups)
    }

    /** One tick of autoDiscard; must says that the server's context is done. */
    function AutoDiscard(now: int, must: bool): Tables {
      if discarded || (now - lastUse <= IDLE_TIMEOUT && !must) then this
      else this.(discarded := true, cleanups := if inUse == 0 then cleanups + 1 else cleanups)
    }

    function AddFile(index: u64, f: File): Tables {
      this.(files := files[index := f])
    }

    function RemoveFile(index: u64): Tables {
      if index !in files then this
      else this.(files := files - {index}, closedFiles := closedFiles + {index})
    }

    function AddLister(index: u64, l: Lister): Tables {
      this.(listers := listers[index := l])
    }

    function GetLister(index: u64, now: int): Tables {
      if index in listers then this.(listers := listers[index := listers[index].(lastSeen := now)]) else this
    }

    function CloseLister(index: u64): Tables {
      this.(listers := listers - {index})
    }

    function Expired(now: int): set<u64> {
      set i | i in listers && now - listers[i].lastSeen > LISTER_EXPIRATION
    }

    /** The listers of an object that one tick of cleanupListers closes. */
    function Swept(now: int, obj: nat): set<u64> {
      if discarded then {} else set i | i in listers && i in Expired(now) && listers[i].obj == obj
    }

    /** One tick of cleanupListers. */
    function SweepListers(now: int): Tables {
      if discarded then this else this.(listers := listers - Expired(now))
    }
  }

  const NEW := Tables(1, false, 0, map[], map[], {}, 0)

  /** A call of Add(1) or Done on a client object. */
  datatype Counting = Added(client: nat) | Released(client: nat)

  class Worker {
    var inUse: int
    var discarded: bool
    var lastUse: int
    var listers: map<u64, Lister>
    var files: map<u64, File>
    var closedFiles: set<u64>
    var cleanups: nat
    var closed: multiset<nat>      // the objects on which Close was called
    var counted: seq<Counting>     // the calls on client objects, in order

    function View(): Tables
      reads this
    {
      Tables(inUse, discarded, lastUse, listers, files, closedFiles, cleanups)
    }

    constructor (now: int)
      ensures View() == NEW.(lastUse := now) && closed == multiset{} && counted == []
    {
      inUse, discarded, lastUse := 1, false, now;
      listers, files, closedFiles := map[], map[], {};
      cleanups, closed, counted := 0, multiset{}, [];
    }

    method Use(now: int) returns (ok: bool)
      modifies this
      ensures View() == old(View()).Use(now) && ok == !old(discarded)
      ensures counted == old(counted) && closed == old(closed)
    {
      if discarded { return false; }
      inUse := inUse + 1;
      lastUse := now;
      ok := true;
    }

    method Discard()
      modifies this
      ensures View() == old(View()).Discard() && counted == old(counted) && closed == old(closed)
    {
      if discarded { return; }
      discarded := true;
      if inUse > 0 { return; }
      cleanups := cleanups + 1;
    }

    method Close()
      modifies this
      ensures View() == old(View()).Close() && counted == old(counted) && closed == old(closed)
    {
      inUse := inUse - 1;
      if discarded && inUse == 0 { cleanups := cleanups + 1; }
    }

    method AutoDiscard(now: int, must: bool) returns (exit: bool)
      modifies this
      ensures View() == old(View()).AutoDiscard(now, must) && counted == old(counted) && closed == old(closed)
      ensures exit == discarded
    {
      if discarded { return true; }
      if now - lastUse <= IDLE_TIMEOUT && !must { return false; }
      discarded := true;
      if inUse == 0 { cleanups := cleanups + 1; }
      exit := true;
    }

    /** AddFile, with the index on which the search for a free one ended. */
    method AddFile(index: u64, f: File)
      requires index !in files
      modifies this
      ensures View() == old(View()).AddFile(index, f) && closed == old(closed)
      ensures counted == old(counted) + [Added(f.client)]
    {
      files := files[index := f];
      counted := counted + [Added(f.client)];
    }

    /** The range over the map may visit the files in any order. */
    method GetFileByClientSeqID(client: nat, id: u32) returns (index: u64, ok: bool)
      ensures ok ==> index in files && files[index].client == client && files[index].clientSeqID == id
      ensures !ok ==> forall i :: i in files ==> !(files[i].client == client && files[i].clientSeqID == id)
    {
      var todo := files.Keys;
      while todo != {}
        invariant todo <= files.Keys
        invariant forall i :: i in files.Keys - todo ==> !(files[i].client == client && files[i].clientSeqID == id)
        decreases |todo|
      {
        index :| index in todo;
        if files[index].clientSeqID == id && files[index].client == client { return index, true; }
        todo := todo - {index};
      }
      return 0, false;
    }

    method RemoveFile(index: u64) returns (f: File, ok: bool)
      modifies this
      ensures View() == old(View()).RemoveFile(index) && closed == old(closed)
      ensures counted == old(counted) + if ok then [Released(f.client)] else []
      ensures ok == (index in old(files)) && (ok ==> f == old(files)[index])
    {
      if index !in files { return File(0, 0, 0), false; }
      f, ok := files[index], true;
      files := files - {index};
      closedFiles := closedFiles + {index};
      counted := counted + [Released(f.client)];
    }

    method AddLister(index: u64, obj: nat, now: int)
      requires index !in listers && index != EOF_LISTER
      modifies this
      ensures View() == old(View()).AddLister(index, Lister(obj, now))
      ensures counted == old(counted) && closed == old(closed)
    {
      listers := listers[index := Lister(obj, now)];
    }

    method CloseLister(index: u64)
      modifies this
      ensures View() == old(View()).CloseLister(index) && counted == old(counted)
      ensures closed == old(closed) + if index in old(listers) then multiset{old(listers)[index].obj} else multiset{}
    {
      if index in listers {
        closed := closed + multiset{listers[index].obj};
        listers := listers - {index};
      } else {
        assert listers - {index} == listers;
      }
    }

    /** One tick of cleanupListers: the loop deletes from the map it ranges over. */
    method SweepListers(now: int) returns (exit: bool)
      modifies this
      ensures View() == old(View()).SweepListers(now) && exit == discarded && counted == old(counted)
      ensures forall o :: closed[o] == old(closed)[o] + |old(View()).Swept(now, o)|
    {
      hide SweptFrom, Tables.Expired;
      if discarded { return true; }
      ghost var was := View();
      var todo := listers.Keys;
      NoneSwept(was, now, closed);
      while todo != {}
        invariant todo <= listers.Keys
        invariant listers == was.listers - (was.Expired(now) - todo)
        invariant View() == was.(listers := listers) && counted == old(counted)
        invariant SweptFrom(was, now, todo, old(closed), closed)
        decreases |todo|
      {
        var index :| index in todo;
        OneSwept(was, now, todo, index, old(closed), closed);
        todo := todo - {index};
        if now - listers[index].lastSeen > LISTER_EXPIRATION {
          closed := closed + multiset{listers[index].obj};
          listers := listers - {index};
        }
      }
      AllSwept(was, now, old(closed), closed);
      exit := false;
    }
  }

  /** The listers outside `todo` that have expired have been closed. */
  ghost predicate SweptFrom(was: Tables, now: int, todo: set<u64>, before: multiset<nat>, closed: multiset<nat>) {
    forall o :: closed[o] == before[o] + |was.Swept(now, o) - todo|
  }

  lemma NoneSwept(was: Tables, now: int, closed: multiset<nat>)
    ensures SweptFrom(was, now, was.listers.Keys, closed, closed)
    ensures was.listers - (was.Expired(now) - was.listers.Keys) == was.listers
  {
    assert forall o :: was.Swept(now, o) - was.listers.Keys == {};
  }

  lemma OneSwept(was: Tables, now: int, todo: set<u64>, index: u64, before: multiset<nat>, closed: multiset<nat>)
    requires SweptFrom(was, now, todo, before, closed) && index in todo && todo <= was.listers.Keys && !was.discarded
    ensures index in was.Expired(now) <==> now - was.listers[index].lastSeen > LISTER_EXPIRATION
    ensures was.listers - (was.Expired(now) - (todo - {index}))
         == was.listers - (was.Expired(now) - todo) - if index in was.Expired(now) then {index} else {}
    ensures SweptFrom(was, now, todo - {index}, before,
                      if index in was.Expired(now) then closed + multiset{was.listers[index].obj} else closed)
  {
    forall o
      ensures |was.Swept(now, o) - (todo - {index})|
           == |was.Swept(now, o) - todo| + if index in was.Expired(now) && was.listers[index].obj == o then 1 else 0
    {
      OneLess(was.Swept(now, o), todo, index);
    }
  }

  lemma AllSwept(was: Tables, now: int, before: multiset<nat>, closed: multiset<nat>)
    requires SweptFrom(was, now, {}, before, closed)
    ensures forall o :: closed[o] == before[o] + |was.Swept(now, o)|
    ensures was.Expired(now) - {} == was.Expired(now)
  {
    assert forall o :: was.Swept(now, o) - {} == was.Swept(now, o);
  }

  lemma OneLess(s: set<u64>, todo: set<u64>, index: u64)
    requires index in todo
    ensures |s - (todo - {index})| == |s - todo| + if index in s then 1 else 0
  {
    assert s - (todo - {index}) == s - todo + if index in s then {index} else {};
  }
}
