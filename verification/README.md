# nfs4go in Dafny

A model of the NFSv4 server nfs4go and proofs about it: the life of its workers, its client
registry, sessions and reply cache, the assembly of COMPOUND replies, the XDR codecs and the generator
that writes half of them, attributes and directory listings, and the goroutines of a connection.

`dafny verify dfyconfig.toml` checks the whole project.

| module | models |
|---|---|
| `Octets` | bytes, machine words, padding |
| `XdrSchema`, `XdrLaws`, `XdrStream` | types, values and the reflective codec; its laws; the codec on streams |
| `XdrWire` | the bytes on the wire |
| `XdrBuf` | decoding from a pooled buffer, which never reports its end |
| `XdrGenerate`, `XdrAgreement` | the code generator and its five templates; agreement of generated and reflective codecs |
| `Rpc` | record marking of calls and replies |
| `Creds`, `CredsCodec` | equality of credentials; their hand-written decoder |
| `Worker`, `WorkerProtocol`, `WorkerTimes` | a worker's lock regions; all interleavings around one worker; when its timers act |
| `Server`, `ServerSteps`, `ServerRuns` | all workers, the WaitGroup and the busy counters; every action keeps them; what that means for every run |
| `Clients`, `ClientLaws`, `ClientAnswers` | the client registry as an object; the invariant of all its runs; what it answers |
| `Bufpool`, `Slots`, `Compound`, `CompoundReply`, `CompoundInput` | buffers and their pool; SEQUENCE slots; COMPOUND replies, as they are read, and on the bytes that are given |
| `SlotRaces`, `Sessions` | requests that overlap on a slot; sessions and the buffers of their slots |
| `Bitmap`, `Attrs`, `AttrLaws`, `AttrValues` | bitmap4; writing attributes; reading them back, VERIFY and NVERIFY; what the values tell |
| `ReadDir`, `DirList` | READDIR paging; its reply on the wire |
| `Opens`, `OpenRaces` | OPEN ids, OPEN and CLOSE on the file table, one after the other and overlapping |
| `Conn` | the goroutines and channels of a connection |

Objects with fields are classes whose methods are proved against functions or relations on their
state; code under a lock is one action of a step system; `cleanup`, which takes no lock, is one
action per object it closes. Random choices, clocks and the answers of the file system are
parameters, so every statement holds for all of them.

Where the code does less than it seems to promise, the model follows the code, and the exact condition
is proved together with a failing case:

- no lock protects a slot, so overlapping requests can run twice (`SlotRaces.TwiceExactlyIf`,
  `SlotRaces.BothCopiesRun`) and a retry can get an empty or a foreign reply
  (`SlotRaces.RetryGetsExactly`, `SlotRaces.RetryGetsAnothersReply`);
- the reply cache appends, and an uncached retry on a persistent slot runs again
  (`Slots.ReplayIsOriginalOnlyOnce`, `Slots.PersistentAtMostOnce`);
- a slot's buffer can be returned to the pool while in use (`Sessions.DestroyedMeanwhile`);
- decoding from a buffer that holds less than the whole encoding never returns (`XdrBuf.CutHangs`), so a
  compound that is cut short does not (`CompoundInput.CutCompoundSticks`), and then neither does Serve
  (`Conn.ReturnsUnlessHung`);
- overlapping OPENs can open two files (`OpenRaces.UniqueExactlyIf`), and an index used again makes CLOSE
  leave its file open (`Opens.CloseClosesUnlessReused`, `Opens.ReusedIndexStaysOpen`);
- a client can be removed while AddFile is adding a file of it (`ServerRuns.RemovedClientsFiles`);
- a record shorter than its header (`Rpc.PanicsExactlyIf`), a stray READDIR cookie
  (`ReadDir.StrayCookiePanics`) and a bitmap whose largest number is on and a multiple of 32
  (`Bitmap.Encode`) make the server panic;
- seven attributes are unknown to the reader (`AttrLaws.AttributesRoundTrip`);
- pointers lose their flag with a generated codec (`XdrAgreement.PointerEncoding`, `Rpc.ReplyFramed`);
- equality of credentials is not transitive (`Creds.EqualChains`, `Creds.EqualNotTransitive`);
- COMPOUND goes on after errors that are not on its list of fatal ones, although section 15.2 of RFC 7530
  ends it at the first error (`Compound.GoesOnAfterError`).

## Model

| member | source | states |
|---|---|---|
| `WorkerProtocol.InvStep` | worker/worker.go:63-175 | every action of every goroutine around a worker (Use, Close, Discard, autoDiscard, file and lister calls, the sweep, each turn of cleanup) keeps: cleanup started once exactly if discarded and unused, tables and objects in agreement, every object closed as often as its place says |
| `WorkerProtocol.RunInv` | worker/worker.go:38-175 | the invariant holds in every state of every interleaving from New on |
| `WorkerProtocol.CleanupRunsAlone` | worker/worker.go:110-137 | while cleanup runs without the lock nobody holds the worker and no other enabled action changes anything |
| `WorkerProtocol.CleanupStartsOnce` | worker/worker.go:79-108 | in every run cleanup is started at most once, by exactly the step that makes the worker discarded and unused |
| `WorkerProtocol.EverythingClosedOnce` | worker/worker.go:110-137 | in every run no file or lister is closed twice, and after cleanup everything ever registered was closed exactly once and nothing else |
| `WorkerProtocol.CleanupNotStuck` | worker/worker.go:110-137 | an unfinished cleanup always has a next action |
| `WorkerProtocol.CleanupProgresses` | worker/worker.go:110-137 | every action of cleanup decreases what is left, so it ends |
| `WorkerTimes.IdleExactlyIf` | worker/worker.go:139-175 | in every run a tick of the idle timer discards an undiscarded worker exactly if its creation and every successful Use before are more than 300 seconds ago, or the server is shutting down |
| `WorkerTimes.SweptExactlyIf` | worker/lister.go:65-91 | in every run a tick of the sweep removes a lister exactly if it was last added or asked for more than 60 seconds ago, and the worker is not discarded |
| `WorkerTimes.SweepCloses` | worker/lister.go:82-86 | and what it removes it closes, for the first time, at that tick |
| `Worker.Worker.Use` | worker/worker.go:63-77 | refuses exactly on a discarded worker, otherwise counts the user and the time; nothing is closed |
| `Worker.Worker.Discard` | worker/worker.go:79-95 | sets the flag once and starts cleanup exactly if nobody uses the worker |
| `Worker.Worker.Close` | worker/worker.go:97-108 | gives up one use and starts cleanup exactly if that was the last one of a discarded worker |
| `Worker.Worker.AutoDiscard` | worker/worker.go:139-175 | one tick of the idle timer on the object follows the worker's tables; when that discards is WorkerTimes.IdleExactlyIf; it ends exactly when the worker is discarded |
| `Worker.Worker.AddFile` | worker/file.go:15-30 | puts the file at a free index, counts it once on its client afterwards, and changes nothing else |
| `Worker.Worker.GetFileByClientSeqID` | worker/file.go:41-52 | in any map order: finds an index with that client and id exactly if there is one |
| `Worker.Worker.RemoveFile` | worker/file.go:54-70 | takes out exactly that file, remembers its index as closed, releases its client once, and reports whether it was there |
| `Worker.Worker.AddLister` | worker/lister.go:20-35 | stores the lister with its time at a free index that is not the end marker |
| `Worker.Worker.CloseLister` | worker/lister.go:51-63 | removes and closes the lister if it is there; twice does nothing more |
| `Worker.Worker.SweepListers` | worker/lister.go:65-91 | one tick removes exactly the expired listers and closes each of them once, while deleting from the map it ranges over |
| `ServerSteps.InvStep` | server.go:179-230 | every action anywhere (GetWorker, installing a worker, any worker action, the count that follows AddFile, RemoveFile or a closed file in cleanup, client creation and removal) keeps one live worker per key, the WaitGroup share and all busy counters, with what is still owed to them, exact |
| `ServerRuns.RunInv` | server.go:179-230 | the global invariant holds in every state of every run |
| `ServerRuns.RunAccounting` | server.go:179-230 | in every run: at most one undiscarded worker per session and uid, WaitGroup share equal to the workers not yet cleaned up, no busy counter negative, and each counter plus the Adds and less the Dones still owed equal to the number of open files of that client over all workers |
| `ServerRuns.GetWorkerGives` | server.go:179-230 | the caller holds the worker it gets, with Equal credentials, not discarded; any worker replaced in the map is already discarded |
| `ServerRuns.RemovedClientHasNoFiles` | clients/clients.go:194-242 | DESTROY_CLIENTID or expiry removes a client without open files exactly if no AddFile for it is between its table and its counter |
| `ServerRuns.RemovedClientsFiles` | clients/clients.go:194-242 | the open files of a client at its removal are exactly those that AddFile has put into a table and not yet counted, and no Done is owed to it |
| `ServerRuns.RemovedWithAFileOpen` | worker/file.go:25-27 | witness: a run in which a client is removed with a file open |
| `Server.Registry.GetWorker` | server.go:179-230 | on objects: the installed worker is reused exactly if credentials are Equal and it is not discarded, otherwise a new one is installed and counted and the old one is discarded |
| `Clients.Clients.AddClient` | clients/clients.go:31-93 | the three loops of Add do one of the effects the specification allows, in any map order: conflict, update of the confirmed record, or replacement of unconfirmed ones |
| `Clients.Clients.Previous` | clients/clients.go:35-51 | conflict exactly if a confirmed client of the name has different credentials; otherwise exactly the confirmed clients of the name |
| `Clients.Clients.FindVerifier` | clients/clients.go:53-64 | finds a record with the verifier exactly if there is one |
| `Clients.Clients.DropUnconfirmed` | clients/clients.go:73-80 | removes exactly the unconfirmed records of the name |
| `Clients.Clients.ConfirmClient` | clients/clients.go:95-113 | stale, in use or confirmed, by confirm value and credentials, and only that record changes |
| `Clients.Clients.ConfirmSession` | clients/clients.go:115-158 | all branches of the sequence-id check of CREATE_SESSION, confirmed and unconfirmed |
| `Clients.Clients.GetClient` | clients/clients.go:161-174 | finds exactly confirmed clients and renews only that one |
| `Clients.Clients.GetClientByName` | clients/clients.go:177-192 | finds a confirmed client with name, verifier and Equal credentials exactly if there is one |
| `Clients.Clients.DestroyClient` | clients/clients.go:194-211 | refuses unconfirmed and busy clients, removes any other |
| `Clients.Clients.AddBusy` | clients/client.go:41-53 | changes the busy counter of that client and nothing else |
| `Clients.Clients.RemoveExpiredClients` | clients/clients.go:213-242 | removes exactly the expired clients that are not busy and reports them |
| `ClientLaws.MayKeeps` | clients/clients.go:31-242 | every call keeps: key is the record's id, one unconfirmed record per name, no two records with one name and verifier, pairwise Equal credentials within a name |
| `ClientLaws.RunValid` | clients/clients.go:31-242 | every table of every run of calls, counts by open files included, is valid in that sense |
| `ClientLaws.OrderDoesNotShow` | clients/clients.go:31-211 | in a valid table each call has one effect and one answer whatever order the map is ranged over, although Equal is not transitive |
| `ClientLaws.Handshake` | clients/clients.go:31-113 | after any calls in between except an Add of the name and a removal of the client, confirming what Add answered succeeds, and from then on RENEW and EXCHANGE_ID find exactly that client |
| `ClientLaws.SessionHandshake` | clients/clients.go:115-158 | after any harmless calls in between, the sequence id that Add answered confirms the client, new or known, and repeating it, after harmless calls again, finds the client and changes nothing |
| `ClientAnswers.AddAnswers` | clients/clients.go:31-93 | refused exactly if a confirmed client of the name has other credentials; a known client keeps its id and gets the next sequence number; a new one starts at 1, unconfirmed, and is the only unconfirmed one of its name, and no other record changes |
| `ClientAnswers.ConfirmedExactlyIf` | clients/clients.go:95-158 | in every run an unconfirmed record becomes confirmed exactly by a call that knows its confirm value or sequence id and comes with Equal credentials; with other credentials the call is answered CLID_INUSE, without the knowledge STALE_CLIENTID, and nothing changes |
| `ClientAnswers.ConfirmAgain` | clients/clients.go:95-113 | a record that is confirmed already asks the same of its caller |
| `ClientAnswers.SessionSequence` | clients/clients.go:115-158 | for a confirmed client CREATE_SESSION is misordered exactly if its sequence id is below the client's and not zero, without effect; otherwise the client stands at it |
| `ClientAnswers.RenewedStays` | clients/clients.go:161-242 | in every run with a clock that does not run backwards, expiry does not take away a client that was renewed within the expiration |
| `ClientAnswers.LeavesExactlyIf` | clients/clients.go:194-242 | what takes a client out of the table: DESTROY_CLIENTID or expiry, exactly if it is not busy, or a new client of its name while it is unconfirmed |
| `ClientAnswers.FoundIsConfirmed` | clients/clients.go:161-192 | nobody is found who is not confirmed, and by name only with the verifier and Equal credentials |
| `Creds.Canonical` | auth/authenticate.go:101-110 | sorting and compacting two lists gives equal lists exactly if they hold the same set |
| `Creds.EqualMeans` | auth/authenticate.go:92-111 | Equal holds exactly if uids match and either the group lists are the same or their lengths differ by at most one and the sets of gid and groups are equal |
| `Creds.EqualSymmetric` | auth/authenticate.go:92-111 | Equal is symmetric |
| `Creds.EqualChains` | auth/authenticate.go:92-111 | a chain of two equal pairs carries over exactly if the ends have the same list, or lists of nearly the same length and the same groups |
| `Creds.EqualNotTransitive` | auth/authenticate.go:92-111 | two witnesses against transitivity: different group sets joined by a chain, and lengths that drift apart |
| `CredsCodec.Decode` | auth/authenticate.go:50-90 | the hand-written decoder accepts what the reflective one accepts, stops at the same byte and gives the same credentials |
| `CredsCodec.Groups` | auth/authenticate.go:78-87 | the group loop is the reflective decoding of a slice of uint32 |
| `CredsCodec.CredsOnWire` | auth/authenticate.go:41-90 | the credentials on the wire in the order of appendix A of RFC 5531: stamp, machine name, uid, gid, other groups |
| `XdrLaws.RoundTrip` | xdr/decoder.go:245-475 | for every schema, recursive ones included, every type and every value with a wire form: decoding its encoding followed by anything gives the value and what follows |
| `XdrLaws.PrefixFree` | xdr/encoder.go:192-338 | no encoding is a prefix of another one of the same type, and equal bytes mean equal values |
| `XdrLaws.PlainIntRoundTrips` | xdr/encoder.go:211-226 | an int or uint survives the trip exactly if it lies in [0, 2^32) |
| `XdrLaws.Aligned` | xdr/encoder.go:54-84 | every write, also one cut short by an error, is a multiple of four bytes (section 3 of RFC 4506) |
| `XdrLaws.Consumes` | xdr/decoder.go:245-475 | any accepted input, whatever its padding and booleans, yields a value with a wire form and has consumed exactly the length of that form |
| `XdrWire.WordOnWire` | xdr/encoder.go:28-30 | a word goes out most significant byte first, a negative one in two's complement (sections 4.1 and 4.2 of RFC 4506) |
| `XdrWire.HyperOnWire` | xdr/encoder.go:32-34 | so do eight bytes |
| `XdrWire.WordFromWire` | xdr/decoder.go:67-76 | any four bytes are read so, and the rest is left |
| `XdrWire.HyperFromWire` | xdr/decoder.go:78-87 | any eight bytes are read so |
| `XdrWire.FlagsOnWire` | xdr/encoder.go:36-44 | booleans and the flags of optional data are the words 0 and 1 |
| `XdrWire.OpaqueOnWire` | xdr/encoder.go:54-84 | the length as a word, the bytes, and zeros up to a multiple of four and no further |
| `XdrWire.FieldsInOrder` | xdr/encoder.go:192-320 | a struct's fields follow each other in the order of their declaration |
| `XdrWire.ElementsInOrder` | xdr/encoder.go:192-320 | the elements of a list follow each other in order |
| `XdrWire.SliceOnWire` | xdr/encoder.go:192-320 | their number comes first, as a word |
| `XdrWire.UnionOnWire` | xdr/encoder.go:322-338 | a union is its mode as a word and the arm it selects |
| `XdrStream.Decoder.ReadFull` | xdr/decoder.go:487-505 | over a reader that reports its end: exactly n bytes or an error, and count plus remaining bytes is conserved |
| `XdrStream.Decoder.Uint32` | xdr/decoder.go:67-76 | reads one word as specified, counting it; the byte order is XdrWire.WordFromWire |
| `XdrStream.Decoder.ByteArray` | xdr/decoder.go:51-65 | reads the bytes and skips the padding, counting both |
| `XdrStream.Decoder.DecodeReflect` | xdr/decoder.go:245-456 | over a reader that reports its end: the specified value or failure, the specified rest, and count plus rest is conserved |
| `XdrStream.Decoder.ReadUnion` | xdr/decoder.go:458-475 | reads the mode and the arm it selects, or fails on a mode without an arm |
| `XdrStream.Decoder.DecodeElements` | xdr/decoder.go:245-456 | the loop over elements is the specified decoding of the list |
| `XdrStream.Decoder.DecodeFields` | xdr/decoder.go:245-456 | the loop over fields is the specified decoding of the struct |
| `XdrBuf.ReadTurns` | bufpool/buf.go:33-39 | any number of turns of io.ReadFull on a Buf leave what the specification of the loop says |
| `XdrBuf.NoProgress` | bufpool/buf.go:33-39 | with too few bytes the first turn takes them all and no later turn changes anything |
| `XdrBuf.ReadFullStops` | bufpool/buf.go:33-39 | io.ReadFull over a Buf returns exactly if the Buf holds the bytes asked for |
| `XdrBuf.DecAgrees` | xdr/decoder.go:245-475 | for every type and input, decoding from a Buf gives the reference value and rest, and where the reference fails it refuses or never returns |
| `XdrBuf.MoreBytes` | xdr/decoder.go:245-475 | a value stays a value and an error an error when more bytes follow |
| `XdrBuf.Decoder.ReadFull` | xdr/decoder.go:51-87 | the loop on the object, given a number of turns, ends as specified or uses them up |
| `XdrBuf.Decoder.DecodeReflect` | xdr/decoder.go:245-456 | decodeReflect over a Buf on every type, input and number of turns follows its fate: value, error or no return |
| `XdrBuf.ReturnsExactlyIf` | xdr/decoder.go:245-475 | decoding from a Buf returns a value after some number of turns exactly if the reference decoding does, and returns at all exactly if its fate is not to hang |
| `XdrBuf.CutHangs` | xdr/decoder.go:245-475 | for every type and value, of an encoding and whatever follows it the first k bytes make the decoder hang exactly if they do not hold the whole encoding; otherwise the value is decoded and the rest left |
| `XdrBuf.CutNeverReturns` | xdr/decoder.go:245-475 | and no number of turns of io.ReadFull ends it exactly then |
| `XdrBuf.HangsBeforeItRefuses` | xdr/decoder.go:458-475 | witness: an input that hangs although every longer one that starts with it is refused |
| `XdrStream.Encoder.ByteArray` | xdr/encoder.go:73-84 | appends the bytes and their padding |
| `XdrStream.Encoder.Bytes` | xdr/encoder.go:54-71 | appends length, bytes and padding |
| `XdrStream.Encoder.EncodeReflect` | xdr/encoder.go:192-320 | appends exactly the specified bytes and fails exactly when specified, partial output included; the bytes themselves are in XdrWire |
| `XdrStream.Encoder.WriteUnion` | xdr/encoder.go:322-338 | appends the mode and the selected arm, or fails after the mode |
| `XdrStream.Encoder.EncodeElements` | xdr/encoder.go:192-320 | the loop over elements appends the specified encoding, stopping at the first error |
| `XdrStream.Encoder.EncodeFields` | xdr/encoder.go:192-320 | the loop over fields appends the specified encoding, stopping at the first error |
| `XdrGenerate.CollectFields` | xdr/generate/generate.go:183-199 | succeeds exactly for a non-empty list without pointers, and then names every field in order on both sides |
| `XdrGenerate.EmitsAtMostOne` | xdr/generate/generate.go:159-181 | although branches fall through, at most one codec is written per struct, and none exactly for the shapes left to reflection |
| `XdrAgreement.EncodeAgrees` | xdr/encoder.go:126-190 | with any set of generated codecs present, Encode of a non-pointer value writes the bytes and ends with the result of pure reflection |
| `XdrAgreement.GeneratedAgrees` | xdr/generate/generate.go:36-118 | each of the five templates encodes as reflection does |
| `XdrAgreement.ReflectAgrees` | xdr/encoder.go:192-338 | reflection that meets generated codecs inside a value writes the same bytes |
| `XdrAgreement.DecodeAgrees` | xdr/decoder.go:164-243 | with any set of generated codecs present, Decode gives the value, rest and failure of pure reflection |
| `XdrAgreement.DecodeGeneratedAgrees` | xdr/generate/generate.go:36-118 | each of the five templates decodes as reflection does |
| `XdrAgreement.RoundTripAcrossCodecs` | xdr/generate/generate.go:29-32 | what any mix of codecs writes, any other mix reads back, with the rest untouched |
| `XdrAgreement.PointerEncoding` | xdr/encoder.go:195-205 | a pointer to a struct is encoded with its optional flag exactly if the struct has no generated codec |
| `XdrAgreement.PointerToPointerEncoding` | xdr/encoder.go:195-205 | the exact condition under which a pointer to a pointer agrees with reflection |
| `Bufpool.Buf.Write` | bufpool/buf.go:21-31 | lays the bytes over the array at the write cursor, growing if needed; the content is the old content followed by them |
| `Bufpool.Buf.Read` | bufpool/buf.go:33-39 | returns what fits of the content, nothing and no end when empty, and leaves the remainder |
| `Bufpool.Buf.Allocate` | bufpool/buf.go:45-51 | makes room after the cursor and keeps every byte before it |
| `Bufpool.Buf.SeekWrite` | bufpool/buf.go:57-63 | moves the write cursor and returns the old one; the buffer stays valid exactly if the cursor is between the read cursor and the end |
| `Bufpool.Buf.Grow` | bufpool/buf.go:70-80 | extends the array, never shrinks it, and keeps all its bytes |
| `Bufpool.Buf.Copy` | bufpool/buf.go:90-96 | appends to the target, also to itself: old content of the target, then this content |
| `Bufpool.Pool.Get` | bufpool/pool.go:14-28 | hands out the oldest free buffer as it is, or a new empty one; an empty one if all free buffers are empty, and these stay so |
| `Bufpool.Pool.Put` | bufpool/pool.go:30-37 | resets the buffer before it joins the free ones, so all free buffers are empty |
| `Bufpool.Pool.CacheReply` | mux_v4.go:325-327 | caching a reply leaves the pool clean exactly if the slot's buffer is not in it, or nothing is copied |
| `Slots.InSequence` | mux_v4.go:270-290 | requests one after the other on a slot without PERSIST: in every sequence the k-th compound that runs carries the k-th number after the slot's modulo 2^32, everything else runs nothing and leaves the slot unchanged |
| `Slots.NotTwice` | mux_v4.go:270-290 | requests one after the other: no sequence number runs twice within 2^32 executions |
| `Slots.UncachedRetryRunsAgain` | mux_v4.go:277-290 | witness: on a persistent slot an uncached retry runs again, without PERSIST it does not |
| `Slots.NextOrUncached` | mux_v4.go:270-290 | over every run of a persistent slot, what runs next carries the next number, or once more the last one, and then the last one had not asked for caching |
| `Slots.CachedRunsOnce` | mux_v4.go:270-290 | a request that asked for caching does not run again within 2^32 numbers |
| `Slots.PersistentAtMostOnce` | mux_v4.go:270-290 | within 2^32 executions a persistent slot runs some number twice exactly if an uncached request is repeated while the slot stands at it |
| `Slots.CacheIsAllReplies` | mux_v4.go:289-327 | on a persistent slot, over every run, the cache is all stored replies one after the other, and the slot claims data exactly if the last run request asked for it, even if it broke off |
| `Slots.ReplayIsOriginalOnlyOnce` | mux_v4.go:270-275 | the answer to a retry that is replayed is its own reply exactly if that is the only one stored so far, and what was stored before if the request broke off |
| `Slots.ResetMakesReplayExact` | mux_v4.go:325-327 | in the variant that resets the buffer before the copy, in every run, each retry answered from the cache gets its own reply byte for byte unless the request had broken off, and changes nothing |
| `Slots.SessionIDUnpacks` | clients/client.go:133-139 | both halves of a session id come back |
| `Slots.SlotsAreIndependent` | clients/client.go:89-108 | however requests of all sessions and slots are mixed, each slot goes through exactly its own |
| `Slots.NewSessionInSequence` | clients/client.go:55-108 | requests of all slots in any mix, each slot's one after the other: at most once for each slot of a new session without PERSIST |
| `Slots.ToldExactly` | mux_v4.go:270-290 | after any requests one after the other: the number after the last that ran runs, that number itself is replayed, run again or refused as uncached, each exactly when, and any other is misordered |
| `SlotRaces.RunSerial` | mux_v4.go:270-327 | over all interleavings of checks, claim and copy, up to the first overlap of two requests between checks and claim, slot and executions are those of requests one after the other |
| `SlotRaces.TwiceExactlyIfOverlap` | mux_v4.go:270-290 | over all interleavings on a slot without PERSIST, within 2^32 claims and once all have claimed: some number has run twice exactly if two requests with one number were both between checks and claim |
| `SlotRaces.TwiceExactlyIf` | mux_v4.go:270-290 | the same for any slot on which no request with number 0 came first: two requests with one number together between checks and claim, or a request let through with the number of the last claim |
| `SlotRaces.RepeatIsUncached` | mux_v4.go:277-290 | a request with the number of the last claim is let through only on a persistent slot whose last claim did not ask for caching |
| `SlotRaces.ZeroSetsBack` | mux_v4.go:283-290 | witness: number 0 first on a new persistent slot, and 1 runs twice without either |
| `SlotRaces.OverlapRunsTwice` | mux_v4.go:270-290 | on any slot, a number carried by two requests that are together between checks and claim runs twice |
| `SlotRaces.AloneInSequence` | mux_v4.go:270-290 | without overlap the k-th claim carries k |
| `SlotRaces.AloneCachedRunsOnce` | mux_v4.go:270-290 | without overlap on a persistent slot a request that asked for caching runs once |
| `SlotRaces.BothCopiesRun` | conn.go:108-121 | witness: two copies of one request both run |
| `SlotRaces.LaterNumberRunsTwice` | mux_v4.go:289-290 | witness: a late claim sets the slot back, and a number runs twice whose requests were never together |
| `SlotRaces.CacheIsCopied` | mux_v4.go:325-327 | over all interleavings the cache is the replies copied so far |
| `SlotRaces.RetryGetsExactly` | mux_v4.go:270-327 | over all interleavings: a retry is answered from the cache exactly if the last claim has its number and asked for caching, a reply is copied exactly if the last claim, whosever, asked for caching, and the answer is empty exactly if none has been copied yet |
| `SlotRaces.RetryGetsOldCache` | mux_v4.go:290-327 | a retry after the claim, with only other checks in between, is answered with the cache as it was before the claim, an empty reply if nothing was in it |
| `SlotRaces.RetryGetsAnothersReply` | mux_v4.go:325-327 | witness: a reply nobody asked to keep is copied because another request set the flag, and answers that one's retry |
| `Sessions.Client.BuildSession` | clients/client.go:55-87 | the id is client id and key, eight bytes each, most significant first, and unpacks to them; the session is sixteen new slots in order, with a pooled buffer each exactly if persistent |
| `Sessions.Client.GetSlot` | clients/client.go:89-108 | the slot exactly if session and slot number exist |
| `Sessions.Client.RemoveSession` | clients/client.go:110-131 | removes that session and no other, and the buffers of its slots join the pool in order, empty |
| `Sessions.PutAll` | clients/clients.go:232-238 | the loop over the slots of a session: every buffer there is joins the pool, in order and empty, and a clean pool stays clean |
| `Sessions.DestroyedMeanwhile` | mux_v4.go:325-327 | DESTROY_SESSION inside the compound: the reply is copied into a buffer that is in the pool already, and who gets it next finds the reply in it |
| `Compound.RanMeans` | mux_v4.go:230-239 | which operations run: a first part of the requested ones, all but the last not fatal, the last one fatal or the last requested; otherwise the compound fails at an operation that returns an error, or reaches one that never returns |
| `Compound.SticksExactlyIf` | mux_v4.go:230-239 | over given operations, the loop never returns exactly if it reaches one that is stuck or missing |
| `Compound.NumberMissing` | mux_v4.go:419-428 | reading an operation's number returns, in whatever number of turns, exactly if four bytes are left |
| `CompoundInput.SameCourse` | mux_v4.go:225-239 | the loop over the operations that the bytes come to goes as the loop that reads numbers and arguments from the bytes |
| `CompoundInput.ItemCut` | mux_v4.go:419-428 | reading an operation's number and arguments hangs exactly if they are not all there, and otherwise leaves what follows |
| `CompoundInput.CutCompoundSticks` | mux_v4.go:225-239 | a compound of any operations, cut after k bytes, under any count and answers of the handlers, never returns exactly if it reaches an operation that is missing or whose last byte is beyond k |
| `CompoundInput.ShortCompoundSticks` | mux_v4.go:225-239 | a compound that announces more operations than it holds, none of them fatal, never returns |
| `Compound.GoesOnAfterError` | mux_v4.go:230-239 | an error that is not fatal does not end the compound, unlike section 15.2 of RFC 7530 |
| `Compound.HeaderLength` | mux_v4.go:332-342 | the header's length does not depend on count and status |
| `Compound.ReplyReads` | mux_v4.go:332-380 | a reader of the reply finds verifier, status of the last result, tag, number of results, and then exactly the results |
| `CompoundReply.ReplyTellsAll` | mux_v4.go:332-380 | a reader of the reply finds the status of the last result, the number of results, and then of each operation in order its number, its status and its body, with nothing left over |
| `CompoundReply.RefusalTells` | mux_v4.go:344-350 | a refusal reads as one result without a body |
| `CompoundReply.SequenceTells` | mux_v4.go:299-305 | SEQUENCE's own result decodes to the request's session id, sequence id and slot, and 15 as both slot limits |
| `CompoundReply.ByNumber` | mux_v4.go:182-197 | the fatal statuses and the operations allowed first, by number |
| `Compound.RewriteHeaderIfNeeded` | mux_v4.go:352-366 | the header in front is replaced and no byte of the results moves, whether or not the buffer is regrown |
| `Compound.RunOperations` | mux_v4.go:221-241 | for every list of operations and statuses on which it returns, the buffer ends as header of last status and number run, followed by exactly their results in order |
| `Compound.WriteHeaderAndSingleOperation` | mux_v4.go:344-350 | a header for one result and that result without a body |
| `Compound.Run` | mux_v4.go:199-242 | refusals before the loop in version 4.1, otherwise the reply of the operations that run |
| `Compound.RunSequence` | mux_v4.go:244-330 | on its own and if it returns: no slot gives a refusal; otherwise replay, refusal or the compound's reply, and the slot follows the slot machine, buffer contents included |
| `Rpc.ReceiveCall` | rpc.go:13-49 | on a stream: the header and body of one record, or failure, and the bytes left are those after the record |
| `Rpc.ReceiveFrame` | rpc.go:13-49 | one framed call, whatever follows it, is received as sent |
| `Rpc.Consumed` | rpc.go:13-49 | a successful receive took four bytes plus exactly the length they announce |
| `Rpc.PanicsExactlyIf` | rpc.go:25-43 | the call panics exactly if a last fragment starts with a CALL header that is longer than the record it announces |
| `Rpc.LongHeaderPanics` | rpc.go:25-43 | every CALL header does under any smaller announced length, whatever follows |
| `Rpc.EmptyRecordPanics` | rpc.go:25-43 | witness: a record that announces nothing and holds a call |
| `Rpc.FramesArrive` | rpc.go:13-49 | any list of calls framed one after the other arrives as that list with nothing left over |
| `Rpc.ReplyFramed` | rpc.go:51-72 | the length word equals the bytes that follow exactly if the reply has its generated codec and the record is shorter than 2^31 |
| `Rpc.MarkOnWire` | rpc.go:51-62 | a reply starts with the word 2^31 plus its length, most significant byte first |
| `Rpc.MarkFromWire` | rpc.go:13-29 | a call is accepted only with the top bit set, and takes the length in the other 31 |
| `Rpc.CallOnWire` | rpc.go:37-39 | and only if its second word is 0, CALL |
| `Bitmap.Encode` | bitmap4.go:8-37 | in any map order: out of range exactly if a negative number, or a largest one that is a multiple of 32, is on; otherwise the word count of the largest key and exactly the numbers that are on |
| `Bitmap.Decode` | bitmap4.go:39-55 | every bit of every word becomes a key with its value |
| `Bitmap.EncodeDecoded` | bitmap4.go:8-55 | encoding what was decoded is in range and gives the word list back, length included |
| `Bitmap.DecodeEncoded` | bitmap4.go:8-55 | decoding what was encoded keeps the numbers on, under exactly the same range condition |
| `Bitmap.EncodesWords` | bitmap4.go:8-37 | the answer is determined by the map alone, equal to the words computed bit by bit |
| `Attrs.FileId` | attrs.go:381-400 | the loop gives the last eight-byte window of the handle that is not zero, and never zero |
| `Attrs.FileIdIsAWindow` | attrs.go:381-400 | a handle with a byte that is not zero gets the value of the last window that holds one, and all bytes after it are zero |
| `Attrs.FileInfoToAttrs` | attrs.go:217-500 | values are those of the requested and supported attributes in ascending order, the mask names exactly these in as many words as the request, and the exact condition for the index panic |
| `Attrs.Reply` | attrs.go:493-499 | a request that came as words is answered in range, with as many words |
| `Attrs.DefaultReply` | attrs.go:226-234 | the default set is answered in range with two words |
| `Attrs.SupportedWords` | attrs.go:290-292 | the supported set is encoded in range as its three words |
| `AttrLaws.DecodeFAttrs4` | attrs.go:535-825 | the reading loop against its specification, with the optional time and its extra flag |
| `AttrLaws.AttributesRoundTrip` | attrs.go:552-822 | reading a reply recovers every returned attribute exactly if none of them is one of the seven without a case |
| `AttrLaws.ReadReply` | attrs.go:217-825 | the same from a request in words through the server's reply to the reader |
| `AttrLaws.MissingCaseShifts` | attrs.go:552-822 | a missing case shifts what follows: after no_trunc, numlinks reads 1 for every file |
| `AttrLaws.ValsInjective` | attrs.go:272-491 | for one mask, two states have the same bytes exactly if every returned attribute is the same |
| `AttrLaws.Verify` | mux_v4.go:2314-2392 | mask, handle, cache and Lstat in their order; on a file OK exactly if the bytes agree, NOT_SAME otherwise; what Lstat found is cached |
| `AttrLaws.NVerify` | mux_v4.go:2394-2472 | mask, handle, cache and Lstat in their order; on a file SAME exactly if the bytes agree, OK otherwise; what Lstat found is cached |
| `AttrLaws.Opposites` | mux_v4.go:2314-2472 | the two bodies on one state: VERIFY succeeds exactly when NVERIFY reports SAME, and NOT_SAME exactly when it succeeds, except exactly where Lstat is asked and fails with one of these statuses; all else ends both alike |
| `AttrLaws.VerifyMeansUnchanged` | mux_v4.go:2314-2392 | VERIFY of what a file showed earlier succeeds exactly if every attribute asked for is unchanged |
| `AttrValues.DecimalReads` | attrs.go:427-435 | the string is decimal digits without a leading zero and reads back as the number |
| `AttrValues.OwnersRead` | attrs.go:427-435 | owner and group read back as the file's uid and gid |
| `AttrValues.VerifyOwner` | mux_v4.go:2314-2392 | VERIFY of the owner alone succeeds exactly if the uid is what it was |
| `AttrValues.ChangeTells` | attrs.go:317-322 | for one user and session the change attribute differs exactly if the modification second does, and at one time exactly between different users |
| `AttrValues.ValuesTell` | attrs.go:294-450 | type, size, mode bits, links and times as a client reads them |
| `AttrValues.ServerTells` | attrs.go:313-484 | what is the same for every file, by attribute number |
| `ReadDir.FillPage` | mux_v4.go:1202-1242 | the loop builds the specified page with its cookies and stops by the two budgets |
| `ReadDir.PageFillsBudgets` | mux_v4.go:1229-1241 | all entries but the last are within both budgets, and a page is cut short exactly if its last entry is not |
| `ReadDir.Directory.ReadDir` | mux_v4.go:1119-1266 | cookie, verifier, lister table, errors and the end marker against the specification of one call |
| `ReadDir.FileInfoListerIsGood` | vendor/github.com/kuleuven/vfs/listerat.go:11-25 | the stock lister progresses and reports the end only at the end, from exactly the offsets between zero and its length |
| `ReadDir.StrayCookiePanics` | mux_v4.go:1186-1192 | with the stock lister READDIR panics exactly for a cookie below 1000 other than zero, or one whose offset is negative as int64, if the verifier leads to a lister |
| `ReadDir.WalkVisitsAll` | mux_v4.go:1143-1265 | every walk along cookies and verifiers, under any budgets and even if its lister is lost, has visited the directory's first entries once each and in order; Eof means all of them; NOT_SAME comes exactly if the verifier's lister is gone at that call; and the walk ends after at most one call more than there are entries |
| `ReadDir.ListersKept` | mux_v4.go:1143-1253 | a call removes a lister only if it used it and the entries are at their end; after Eof it is gone, otherwise it stays, and none changes |
| `ReadDir.TakenOver` | worker/lister.go:20-49 | if a lister of another directory has taken the index of a lost one, the walk goes on there from the same position |
| `ReadDir.WalkGoesOn` | mux_v4.go:1143-1265 | until Eof the walk can always go on |
| `DirList.PageArrives` | msg/structs_xdr.go:155-213 | a page of any length as a chain of entries, written and read by any mix of codecs, arrives entry by entry with the rest untouched |
| `DirList.ChainSize` | msg/structs_xdr.go:170-185 | the encoded chain is as long as the sizes of its entries as ReadDir counts them, plus the flag that ends it |
| `DirList.BudgetIsBytes` | mux_v4.go:1236-1241 | what is subtracted from MaxCount is what goes on the wire: a page without its last entry leaves the 128 bytes kept back for the rest of the reply |
| `DirList.DirCountIsBytes` | mux_v4.go:1229-1234 | what is subtracted from DirCount is the cookie and the name as they go on the wire |
| `DirList.UnchainChain` | mux_v4.go:1221-1227 | following Next gives back the entries of the page in order |
| `DirList.DirTemplates` | msg/structs_xdr.go:155-213 | the generator chooses for entry and list the templates that are in the generated file |
| `Opens.OpenIDsCollide` | mux_v4.go:1804-1807 | within any 286331153 consecutive sequence numbers two requests share an OPEN id exactly for slot 15 followed by slot 0 one number later |
| `Opens.WindowIsSharp` | mux_v4.go:1804-1807 | one number more and neighbouring slots collide |
| `Opens.FileIDRoundTrip` | fileid.go:3-9 | a file id survives the state id, and a state id the file id |
| `Opens.Open` | mux_v4.go:1919-2030 | with nobody in between: an OPEN finds the open file of that client and id, or adds one, or is refused and adds none |
| `Opens.Close` | mux_v4.go:2085-2151 | with nobody in between: a CLOSE of a removed id does nothing, of an unknown id fails, otherwise removes and closes exactly that file |
| `Opens.RunUnique` | worker/file.go:41-52 | in every run of OPENs and CLOSEs one after the other no client has two open files under one id |
| `Opens.RepeatedOpen` | mux_v4.go:1919-1934 | one after the other: a later OPEN returns the same file id exactly if client and id are the same, and then adds nothing, as long as the file is open |
| `Opens.RepeatedOpen41` | mux_v4.go:1804-1934 | two OPENs of one client at (s, a) and (t, b) within the window get the same file id exactly if the pairs are equal, as in one compound, or are slot 15 followed by slot 0 |
| `OpenRaces.RunSingle` | mux_v4.go:1920-2030 | over all interleavings, until two OPENs of one client and id have been between look and AddFile together, there is one file per client and id and none for an OPEN on its way |
| `OpenRaces.UniqueExactlyIf` | mux_v4.go:1920-2030 | up to and including that moment files are unique, and the OPENs on their way can make two of one exactly if it has come |
| `OpenRaces.RepeatedLook` | mux_v4.go:1919-1934 | until that moment a look finds a given open file exactly if it is of that client and id, and adds nothing |
| `OpenRaces.RepeatedLook41` | mux_v4.go:1804-1934 | until that moment, in NFSv4.1, the look for the OPEN at (t, b) finds the file of the OPEN at (s, a) exactly if the pairs are equal or are slot 15 followed by slot 0 |
| `OpenRaces.DuplicatesOverlapped` | mux_v4.go:1920-2030 | over all interleavings, two open files of one client and id come of OPENs each of which looked before the other added |
| `OpenRaces.TwoFiles` | mux_v4.go:1920-2030 | witness: the same OPEN twice at a time opens two files |
| `OpenRaces.SecondCloseFails` | mux_v4.go:2114-2131 | of two CLOSEs of one file that have both asked, the second closes nothing unless an OPEN has taken the index in between |
| `Opens.ClosedFilesAre` | worker/file.go:54-79 | in every run an index counts as closed exactly if an earlier CLOSE removed a file there |
| `Opens.CloseClosesUnlessReused` | mux_v4.go:2114-2135 | in every run a CLOSE of an open file closes it exactly if no earlier CLOSE has removed a file with its id; otherwise it answers OK and the file stays |
| `Opens.CloseAnswers` | mux_v4.go:2114-2150 | over runs: OK without effect for an id an earlier CLOSE removed, the file's own result for one that is open otherwise, and BAD_SEQID without effect for any other |
| `Opens.ReusedIndexStaysOpen` | worker/file.go:15-30 | witness: an index used again makes CLOSE answer OK and leave the file open |
| `Conn.InvStep` | conn.go:94-203 | every step of reader, proxy, mux, handlers and sender keeps requests in order, one handler per request, one response per finished handler, and never panics |
| `Conn.RunInv` | conn.go:31-203 | the invariant holds in every state of every interleaving |
| `Conn.EveryRequestAnsweredOnce` | conn.go:31-43 | in every interleaving no channel is sent on or closed after its close, a taken request has exactly one response once its handler sent, and when Serve has returned each one was received by the sender |
| `Conn.NeverStuck` | conn.go:94-203 | some goroutine can go on by itself unless Serve has returned or the connection waits idly for its peer |
| `Conn.WorkShrinks` | conn.go:94-203 | after cancellation or a read error every step uses up some of a bounded amount of work |
| `Conn.ShutdownEnds` | conn.go:31-203 | after cancellation or a read error every run ends within a number of steps known at that moment, and while Serve has not returned some goroutine, a handler included, can go on |
| `Conn.HungHandlerBlocksServe` | conn.go:111-123 | a handler that never sends keeps Serve from returning for ever |
| `Conn.ReturnsUnlessHung` | conn.go:31-43 | where a shutdown comes to rest, Serve has returned exactly if no handler hangs |

## Left out

- File system operations behind `vfs`, and the handlers that only pass through to them: an operation is its status and its result bytes.
- worker/cache.go: it promises only bounded staleness.
- Termination of the random searches for a free index: the index found is a parameter.
- Clocks, tickers and time-outs as such: times are parameters.
- Sockets, the accept loop, the port check, logging, and the md5 of the client address: a session is a key.
- Floating-point codecs, attribute names and operation names.
- In XDR, nil and empty slices are one value, a union holds only the arm its mode selects, decoding starts from a zero target, and each field declaration has one name.
- The type switch of Encode and Decode beyond its branches that differ from reflection: `[]uint32` and `[]string` are modelled, `[]byte` and scalars are their reflective cases.
- SlotRaces.RunSerial: the three checks are one action and the two assignments of the claim another; data races within them are not modelled.
- Slots.InSequence: requests one after the other; overlapping ones are in SlotRaces.
- Slots.NotTwice: requests one after the other; overlapping ones are in SlotRaces.
- Slots.NewSessionInSequence: each slot's requests one after the other; overlapping ones are in SlotRaces.
- SlotRaces.TwiceExactlyIf: runs in which a request with number 0 is let through before any other has run are left out; SlotRaces.ZeroSetsBack is one.
- Opens.Open: nobody comes between its two lock regions; OpenRaces has them apart.
- Opens.Close: nobody comes between its two lock regions; OpenRaces has them apart.
- Opens.RunUnique: OPENs one after the other; overlapping ones are in OpenRaces.
- Opens.RepeatedOpen: OPENs one after the other; overlapping ones are in OpenRaces.
- Opens.RepeatedOpen41: OPENs one after the other; overlapping ones are in OpenRaces.
- CompoundInput.CutCompoundSticks: an operation reads its arguments at one type, or none; what a handler reads beyond that is not modelled.
- ReadDir.WalkVisitsAll: no lister of another directory takes the index of a lost one; ReadDir.TakenOver says what happens then.
- Slots.CacheIsAllReplies: runs of requests one after the other, without DESTROY_SESSION among their operations.
- Compound.RunSequence: no other request uses the slot meanwhile, and no operation releases its buffer; SlotRaces and Sessions.DestroyedMeanwhile say what happens otherwise.
- Compound.RunOperations: says nothing where the compound never returns.
- Clients.Clients.RemoveExpiredClients: the return of the slots' buffers to the pool is Sessions.PutAll for each session, not part of this contract.
- ClientLaws.RunValid: a count reaches the record that is in the table under the client's id; counts on a client that has left the table are in Server.
- Attrs.FileInfoToAttrs: the four attributes that are commented out of the supported list are not written.
- ReadDir.Directory.ReadDir: attributes of an entry are given bytes, and handle errors and the cache are not modelled.
- Conn.ShutdownEnds: ServeLinear, which has no goroutines, is not modelled.
- Rpc.ReceiveCall: after the panic on a header longer than its record nothing is modelled.
- Bufpool.Buf.Copy: two buffers that share one array, which the code never makes, are not modelled.
