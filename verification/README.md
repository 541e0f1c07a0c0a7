# Binder service manager, wait queue device and RAM disks: a verified model

Three parts of the repository are modelled and proved.

**The binder user-space stack** (`binder/`). Layer by layer:

- `Bytes`, `BioFormat`, `Marshalling` describe messages as values: what the `bio_put_*` calls write, what the
  `bio_get_*` calls read, the 4-byte rounding with its 32-bit wrap-around, the offset table, sticky overflow.
- `Bio` is `struct binder_io` over a byte array with its two cursors. Every method is proved to do what `BioFormat` says,
  so the lemmas of `Marshalling` (layout, exact capacity, round trip, containment) hold of the bytes in memory.
- `Registry` describes the service list and the commands written to the driver, and the invariants of both:
  distinct names, reference balance, cookies that resolve. `ServiceManager` is the linked list itself, with
  `find_svc`, `svcinfo_death`, `do_find_service`, `do_add_service` and `svcmgr_handler`.
- `WireFormat` fixes the numbers: command codes and payloads word by word, the bytes of objects, strings and words, the
  service codes and the interface name, each written out as the headers have them.
- `Stream` is the driver's command stream, `Dispatch` the effect of each command, `Parser` the loop `binder_parse`.
- `EndToEnd` relates runs to a table from names to services: messages built with the put calls are answered as the table
  would answer them, as read by the clients' own get calls. `History` says what the table's answers are in terms of the
  calls made before. Pings, requests to another interface or with an unknown code, and requests to another object are
  among the events of these theorems.
- `Arrivals` and `Server` join all of this on the heap: `Server.BinderLoop` is the reading loop of `binder_loop` over the
  words and memory that the driver delivers, calling `binder_parse` on the linked list. When what arrives means a list of
  requests and deaths, the list ends as the table they lead to, and the replies in the log decode to the table's answers.
- `Client` is the calling side, `binder_call` and `binder_done`. `ReplyBuffers` plays any number of calls, each followed
  by arbitrary gets and dones on the reply, and accounts for the buffers freed in the log. `Lookup` is `svcmgr_lookup`
  (lines 18-40 of binder/test_client.c): its message is one of those `EndToEnd` speaks of, exactly for names of up to 213
  characters and those of 2^29 or more, which are sent as NULL (`Lookup.LookupMessage`), and one lookup sends it once,
  acquires the handle it reads if that is not 0, and frees the reply buffer once (`Lookup.SvcmgrLookup`).

**The wait queue device** (`waitqueue/waitqueue.c`), module `WaitQueue`: a transition system in which any number of
readers and writers interleave, one shared access per step, with copies that may fault anywhere.

**The RAM disk request loops** (`ramdisk-lab/`). `BlockIo` describes segmented requests as values and relates them to
a flat store; `RamDisk` has the three drivers' loops over real arrays, each proved to compute what `BlockIo` says.

The 32-bit build is modelled: pointers, `size_t` and `binder_size_t` are 4 bytes, `flat_binder_object` is 16 and
`binder_transaction_data` 40 bytes. What the outside decides is a parameter: `Env` gives, for each transaction, the
address `malloc` returns and the old contents of the reply buffer on the stack; the bytes and offsets of a transaction
are those the driver mapped; the read `ioctl`s of a loop deliver a finite list of arrivals, each with the mapped memory
and the words read, and then fail.

Where the code does something a reader may not expect, the model follows the code, and a lemma says exactly when:

- A reference to handle 0 is written without an entry in the offset table, so no getter accepts it: a batch is read back
  if and only if it contains none (`Marshalling.RoundTrip`).
- A listed name is only readable up to 117 characters, although names of 127 can be registered
  (`EndToEnd.ListedReads`).
- `sampleblk_request` completes every request with the status that the last request with a segment or beyond the end
  left (`BlockIo.StatusOfRequest`, with an instance in `BlockIo.StaleStatus`); `BlockIo.DriversAgree` has the exact
  condition under which that is the request's own status.
- Of the replies in one stream only the first is held by the caller, and none if the stream fails later: the buffers freed
  are those delivered if and only if every call's deciding stream has no reply, or a single one that decides it
  (`ReplyBuffers.PlayRounds`, with an instance in `ReplyBuffers.SecondReplyIsLost`).
- Registering a name again changes its handle but not its `allow_isolated`, and a late death notice of the old
  service silences the new one (`History.LookupHistory`).

## Model

| member | source | states |
|---|---|---|
| `Bio.BinderIo.Init` | binder/binder.c:497-514 | the table takes the first 4*maxoffs bytes and the data area the rest; when the table does not fit only the counters and the overflow flag are set and all five pointers stay |
| `Bio.BinderIo.InitFromTxn` | binder/binder.c:488-495 | the reader sees exactly the transaction's bytes and its offsets_size/4 offsets, and is marked shared |
| `Bio.BinderIo.BioAlloc` | binder/binder.c:516-528 | NULL exactly when the rounded size exceeds what is left, and then only the flag changes; otherwise the cursor advances by the rounded size |
| `Bio.BinderIo.BioAllocObj` | binder/binder.c:547-561 | NULL exactly when data or table room is missing (data room may be consumed even so); otherwise one table entry names the new object |
| `Bio.BinderIo.PutUint32` | binder/binder.c:563-568 | the bytes in memory are those of the value-level put, overflow included |
| `Bio.BinderIo.PutObject` | binder/binder.c:570-582 | the same for a binder object and its table entry |
| `Bio.BinderIo.PutReference` | binder/binder.c:584-600 | the same for a handle; handle 0 takes no table entry |
| `Bio.BinderIo.PutStr16` | binder/binder.c:602-626 | the same for a C string, a null pointer, or a string too long to send |
| `Bio.BinderIo.PutStr16x` | binder/binder.c:628-655 | the copying loop of 8-bit characters stores the same bytes as the 16-bit put of the widened string |
| `Bio.BinderIo.BioGet` | binder/binder.c:657-671 | returns a pointer to the next bytes, all inside the message, or NULL, leaving nothing to read |
| `Bio.BinderIo.GetUint32` | binder/binder.c:673-677 | the next word of the message, 0 on failure |
| `Bio.BinderIo.GetStr16` | binder/binder.c:679-688 | the stored length and the characters behind the pointer, with the wrap-around of (len + 1) * 2 |
| `Bio.BinderIo.BioGetObj` | binder/binder.c:690-704 | an object only where the cursor stands on an offset of the table; otherwise a failure |
| `Bio.BinderIo.GetReference` | binder/binder.c:706-718 | the handle of the object at the cursor, 0 if there is none or it is of another type |
| `BioFormat.CString` | binder/binder.c:612-613 | the characters before the first NUL |
| `WireFormat.LowestByteFirst` | binder/binder.c:563-568 | words and characters are stored lowest byte first |
| `WireFormat.CommandWords` | binder/include/linux/binder.h:141-165 | every command as its literal words: ioctl code and payload fields in order |
| `WireFormat.ObjectFields` | binder/binder.c:578-599 | a stored object has its type, the flags 0x17f, the pointer or handle, and cookie 0 in its four words |
| `WireFormat.NullStrings` | binder/binder.c:607-618 | a null string is the word 0xffffffff alone, and so is a string exactly from 2^29 characters on |
| `WireFormat.ServiceNumbers` | binder/binder.h:30-42 | the handle 0, the ping code and the codes 1 to 4, and the interface name as a string |
| `WireFormat.ReplyCapacity` | binder/binder.c:312-317 | a reply holds exactly up to 240 bytes and 4 objects |
| `WireFormat.TextNeeds` | binder/binder.c:679-688 | a string is read exactly when the message has the bytes its length word asks for, counted modulo 2^32, and the cursor moves over them |
| `Marshalling.PutExtends` | binder/binder.c:516-655 | one put appends: earlier data and table entries stay, used plus free is constant in both areas, overflow stays set |
| `Marshalling.BatchLayout` | binder/binder.c:497-600 | any batch of puts, fitting or not, keeps the layout: aligned ascending offsets, 16 bytes apart, each naming a whole stored object |
| `Marshalling.PutCapacity` | binder/binder.c:516-655 | one put overflows exactly when its size or its table entry does not fit, and otherwise takes exactly that much |
| `Marshalling.BatchCapacity` | binder/binder.c:516-655 | a batch overflows exactly when its total size or its number of recorded objects exceeds what is left |
| `Marshalling.InitCapacity` | binder/binder.c:497-528 | from a clean bio_init: the exact capacity in bytes and objects |
| `Marshalling.OverflowIsSticky` | binder/binder.c:519-521 | no later put clears the overflow flag |
| `Marshalling.ReadOne` | binder/binder.c:547-717 | the getter matching a put returns the put's value from the finished message and stands after it |
| `Marshalling.NullRefUnreadable` | binder/binder.c:588-591 | handle 0 is never read back as an object, whatever is put after it |
| `Marshalling.RoundTrip` | binder/binder.c:413-416 | a batch that did not overflow is read back value by value, with nothing left and no failure, if and only if it holds no null reference |
| `Marshalling.ReadBack` | binder/binder.c:547-717 | the same from the middle of a message |
| `Marshalling.ReadContained` | binder/binder.c:657-717 | one get on arbitrary bytes stays inside the message and moves forward; after a failure it returns 0 or NULL and moves nothing |
| `Marshalling.GetsContained` | binder/binder.c:657-717 | the same for any sequence of gets, and every string they return is a slice of the message |
| `Marshalling.FailureIsSticky` | binder/binder.c:661-664 | after one failure every later get fails |
| `Registry.AddKeeps` | binder/service_manager.c:160-210 | adding, overriding or refusing keeps names distinct, references balanced and never over-released, cookies resolvable; no node is removed, renamed or moved |
| `Registry.DieKeeps` | binder/service_manager.c:117-126 | a death, stale or not, keeps the same invariants |
| `Registry.IsolatedIsLastThousand` | binder/service_manager.c:149-151 | of the 100000 uids of a user exactly the last 1000 count as isolated |
| `Registry.AddLog` | binder/service_manager.c:170-209 | exactly what an add writes: the old handle released if the service was alive, the new one acquired, and its death asked for under this handle and the node's cookie; a refused one writes nothing |
| `Registry.AddReports` | binder/service_manager.c:179-208 | adding or overriding keeps that the death of every live service has been asked for, under its own handle and cookie |
| `Registry.AddCookies` | binder/service_manager.c:187-208 | an add keeps cookies and nodes matched in both directions: every cookie handed out has a node, every node has had its death asked for |
| `Registry.OverrideKeeps` | binder/service_manager.c:180-186 | an override lets go of the old handle and holds the new one: the balance of every handle is kept |
| `Registry.Find` | binder/service_manager.c:104-115 | the first entry with this name, or the length of the list |
| `Registry.Malloc` | binder/service_manager.c:188-193 | an address that no node has, or NULL |
| `Stream.DecodeEncode` | binder/binder.c:268-358 | the parser's reading of any encoded command list, whatever follows it, is that list and then what follows |
| `Stream.StreamEnds` | binder/binder.c:275-356 | a stream cut inside a transaction or reply, or running into an unknown command, yields exactly the commands before it; a reference command cut short is skipped as if it were whole |
| `Stream.UnknownWords` | binder/binder.c:274-356 | a word is an unknown command exactly when it is none of the twelve codes |
| `Stream.ResultOfStream` | binder/binder.c:265-360 | the result is 1 exactly for a whole stream without a status, 0 exactly for a whole one whose last status is a reply, and otherwise -1 |
| `Stream.LastStatusDecides` | binder/binder.c:339-353 | the result is given by the last reply, failed reply or dead reply; 1 without any |
| `Stream.FirstReplyIsFirst` | binder/binder.c:332-335 | the reply that fills the caller's binder_io is the first one, and there is none only if no reply came |
| `ServiceManager.ServiceManager.FindSvc` | binder/service_manager.c:104-115 | the walk over the linked nodes stops at the node of the first entry with that name |
| `ServiceManager.ServiceManager.SvcInfoDeath` | binder/service_manager.c:117-126 | releases the handle and sets it to 0, once, in the node itself; all other nodes stay |
| `ServiceManager.ServiceManager.DoFindService` | binder/service_manager.c:134-158 | the handle of the name, 0 when absent, dead, or refused to an isolated process |
| `ServiceManager.ServiceManager.DoAddService` | binder/service_manager.c:160-210 | list, log and result are those of Registry.Add, and the linked list stays well formed |
| `ServiceManager.ServiceManager.OverrideSvc` | binder/service_manager.c:180-186 | an override releases the old handle, if any, and stores the new one in place |
| `ServiceManager.ServiceManager.NewSvc` | binder/service_manager.c:187-203 | the new node is the head; its death record points back to it; the others are untouched |
| `ServiceManager.ServiceManager.WalkList` | binder/service_manager.c:283-286 | the n-th node, or NULL exactly when there is none |
| `ServiceManager.ServiceManager.HandleFind` | binder/service_manager.c:251-261 | answers with a reference, or with the word 0 when there is no handle |
| `ServiceManager.ServiceManager.HandleAdd` | binder/service_manager.c:263-273 | reads name, handle and flag, and answers 0 or refuses with -1 |
| `ServiceManager.ServiceManager.HandleList` | binder/service_manager.c:275-291 | answers with the name at that index, as a C string, or refuses with -1 |
| `ServiceManager.ServiceManager.SvcmgrHandler` | binder/service_manager.c:212-299 | on any message bytes: list, log, result and reply bytes are those of Dispatch.Handle |
| `ServiceManager.BinderState.BinderAcquire` | binder/binder.c:363-369 | appends one acquire to the log |
| `ServiceManager.BinderState.BinderRelease` | binder/binder.c:371-377 | appends one release |
| `ServiceManager.BinderState.BinderLinkToDeath` | binder/binder.c:379-390 | appends one request for a death notice with that cookie |
| `Dispatch.HandleKeeps` | binder/service_manager.c:212-299 | no message, however malformed, breaks the invariants of list and log |
| `Dispatch.RefusedChangesNothing` | binder/service_manager.c:227-298 | the handler returns 0 or -1; when it refuses, list, log and reply are unchanged; only a registration changes the list |
| `Dispatch.UnreadableAddIsRefused` | binder/service_manager.c:237-272 | a registration whose header, name or handle cannot be read is refused and leaves no trace |
| `Dispatch.StepKeeps` | binder/binder.c:304-347 | every driver command keeps the invariants and only appends to the log |
| `Dispatch.RunKeeps` | binder/binder.c:262-361 | so does every run: acquires minus releases of a handle is the number of entries with it, at no point of the log negative; old entries keep name, flag and index from the end |
| `Dispatch.RunCookies` | binder/binder.c:262-361 | so does every run, with or without a handler |
| `Dispatch.RunReports` | binder/service_manager.c:207-208 | over any run the death of every live service has been asked for, under its own handle and cookie |
| `Dispatch.DeathsResolve` | binder/binder.c:342-346 | after any run every cookie ever handed to the driver belongs to a node of the list |
| `Dispatch.RunReplies` | binder/binder.c:179-210 | the frees and replies in the log of a run are those of its transactions, in order |
| `Dispatch.ReplyDiscipline` | binder/binder.c:304-324 | over any run each transaction gets its own buffer freed once and one reply, in order, whatever the handler returned |
| `Dispatch.MessageArrives` | binder/binder.c:488-494 | when the driver has put a message's bytes and its offsets, as words, where the transaction says, the receiver reads from its start with all its bytes and all its offsets |
| `Dispatch.RunSplit` | binder/binder.c:268-358 | serving two command lists one after the other is serving their concatenation |
| `Parser.CookieResolves` | binder/binder.c:342-345 | a cookie that was requested has a node to be called with |
| `Parser.CallDeath` | binder/binder.c:342-347 | the callback through the cookie runs svcinfo_death on its node |
| `Parser.SendReply` | binder/binder.c:179-211 | one free of the buffer, then one reply: the status if not 0, else exactly the bytes and offsets built |
| `Parser.ServeTransaction` | binder/binder.c:304-321 | a transaction runs the handler once on its own bytes with an empty reply of 240 bytes and 4 offsets, and answers it |
| `Parser.DispatchCommand` | binder/binder.c:269-357 | one turn of the loop consumes exactly the decoded command, with its effect, its status, and the first reply for the caller |
| `Parser.BinderParse` | binder/binder.c:262-361 | the loop ends, has the effect of the decoded commands in order, returns the last status (1 if none, -1 on a cut or unknown command), fills the caller's binder_io from the first reply only, and keeps all invariants |
| `EndToEnd.LookupIsTable` | binder/service_manager.c:134-158 | looking up in the list is looking up in the table |
| `EndToEnd.AddIsTable` | binder/service_manager.c:160-210 | adding to the list is adding to the table: a new name with its flag, or only a new handle |
| `EndToEnd.DieIsTable` | binder/service_manager.c:117-126 | a death sets the handle of its name to 0 in the table |
| `EndToEnd.ReadHeader` | binder/service_manager.c:237-247 | the handler's gets pass the header of a message built by a client and stand before the arguments |
| `EndToEnd.ListedReads` | binder/service_manager.c:286-288 | a listed name is readable in the 256-byte, 4-offset reply exactly up to 117 characters |
| `EndToEnd.NameIsCompared` | binder/service_manager.c:238-247 | the interface name of a message passes exactly when it is, length and all, that of the service manager |
| `EndToEnd.Checks` | binder/service_manager.c:227-298 | with that name each of the four codes meets its case; any other code, or any other name, is refused |
| `EndToEnd.RefusedAgrees` | binder/service_manager.c:227-246 | a ping is answered with 0 and an empty reply, a foreign or unknown request with -1, and nothing changes |
| `EndToEnd.UnreadAgrees` | binder/service_manager.c:227-231 | so it is with a ping and with a request to another object whatever their message is |
| `EndToEnd.FoundReads` | binder/service_manager.c:257-261 | a lookup's reply decodes through bio_get_ref to the handle, and to 0 if there is none |
| `EndToEnd.FindAgrees` | binder/service_manager.c:251-261 | a lookup request is answered as the table answers |
| `EndToEnd.AddAgrees` | binder/service_manager.c:263-273 | a registration request changes and answers as the table does |
| `EndToEnd.ListAgrees` | binder/service_manager.c:275-291 | a listing request is answered from the order of first registrations |
| `EndToEnd.CallAgrees` | binder/service_manager.c:212-299 | for every message built by a client: new list and decoded reply are those of the table |
| `EndToEnd.ServeAgrees` | binder/binder.c:312-320 | serving a transaction that carries a request, delivered byte by byte, does to the list and answers what the table says |
| `EndToEnd.StepAgrees` | binder/binder.c:304-347 | one command does to the list what its event does to the table |
| `EndToEnd.RunAgrees` | binder/binder.c:262-361 | the same over any run from any state that keeps the invariants |
| `EndToEnd.EndToEnd` | binder/service_manager.c:134-299 | from an empty list: after any command list of requests, pings, foreign and stray requests, deaths and silent commands the list is the table, and all replies in the log decode to the table's answers, in order |
| `Server.CarriedIsMapped` | binder/binder.c:304-318 | a request that means something lies wholly in the mapped memory |
| `Server.MeaningIsSafe` | binder/binder.c:268-358 | a stream that means a list of events is one binder_parse can serve: what it asks of the driver follows from the meaning |
| `Server.ServeArrival` | binder/binder.c:465-476 | one turn of the loop serves the commands read, on the linked list |
| `Server.BinderLoop` | binder/binder.c:464-485 | the reading loop over all that arrives: the linked list ends as the table that the requests and deaths lead to, and the new replies in the log decode to the table's answers, in order; it stops at the first stream with a status or an unreadable end |
| `History.LookupHistory` | binder/service_manager.c:134-203 | a lookup is answered with the handle of the last accepted registration unless the service died since, else 0; a caller among the last 1000 of its user's 100000 uids gets 0 unless the first registration of the name let such callers in |
| `History.RegistrationHistory` | binder/service_manager.c:170-193 | a registration is accepted exactly with a nonzero handle, a name of 1 to 127 characters, and memory if the name is new |
| `History.ListingHistory` | binder/service_manager.c:275-290 | indices 0, 1, 2, ... walk every name ever registered once, newest first, until -1; counted from the end an index never changes its name |
| `History.RunExplains` | binder/service_manager.c:179-203 | the table is determined by the record of calls and answers |
| `Arrivals.ServedIsPrefix` | binder/binder.c:464-485 | a reading loop serves all commands up to the first stream with a status or an unreadable end, that one included |
| `Client.BinderCall` | binder/binder.c:392-444 | an overflowed message is not sent, any other goes to that target with that code; the caller gets a filled reply exactly when the arrivals bring one, otherwise a cleared binder_io marked as failed; deaths arriving meanwhile are served, nothing else changes |
| `Client.AwaitReply` | binder/binder.c:423-438 | the reading loop ends with the first stream that decides the call, or a failing ioctl |
| `Client.ParseArrival` | binder/binder.c:424-437 | one read of the call: the result of the stream, its first reply in the caller's binder_io, the deaths in it served |
| `Client.BinderDone` | binder/binder.c:530-545 | frees the reply buffer if it is held, once, and forgets it |
| `ReplyBuffers.BuildMessage` | binder/binder.c:497-655 | bio_init on 512 bytes and 4 offsets and any list of puts: the message in memory is that of the value-level batch, and overflows exactly beyond the capacity |
| `ReplyBuffers.UseReply` | binder/binder.c:530-545 | any mix of gets and dones on a reply frees its buffer once if there is a done and the buffer is held, and otherwise nothing |
| `ReplyBuffers.PlayRound` | binder/binder.c:392-545 | one call with its uses: the log frees the held buffer, once, if there is a done, and nothing after a failed or overflowed call |
| `ReplyBuffers.PlayRounds` | binder/binder.c:392-545 | any number of calls on real messages and replies: the buffers freed in the log are those delivered, each once and in order, if and only if every round is tidy |
| `ReplyBuffers.EveryReplyIsFreedOnce` | binder/binder.c:325-341 | the account on values: a round is tidy exactly when the call loses no reply and a delivered one is met by a done |
| `ReplyBuffers.CallHolds` | binder/binder.c:325-353 | the buffer held after a call is the first of those delivered, and the only one if and only if the deciding stream has no reply or a single one that decides it |
| `ReplyBuffers.SecondReplyIsLost` | binder/binder.c:332-337 | of two replies in one stream the second buffer is delivered and not held |
| `WaitQueue.StepInv` | waitqueue/waitqueue.c:35-67 | every step of every process keeps mutual exclusion, the account of bytes and the announcement of unread bytes |
| `WaitQueue.StepConserved` | waitqueue/waitqueue.c:40-59 | a store, whole or faulting with partial garbage, happens behind the unread bytes; a read takes exactly them |
| `WaitQueue.ExactlyOnceInOrder` | waitqueue/waitqueue.c:40-59 | in every reachable state delivered bytes followed by unread bytes are the accepted bytes, and at most one process is in a critical section |
| `WaitQueue.NoLostWakeUp` | waitqueue/waitqueue.c:38-64 | unread bytes with no writer in flight: the flag is set, no reader sleeps unless about to be woken, and a reader at its check goes on |
| `WaitQueue.FlagHistory` | waitqueue/waitqueue.c:38-62 | over any run the flag is up exactly when a writer has set it since the last read put it back; a reader at its check goes on or sleeps accordingly |
| `WaitQueue.OnlyTheFlagLetsIn` | waitqueue/waitqueue.c:38-39 | no reader gets past the wait but from its check with the flag up |
| `WaitQueue.InterruptedRead` | waitqueue/waitqueue.c:38-39 | a signal takes a sleeping reader, and no other process, out of the call, and nothing else changes |
| `WaitQueue.WriteCompletes` | waitqueue/waitqueue.c:52-67 | a write that finds the lock free and room can run to its end; then its bytes are unread behind the others, the flag is up and all sleepers are awake |
| `WaitQueue.FaultedWrite` | waitqueue/waitqueue.c:54-58 | a write whose copy faults publishes and announces nothing, whatever garbage it leaves |
| `WaitQueue.FaultedRead` | waitqueue/waitqueue.c:40-45 | a read whose copy faults changes nothing but its own position |
| `WaitQueue.ReaderDrains` | waitqueue/waitqueue.c:38-49 | such a reader can run to its end, and then every accepted byte has been delivered and the flag is down |
| `WaitQueue.CanDrain` | waitqueue/waitqueue.c:38-64 | from every state of the invariant with unread bytes and a reader at its check or asleep, whoever holds the lock: some run delivers every byte accepted by then |
| `WaitQueue.ReachableCanDrain` | waitqueue/waitqueue.c:38-64 | so no reachable state is a dead end for its unread bytes |
| `BlockIo.TransferIsFlat` | ramdisk-lab/ramhd_mkreq.c:111-138 | however a request is split, a write stores its bytes at its place and nothing else, and a read delivers the bytes from there |
| `BlockIo.DiskIsLastWritten` | ramdisk-lab/ramhd_mkreq.c:111-138 | over any run every byte of the disk is the last one written to it, or the initial one |
| `BlockIo.ReadsSeeLastWrites` | ramdisk-lab/ramhd_mkreq.c:111-138 | a read anywhere in a run returns, byte by byte, what was last written before it |
| `BlockIo.RequestBytes` | ramdisk-lab/ramhd_mkreq.c:111-138 | one request byte by byte: accepted exactly when its 512-byte sectors end inside the disk; a write puts each byte at its place and a read gets it from there, nothing else changes; otherwise -5 and nothing changes |
| `BlockIo.RejectedChangeNothing` | ramdisk-lab/sample_blk.c:80-87 | requests beyond the end complete with -EIO, keep their buffers, and the disk is what the others alone make of it |
| `BlockIo.StatusOfRequest` | ramdisk-lab/sample_blk.c:67-103 | every request completes with 0 or -EIO as the last request up to it that was rejected or had a segment was in range or not, and with the initial status if there was none |
| `BlockIo.StaleStatus` | ramdisk-lab/sample_blk.c:67-103 | an in-range request without segments right after a rejected one is reported as failed |
| `BlockIo.CheckedLoopsAgree` | ramdisk-lab/ramhd_mkreq.c:111-138 | the two checked loops leave the same disk and the same buffers, whatever the requests |
| `BlockIo.UncheckedLoopAgrees` | ramdisk-lab/ramhd_req.c:126-140 | so does the loop without a range check when all requests are in range |
| `BlockIo.DriversAgree` | ramdisk-lab/sample_blk.c:74-106 | all three agree, and the two checked loops report the same statuses if and only if no in-range request without segments meets a leftover failure |
| `RamDisk.HandleIo` | ramdisk-lab/sample_blk.c:49-62 | copies one segment to or from its place and touches nothing else |
| `RamDisk.ForEachSegment` | ramdisk-lab/sample_blk.c:89-100 | the segment loop over separate pieces of memory is the transfer of their contents |
| `RamDisk.SampleblkOne` | ramdisk-lab/sample_blk.c:80-103 | range check, segments, status for one request |
| `RamDisk.SampleblkRequest` | ramdisk-lab/sample_blk.c:64-107 | the loop over the queue: final disk, all buffers and all statuses are those of the value-level run |
| `RamDisk.MakeRequest` | ramdisk-lab/ramhd_mkreq.c:100-140 | range check, segments and bio_endio status for one bio |
| `RamDisk.ChunkDone` | ramdisk-lab/ramhd_req.c:128-139 | completing a chunk advances the sector cursor so that the rest of the request lands where it should |
| `RamDisk.RamhdReqFunc` | ramdisk-lab/ramhd_req.c:120-141 | the chunk-at-a-time loop ends, and leaves the disk and all buffers as if the requests had been served one after the other |

## Left out

- System calls and threads: `binder_open`, `binder_close`, mmap and ioctl plumbing, entering and registering loopers; a loop ends when the read ioctl fails; BR_SPAWN_LOOPER is skipped, the thread it starts is not modelled.
- Logging, `hexdump`, `binder_dump_txn`, `str8`, `str16eq` and the permission stubs, which always allow; names handed to them are not computed.
- The driver's translation of binder objects into handles: a put binder object reads back as handle 0, clients register nonzero handles with `bio_put_ref`.
- Registering through `svcmgr_publish` of test_server.c, since it needs that translation; the message without its allow_isolated word, as it sends it, is covered by `EndToEnd`.
- Function pointers: the handler is `svcmgr_handler` or none, and every death callback is `svcinfo_death`; the map `deaths` stands for the memory behind death cookies.
- The mapped memory does not change while one stream is parsed or a reply is read, and its addresses count from the start of the mapping.
- Bio.BinderIo.GetStr16: a returned string is the value of the characters, not a pointer a caller could write through.
- Parser.BinderParse: a stream that ends right after the word BR_DEAD_BINDER is excluded, since the code reads past it; a reference command cut at the end of the stream is skipped as in the code. Read buffers are word arrays.
- Parser.DispatchCommand: a death notice with a cookie that was never handed out is excluded, since the code would call through it.
- Client.BinderCall: there are finitely many arrivals before the ioctl fails; the log has the message even if the first ioctl fails, since it records what is handed to the driver. The process's own list of death records is a parameter, empty for a plain client.
- Server.BinderLoop: the reading loop only, without the command that enters the looper; the memory changes between arrivals, but not while one is parsed.
- ReplyBuffers.PlayRounds: the strings put into messages have no NUL inside; the reply struct is one and the same for all rounds.
- The bytes of a status reply are carried as the status, and other fields of a written transaction (flags, cookie) not at all.
- WaitQueue.StepInv: processes are values of a transition system, not threads over shared memory; the test of the flag and falling asleep are one step, as the kernel macro queues the reader before its test; accesses to the flag are sequentially consistent; a write that gets the lock has room and user buffers are large enough, since the module checks neither; the array's length is a parameter.
- RamDisk.ForEachSegment: the segments that a read fills are separate pieces of memory, and in no other request of the queue; a write may name the same memory more than once.
- RamDisk.RamhdReqFunc: requires requests in range made of whole nonempty sectors, since this driver has no check.
- 64-bit wrap-around of positions on the RAM disks, page mapping, cache flushing, locks of the request queue, registration with the block layer.
- The hlist, epoll, char, debugfs, seq_file and other kernel API demonstrations, and `fs_config`: they would only add easy members.
