/** What becomes of the reply buffers: calls, arbitrary gets and binder_done, over real binder_ios. */
module ReplyBuffers {
  import opened Bytes
  import opened BioFormat
  import opened Registry
  import opened Stream
  import opened Dispatch
  import opened Bio
  import opened ServiceManager
  import opened Parser
  import opened Arrivals
  import opened Client
  import opened Marshalling
  import Lookup

  /** What a client may do with a reply. */
  datatype Use = GetWord | GetText | GetHandle | Done

  /** A message of 512 bytes with room for 4 objects, the call, what the driver delivers, and uses of the reply. */
  datatype Round = Round(items: seq<Item>, target: u32, code: u32, arrivals: seq<Arrival>, uses: seq<Use>)

  const MAX_OBJECTS := 4

  /** The message is sent only if it fits. */
  predicate Fits(items: seq<Item>) {
    TotalSize(items) <= Lookup.IODATA_SIZE - 4 * MAX_OBJECTS && RecordedCount(items) <= MAX_OBJECTS
  }

  predicate CStrings(items: seq<Item>) {
    forall i | 0 <= i < |items| && items[i].Str? :: 0 !in items[i].s
  }

  /** The buffers that a log frees, in order. */
  function Freed(log: seq<Command>): (buffers: seq<u32>) {
    if log == [] then []
    else
      var c := log[|log| - 1];
      Freed(log[..|log| - 1]) + (if c.FreeBuffer? then [c.buffer] else [])
  }

  /** The buffers of all replies among these commands. */
  function Buffers(cmds: seq<Cmd>): (buffers: seq<u32>) {
    if cmds == [] then [] else (if cmds[0].Reply? then [cmds[0].txn.buffer] else []) + Buffers(cmds[1..])
  }

  /** Every reply buffer that the driver hands over during a call. */
  function DeliveredBy(arrivals: seq<Arrival>): (buffers: seq<u32>) {
    if arrivals == [] then []
    else
      var words := arrivals[0].words;
      Buffers(Decode(words).cmds) + (if ParseResult(words) > 0 then DeliveredBy(arrivals[1..]) else [])
  }

  function DeliveredIn(r: Round): (buffers: seq<u32>) { if Fits(r.items) then DeliveredBy(r.arrivals) else [] }

  function Delivered(rounds: seq<Round>): (buffers: seq<u32>) {
    if rounds == [] then [] else Delivered(rounds[..|rounds| - 1]) + DeliveredIn(rounds[|rounds| - 1])
  }

  /** The buffer that the caller holds after binder_call. */
  function Held(arrivals: seq<Arrival>): (buffers: seq<u32>) {
    var r := CallResult(arrivals);
    if r.Some? then [r.value.1.buffer] else []
  }

  function FreedIn(r: Round): (buffers: seq<u32>) {
    if Fits(r.items) && Done in r.uses then Held(r.arrivals) else []
  }

  function FreedBy(rounds: seq<Round>): (buffers: seq<u32>) {
    if rounds == [] then [] else FreedBy(rounds[..|rounds| - 1]) + FreedIn(rounds[|rounds| - 1])
  }

  // ---------- when every delivered buffer is freed ----------

  /** The stream has no reply, or one, which decides the call. */
  predicate SingleReply(words: seq<u32>) {
    var d := Decode(words);
    Buffers(d.cmds) == [] || (|Buffers(d.cmds)| == 1 && d.end == Finished && EndsInReply(d.cmds))
  }

  /** So it is with the first stream that decides the call, if there is one. */
  predicate NoneLost(arrivals: seq<Arrival>) {
    arrivals == [] || (if Undecided(arrivals[0].words) then NoneLost(arrivals[1..]) else SingleReply(arrivals[0].words))
  }

  /** A sent call loses no buffer, and if it got one the client is done with it at some time. */
  predicate Tidy(r: Round) {
    Fits(r.items) ==> NoneLost(r.arrivals) && (DeliveredBy(r.arrivals) == [] || Done in r.uses)
  }

  lemma {:induction false} FirstIsAmong(cmds: seq<Cmd>)
    ensures FirstReply(cmds).Some? <==> Buffers(cmds) != []
    ensures FirstReply(cmds).Some? ==> Buffers(cmds)[0] == FirstReply(cmds).value.buffer
    ensures (forall i | 0 <= i < |cmds| :: !IsStatus(cmds[i])) ==> Buffers(cmds) == []
  {
    if cmds != [] {
      FirstIsAmong(cmds[1..]);
    }
  }

  /** A stream that decides the call: what is held of it, and what it delivers. */
  lemma DecidedHolds(a: Arrival, held: seq<u32>)
    requires ParseResult(a.words) <= 0
    requires held == if ParseResult(a.words) == 0 && ReplyIn(a).Some? then [ReplyIn(a).value.1.buffer] else []
    ensures held <= Buffers(Decode(a.words).cmds)
    ensures held == Buffers(Decode(a.words).cmds) <==> SingleReply(a.words)
  {
    ResultOfStream(a.words);
    FirstIsAmong(Decode(a.words).cmds);
    if ParseResult(a.words) == 0 {
      ZeroHasReply(1, Decode(a.words).cmds);
    }
    hide Decode, FirstReply, ParseResult, Buffers, EndsInReply;
  }

  /** The held buffer is the first one delivered, and the only one exactly when none is lost. */
  lemma {:induction false} CallHolds(arrivals: seq<Arrival>)
    ensures Held(arrivals) <= DeliveredBy(arrivals)
    ensures Held(arrivals) == DeliveredBy(arrivals) <==> NoneLost(arrivals)
  {
    if arrivals != [] {
      var a := arrivals[0];
      ResultOfStream(a.words);
      FirstIsAmong(Decode(a.words).cmds);
      var undecided := ParseResult(a.words) > 0;
      assert undecided ==> Buffers(Decode(a.words).cmds) == [];
      hide Decode, ReplyIn, ParseResult, Buffers, Undecided, SingleReply, FirstReply;
      if undecided {
        CallHolds(arrivals[1..]);
      } else {
        DecidedHolds(a, Held(arrivals));
      }
    }
  }

  lemma TidyRound(r: Round)
    ensures |FreedIn(r)| <= |DeliveredIn(r)|
    ensures FreedIn(r) == DeliveredIn(r) <==> |FreedIn(r)| == |DeliveredIn(r)|
    ensures FreedIn(r) == DeliveredIn(r) <==> Tidy(r)
  {
    hide Held, DeliveredBy, NoneLost, Fits;
    CallHolds(r.arrivals);
  }

  lemma {:induction false} NoMoreFreedThanDelivered(rounds: seq<Round>)
    ensures |FreedBy(rounds)| <= |Delivered(rounds)|
  {
    if rounds != [] {
      NoMoreFreedThanDelivered(rounds[..|rounds| - 1]);
      TidyRound(rounds[|rounds| - 1]);
    }
  }

  /** Over any rounds the buffers freed are those delivered, each once and in order, exactly if all rounds are tidy. */
  lemma {:induction false} EveryReplyIsFreedOnce(rounds: seq<Round>)
    ensures FreedBy(rounds) == Delivered(rounds) <==> forall i | 0 <= i < |rounds| :: Tidy(rounds[i])
  {
    hide Tidy, FreedIn, DeliveredIn;
    if rounds != [] {
      var init, r := rounds[..|rounds| - 1], rounds[|rounds| - 1];
      EveryReplyIsFreedOnce(init);
      NoMoreFreedThanDelivered(init);
      TidyRound(r);
      Cancel(FreedBy(init), FreedIn(r), Delivered(init), DeliveredIn(r));
      assert rounds == init + [r];
    }
  }

  lemma Cancel(a: seq<u32>, b: seq<u32>, c: seq<u32>, d: seq<u32>)
    requires |a| <= |c| && |b| <= |d|
    ensures a + b == c + d <==> a == c && b == d
  {
    if a + b == c + d {
      assert |a| == |c|;
      assert a == (a + b)[..|a|] && c == (c + d)[..|a|];
      assert b == (a + b)[|a|..] && d == (c + d)[|a|..];
    }
  }

  /** With two replies in one stream the second buffer is never freed. */
  lemma SecondReplyIsLost(mem: seq<byte>, s: Txn, t: Txn)
    ensures var arrivals := [Arrival(mem, Encode([Reply(s), Reply(t)]))];
      Held(arrivals) == [s.buffer] && DeliveredBy(arrivals) == [s.buffer, t.buffer] && !NoneLost(arrivals)
  {
    hide Encode;
    var cmds := [Reply(s), Reply(t)];
    assert cmds[1..] == [Reply(t)] && [Reply(t)][1..] == [];
    StreamEnds(cmds, [], Reply(s), 0, IncRefs, []);
    assert Buffers([]) == [] && Buffers([Reply(t)]) == [t.buffer] + [];
    assert StatusFrom(0, []) == 0 && StatusFrom(0, [Reply(t)]) == 0;
    hide Decode;
    CallHolds([Arrival(mem, Encode(cmds))]);
  }

  // ---------- the calls ----------

  /** One put call. */
  method PutItem(msg: BinderIo, item: Item)
    requires msg.ValidWriter() && Fits32(msg.w) && (item.Str? ==> 0 !in item.s)
    modifies msg`data, msg`dataAvail, msg`flags, msg`w, msg`offs, msg`offsAvail, msg.buf
    ensures msg.ValidWriter() && msg.w == Put(old(msg.w), item)
  {
    match item
    case U32(n) => msg.PutUint32(n);
    case Str(s) =>
      Lookup.Terminated(s);
      assert (s + [0])[|s|] == 0;
      msg.PutStr16(Some(s + [0]));
    case NoStr => msg.PutStr16(None);
    case Ref(h) => msg.PutReference(h);
    case Obj(p) => msg.PutObject(p);
  }

  /** bio_init and then the puts; `start` is the buffer before them. */
  method BuildMessage(items: seq<Item>) returns (msg: BinderIo, ghost start: seq<byte>)
    requires CStrings(items)
    ensures fresh(msg) && msg.ValidWriter() && |start| == Lookup.IODATA_SIZE
    ensures msg.w == PutAll(Init(start, MAX_OBJECTS), items)
    ensures msg.flags.overflow <==> !Fits(items)
  {
    hide BinderIo.Valid, BinderIo.ReaderView, Put;
    var iodata := new byte[Lookup.IODATA_SIZE];
    start := iodata[..];
    assert iodata[16..Lookup.IODATA_SIZE] == start[16..];
    msg := new BinderIo.Blank();
    msg.Init(iodata, Lookup.IODATA_SIZE, MAX_OBJECTS);
    InitCapacity(start, MAX_OBJECTS, items);
    var i := 0;
    assert items[0..] == items;
    while i < |items|
      invariant i <= |items| && fresh(msg) && fresh(msg.buf) && msg.ValidWriter() && Fits32(msg.w)
      invariant PutAll(msg.w, items[i..]) == PutAll(Init(start, MAX_OBJECTS), items)
    {
      assert items[i..][1..] == items[i + 1..];
      PutExtends(msg.w, items[i]);
      PutItem(msg, items[i]);
      i := i + 1;
    }
  }

  /** Any uses of a reply: its buffer is freed by the first binder_done, and by nothing else. */
  method UseReply(bs: BinderState, reply: BinderIo, uses: seq<Use>)
    requires reply.Valid()
    modifies bs`log, reply`data, reply`dataAvail, reply`flags
    ensures reply.Valid()
    ensures bs.log == old(bs.log)
                    + (if old(reply.flags.shared) && Done in uses then [FreeBuffer(reply.data0)] else [])
  {
    hide BinderIo.ReaderView, GetRef, GetString16, GetU32;
    var i := 0;
    while i < |uses|
      invariant i <= |uses| && reply.Valid()
      invariant reply.flags.shared == (old(reply.flags.shared) && Done !in uses[..i])
      invariant bs.log == old(bs.log)
                        + (if old(reply.flags.shared) && Done in uses[..i] then [FreeBuffer(reply.data0)] else [])
    {
      assert uses[..i + 1] == uses[..i] + [uses[i]];
      match uses[i] {
        case GetWord => var n := reply.GetUint32();
        case GetText => var text := reply.GetStr16();
        case GetHandle => var handle := reply.GetReference();
        case Done => BinderDone(bs, reply);
      }
      i := i + 1;
    }
    assert uses[..i] == uses;
  }

  lemma {:induction false} FreesKept(log: seq<Command>, log': seq<Command>)
    requires OnlyRefs(log, log')
    ensures Freed(log') == Freed(log)
    decreases |log'|
  {
    if |log'| == |log| {
      assert log' == log;
    } else {
      FreesKept(log, log'[..|log'| - 1]);
    }
  }

  lemma FreesMore(log: seq<Command>, c: Command)
    ensures Freed(log + [c]) == Freed(log) + (if c.FreeBuffer? then [c.buffer] else [])
  {
    assert (log + [c])[..|log|] == log;
  }

  /** The call of a round: afterwards the reply holds the buffer that binder_done will free, if there is one. */
  method PlaceCall(bs: BinderState, sm: ServiceManager, reply: BinderIo, r: Round)
    requires sm.Valid() && Linked(sm.St(bs)) && CStrings(r.items)
    requires bs.mapped.Length < WORD && CallOk(bs.log, bs.mapped.Length, r.arrivals)
    modifies sm`svclist, sm`deaths, sm`nodes, sm`reg, sm`turn, bs`log, (set n | n in sm.nodes)`handle
    modifies reply, bs.mapped
    ensures sm.Valid() && Linked(sm.St(bs)) && old(bs.log) <= bs.log
    ensures fresh((set n | n in sm.nodes) - old(set n | n in sm.nodes))
    ensures Freed(bs.log) == Freed(old(bs.log)) && reply.Valid()
    ensures (if reply.flags.shared then [reply.data0] else []) == if Fits(r.items) then Held(r.arrivals) else []
  {
    hide ServiceManager.Valid, BinderIo.ValidWriter, BinderIo.ReaderView, CallOk, CallResult, Linked, Run, Served;
    hide PutAll, Init, Fits, CStrings;
    ghost var s := sm.St(bs);
    var msg, start := BuildMessage(r.items);
    var res := BinderCall(bs, sm, msg, reply, r.target, r.code, r.arrivals);
    if Fits(r.items) {
      SentFrees(sm.env, s, r, msg.w);
    }
  }

  /** Sending the message and serving what arrives frees nothing. */
  lemma SentFrees(env: Env, s: State, r: Round, w: Writer)
    ensures var t := Run(env, false, Sent(s, r.target, r.code, w), Served(r.arrivals));
      s.log <= t.log && Freed(t.log) == Freed(s.log)
  {
    hide Run, Served;
    var u := Sent(s, r.target, r.code, w);
    FreesMore(s.log, u.log[|s.log|]);
    CallerRun(env, u, Served(r.arrivals));
    FreesKept(u.log, Run(env, false, u, Served(r.arrivals)).log);
  }

  /** One round: the message is built, sent, answered, and the reply used. */
  method PlayRound(bs: BinderState, sm: ServiceManager, reply: BinderIo, r: Round)
    requires sm.Valid() && Linked(sm.St(bs)) && CStrings(r.items)
    requires bs.mapped.Length < WORD && CallOk(bs.log, bs.mapped.Length, r.arrivals)
    modifies sm`svclist, sm`deaths, sm`nodes, sm`reg, sm`turn, bs`log, (set n | n in sm.nodes)`handle
    modifies reply, bs.mapped
    ensures sm.Valid() && Linked(sm.St(bs)) && old(bs.log) <= bs.log
    ensures fresh((set n | n in sm.nodes) - old(set n | n in sm.nodes))
    ensures Freed(bs.log) == Freed(old(bs.log)) + FreedIn(r)
  {
    hide ServiceManager.Valid, BinderIo.ReaderView, CallOk, Linked, Held, Fits, CStrings, Freed;
    PlaceCall(bs, sm, reply, r);
    ghost var t := sm.St(bs);
    ghost var held := if reply.flags.shared then [reply.data0] else [];
    assert FreedIn(r) == if Done in r.uses then held else [];
    FreesMore(t.log, FreeBuffer(reply.data0));
    UseReply(bs, reply, r.uses);
    SameCookies(t, sm.St(bs));
    if bs.log == t.log {
      assert Freed(t.log) + [] == Freed(t.log);
    }
  }

  /**
   Any number of rounds, one after the other: the buffers that the log frees are those handed over, each once
   and in order, exactly when every round is tidy.
   */
  method PlayRounds(bs: BinderState, sm: ServiceManager, rounds: seq<Round>)
    requires sm.Valid() && Linked(sm.St(bs)) && bs.mapped.Length < WORD
    requires forall i | 0 <= i < |rounds| ::
      CStrings(rounds[i].items) && CallOk(bs.log, bs.mapped.Length, rounds[i].arrivals)
    modifies sm`svclist, sm`deaths, sm`nodes, sm`reg, sm`turn, bs`log, (set n | n in sm.nodes)`handle, bs.mapped
    ensures sm.Valid() && Linked(sm.St(bs))
    ensures Freed(bs.log) == Freed(old(bs.log)) + FreedBy(rounds)
    ensures Freed(bs.log) == Freed(old(bs.log)) + Delivered(rounds)
       <==> forall i | 0 <= i < |rounds| :: Tidy(rounds[i])
  {
    hide ServiceManager.Valid, CallOk, CStrings, Freed, FreedIn, Delivered, Linked, BinderIo.Valid, Tidy;
    var reply := new BinderIo.Blank();
    var i := 0;
    while i < |rounds|
      invariant i <= |rounds| && sm.Valid() && Linked(sm.St(bs)) && old(bs.log) <= bs.log
      invariant fresh((set n | n in sm.nodes) - old(set n | n in sm.nodes))
      invariant Freed(bs.log) == Freed(old(bs.log)) + FreedBy(rounds[..i])
    {
      assert rounds[..i + 1][..i] == rounds[..i];
      CallOkLater(old(bs.log), bs.log, bs.mapped.Length, rounds[i].arrivals);
      PlayRound(bs, sm, reply, rounds[i]);
      i := i + 1;
    }
    assert rounds[..i] == rounds;
    EveryReplyIsFreedOnce(rounds);
    NoMoreFreedThanDelivered(rounds);
    ghost var f := Freed(old(bs.log));
    Cancel(f, FreedBy(rounds), f, Delivered(rounds));
  }
}
