/** The calling side: binder_call and binder_done. */
module Client {
  import opened Bytes
  import opened BioFormat
  import opened Registry
  import opened Stream
  import opened Dispatch
  import opened Bio
  import opened ServiceManager
  import opened Parser
  import opened Arrivals

  /** Reply buffers lie in the mapping, and only deaths that were asked for are reported. */
  ghost predicate CmdsOk(log: seq<Command>, mem: seq<byte>, cmds: seq<Cmd>) {
    && (forall j | 0 <= j < |cmds| && cmds[j].Reply? :: TxnOk(mem, cmds[j].txn))
    && (forall j | 0 <= j < |cmds| && cmds[j].DeadBinder? :: Requested(log, cmds[j].cookie))
  }

  /** What the read ioctls of one call deliver, in order; after the last one the ioctl fails. */
  ghost predicate CallOk(log: seq<Command>, mapped: nat, arrivals: seq<Arrival>) {
    forall i | 0 <= i < |arrivals| ::
      ArrivalOk(arrivals[i], mapped) && CmdsOk(log, arrivals[i].mem, Decode(arrivals[i].words).cmds)
  }

  lemma CallOkLater(log: seq<Command>, log': seq<Command>, mapped: nat, arrivals: seq<Arrival>)
    requires CallOk(log, mapped, arrivals) && log <= log'
    ensures CallOk(log', mapped, arrivals)
  {
    forall i | 0 <= i < |arrivals|
      ensures CmdsOk(log', arrivals[i].mem, Decode(arrivals[i].words).cmds)
    {
      assert ArrivalOk(arrivals[i], mapped);
      CmdsOkLater(log, log', arrivals[i].mem, Decode(arrivals[i].words).cmds);
    }
  }

  lemma CmdsOkLater(log: seq<Command>, log': seq<Command>, mem: seq<byte>, cmds: seq<Cmd>)
    requires CmdsOk(log, mem, cmds) && log <= log'
    ensures CmdsOk(log', mem, cmds)
  {
    forall j | 0 <= j < |cmds| && cmds[j].DeadBinder?
      ensures Requested(log', cmds[j].cookie)
    {
      RequestedKept(log, log', cmds[j].cookie);
    }
  }

  /** Without a handler a command writes nothing but the releases of a death callback. */
  lemma CallerStep(env: Env, s: State, d: Delivery)
    ensures var s' := Step(env, false, s, d); s.log <= s'.log && OnlyRefs(s.log, s'.log)
  {
  }

  lemma {:induction false} CallerRun(env: Env, s: State, ds: seq<Delivery>)
    ensures var s' := Run(env, false, s, ds); s.log <= s'.log && OnlyRefs(s.log, s'.log)
    decreases |ds|
  {
    if ds != [] {
      CallerStep(env, s, ds[0]);
      var s1 := Step(env, false, s, ds[0]);
      hide Step;
      CallerRun(env, s1, ds[1..]);
    }
  }

  lemma {:induction false} CallerIsSafe(env: Env, s: State, mem: seq<byte>, cmds: seq<Cmd>)
    requires CmdsOk(s.log, mem, cmds)
    ensures Safe(env, false, true, s, mem, cmds)
    decreases |cmds|
  {
    if cmds != [] {
      var d := Delivery(mem, cmds[0]);
      assert CmdOk(s, mem, false, true, cmds[0]);
      CallerStep(env, s, d);
      var s1 := Step(env, false, s, d);
      CmdsOkLater(s.log, s1.log, mem, cmds);
      hide Step;
      assert CmdsOk(s1.log, mem, cmds[1..]);
      CallerIsSafe(env, s1, mem, cmds[1..]);
    }
  }

  /** The first reply in what arrived, with the memory it is in. */
  function ReplyIn(a: Arrival): (r: Option<(seq<byte>, Txn)>) {
    var t := FirstReply(Decode(a.words).cmds);
    if t.Some? then Some((a.mem, t.value)) else None
  }

  /** The reply that the caller holds after binder_call; None when the call failed. */
  function CallResult(arrivals: seq<Arrival>): (r: Option<(seq<byte>, Txn)>) {
    if arrivals == [] then None
    else
      var res := ParseResult(arrivals[0].words);
      if res > 0 then CallResult(arrivals[1..]) else if res == 0 then ReplyIn(arrivals[0]) else None
  }

  lemma {:induction false} ZeroHasReply(r: int, cmds: seq<Cmd>)
    requires r != 0 && StatusFrom(r, cmds) == 0
    ensures FirstReply(cmds).Some?
    decreases |cmds|
  {
    if cmds != [] && !cmds[0].Reply? {
      ZeroHasReply(StatusAfter(r, cmds[0]), cmds[1..]);
    }
  }

  /** The state once the message has been handed to the driver. */
  function Sent(s: State, target: u32, code: u32, w: Writer): (s': State) {
    s.(log := s.log + [CallTransaction(target, code, w.data, w.offs)])
  }

  /**
   binder_call. The caller ends up with a reply buffer exactly when the arrivals bring a reply, and with a
   cleared, failed binder_io otherwise; a message that overflowed is not sent. Deaths that arrive meanwhile
   are served.
   */
  method BinderCall(bs: BinderState, sm: ServiceManager, msg: BinderIo, reply: BinderIo,
                    target: u32, code: u32, arrivals: seq<Arrival>)
    returns (res: int)
    requires sm.Valid() && Linked(sm.St(bs)) && msg.ValidWriter() && msg != reply
    requires bs.mapped.Length < WORD && CallOk(bs.log, bs.mapped.Length, arrivals)
    modifies sm`svclist, sm`deaths, sm`nodes, sm`reg, sm`turn, bs`log, (set n | n in sm.nodes)`handle
    modifies reply, bs.mapped
    ensures sm.Valid() && Linked(sm.St(bs))
    ensures fresh((set n | n in sm.nodes) - old(set n | n in sm.nodes))
    ensures !msg.flags.overflow ==>
      old(bs.log) + [CallTransaction(target, code, msg.w.data, msg.w.offs)] <= bs.log
    ensures sm.St(bs) == if msg.flags.overflow then old(sm.St(bs))
                         else Run(sm.env, false, Sent(old(sm.St(bs)), target, code, msg.w), Served(arrivals))
    ensures var r := if msg.flags.overflow then None else CallResult(arrivals);
      && (res == 0 <==> r.Some?) && (res != 0 ==> res == -1)
      && (if r.Some? then bs.mapped[..] == r.value.0 && Filled(reply, bs.mapped, r.value.1)
          else reply.Valid() && reply.flags == Flags(false, false, true) && reply.dataAvail == 0)
  {
    if msg.flags.overflow {
      reply.Clear();
      return -1;
    }
    var n := (msg.offs - msg.offs0) / 4;
    bs.BinderWrite(CallTransaction(target, code, msg.buf[msg.data0..msg.data], Words(msg.buf[..], msg.offs0, n)));
    assert sm.St(bs) == Sent(old(sm.St(bs)), target, code, msg.w);
    SameCookies(old(sm.St(bs)), sm.St(bs));
    CallOkLater(old(bs.log), bs.log, bs.mapped.Length, arrivals);
    CallerRun(sm.env, sm.St(bs), Served(arrivals));
    hide ServiceManager.Valid, BinderIo.Valid, BinderIo.ValidWriter, BinderIo.ReaderView, Linked, Filled, CallOk;
    hide Run, Served;
    res := AwaitReply(bs, sm, reply, arrivals);
    if res != 0 {
      reply.Clear();
    }
  }

  /** The loop of binder_call: read and parse until there is a status, or the ioctl fails. */
  method AwaitReply(bs: BinderState, sm: ServiceManager, reply: BinderIo, arrivals: seq<Arrival>) returns (res: int)
    requires sm.Valid() && Linked(sm.St(bs))
    requires bs.mapped.Length < WORD && CallOk(bs.log, bs.mapped.Length, arrivals)
    modifies sm`svclist, sm`deaths, sm`nodes, sm`reg, sm`turn, bs`log, (set n | n in sm.nodes)`handle
    modifies reply, bs.mapped
    ensures sm.Valid() && Linked(sm.St(bs))
    ensures fresh((set n | n in sm.nodes) - old(set n | n in sm.nodes))
    ensures sm.St(bs) == Run(sm.env, false, old(sm.St(bs)), Served(arrivals))
    ensures (res == 0 <==> CallResult(arrivals).Some?) && (res != 0 ==> res == -1)
    ensures res == 0 ==> bs.mapped[..] == CallResult(arrivals).value.0
    ensures res == 0 ==> Filled(reply, bs.mapped, CallResult(arrivals).value.1)
  {
    ghost var s0 := sm.St(bs);
    var readbuf := new u32[READBUF_WORDS];
    hide ServiceManager.Valid, Linked, Filled, CallOk, CallResult, CallLeft, ReplyIn, ParseResult, Decode;
    hide ToServe, Served, Run, Tag;
    var i: nat := 0;
    CallLeftStart(arrivals);
    ToServeStart(sm.env, false, s0, arrivals);
    while i < |arrivals|
      invariant i <= |arrivals| && CallLeft(arrivals, i)
      invariant sm.Valid() && Linked(sm.St(bs)) && s0.log <= bs.log
      invariant fresh((set n | n in sm.nodes) - old(set n | n in sm.nodes))
      invariant ToServe(sm.env, false, s0, arrivals, sm.St(bs), i)
    {
      CallLeftStep(arrivals, i);
      ToServeStep(sm.env, false, s0, arrivals, sm.St(bs), i);
      CallOkLater(s0.log, bs.log, bs.mapped.Length, arrivals);
      res := ParseArrival(bs, sm, reply, readbuf, arrivals, i);
      if res == 0 {
        return 0;
      }
      if res < 0 {
        return -1;
      }
      i := i + 1;
    }
    CallLeftEnd(arrivals);
    ServedAll(sm.env, false, s0, arrivals, sm.St(bs));
    return -1;
  }

  /** The call is decided by the arrivals from `i` on. */
  predicate CallLeft(arrivals: seq<Arrival>, i: nat) {
    i <= |arrivals| && CallResult(arrivals[i..]) == CallResult(arrivals)
  }

  lemma CallLeftStart(arrivals: seq<Arrival>)
    ensures CallLeft(arrivals, 0)
  {
    assert arrivals[0..] == arrivals;
  }

  lemma CallLeftStep(arrivals: seq<Arrival>, i: nat)
    requires CallLeft(arrivals, i) && i < |arrivals|
    ensures var res := ParseResult(arrivals[i].words);
      && (res == 0 ==> ReplyIn(arrivals[i]).Some? && CallResult(arrivals) == ReplyIn(arrivals[i]))
      && (res < 0 ==> CallResult(arrivals) == None)
      && (res > 0 ==> CallLeft(arrivals, i + 1))
  {
    hide FirstReply, Decode;
    assert arrivals[i..][1..] == arrivals[i + 1..];
    if ParseResult(arrivals[i].words) == 0 {
      ZeroHasReply(1, Decode(arrivals[i].words).cmds);
    }
  }

  lemma CallLeftEnd(arrivals: seq<Arrival>)
    requires CallLeft(arrivals, |arrivals|)
    ensures CallResult(arrivals) == None
  {
  }

  /** One turn of that loop. */
  method ParseArrival(bs: BinderState, sm: ServiceManager, reply: BinderIo, readbuf: array<u32>,
                      arrivals: seq<Arrival>, i: nat)
    returns (res: int)
    requires sm.Valid() && Linked(sm.St(bs)) && readbuf.Length == READBUF_WORDS
    requires bs.mapped.Length < WORD && CallOk(bs.log, bs.mapped.Length, arrivals) && i < |arrivals|
    modifies sm`svclist, sm`deaths, sm`nodes, sm`reg, sm`turn, bs`log, (set n | n in sm.nodes)`handle
    modifies reply, bs.mapped, readbuf
    ensures sm.Valid() && Linked(sm.St(bs)) && old(bs.log) <= bs.log
    ensures fresh((set n | n in sm.nodes) - old(set n | n in sm.nodes))
    ensures sm.St(bs) == Run(sm.env, false, old(sm.St(bs)), Tag(arrivals[i].mem, Decode(arrivals[i].words).cmds))
    ensures res == ParseResult(arrivals[i].words) >= -1 && bs.mapped[..] == arrivals[i].mem
    ensures var r := ReplyIn(arrivals[i]); r.Some? ==> Filled(reply, bs.mapped, r.value.1)
  {
    var a := arrivals[i];
    ghost var cmds := Decode(a.words).cmds;
    assert ArrivalOk(a, bs.mapped.Length) && CmdsOk(bs.log, a.mem, cmds);
    hide ServiceManager.Valid, Linked, Filled, CallOk, CmdsOk, Safe, Run, Decode, FirstReply, Tag, StatusFrom;
    StatusRange(1, cmds);
    CallerIsSafe(sm.env, sm.St(bs), a.mem, cmds);
    CallerRun(sm.env, sm.St(bs), Tag(a.mem, cmds));
    Deliver(bs.mapped, readbuf, a);
    res := BinderParse(bs, sm, reply, readbuf, |a.words|, false);
  }

  lemma {:induction false} StatusRange(r: int, cmds: seq<Cmd>)
    requires r >= -1
    ensures StatusFrom(r, cmds) >= -1
    decreases |cmds|
  {
    if cmds != [] {
      StatusRange(StatusAfter(r, cmds[0]), cmds[1..]);
    }
  }

  /** binder_done: frees the reply buffer once. */
  method BinderDone(bs: BinderState, reply: BinderIo)
    requires reply.Valid()
    modifies bs`log, reply`flags
    ensures bs.log == old(bs.log) + (if old(reply.flags).shared then [FreeBuffer(reply.data0)] else [])
    ensures reply.flags == if old(reply.flags).shared then NO_FLAGS else old(reply.flags)
  {
    if reply.flags.shared {
      bs.BinderWrite(FreeBuffer(reply.data0));
      reply.flags := NO_FLAGS;
    }
  }
}
