/** The serving side: binder_loop over what the driver delivers, from the words it reads to the replies it writes. */
module Server {
  import opened Bytes
  import opened BioFormat
  import opened Registry
  import opened Stream
  import opened Dispatch
  import opened Marshalling
  import opened EndToEnd
  import opened ServiceManager
  import opened Parser
  import opened Arrivals

  /** A request that decodes lies in the mapping. */
  lemma CarriedIsMapped(mem: seq<byte>, t: Txn, req: Request, uid: u32)
    requires Carries(mem, t, req, uid)
    ensures TxnOk(mem, t)
  {
    if !req.Ping? && !req.Astray? {
      var f: Writer, strict: u32 :| Message(f, strict, req) && Delivers(mem, t, f);
      MessageArrives(mem, t, f);
    }
  }

  /** A stream that means a list of events is one that binder_parse can serve. */
  lemma {:induction false} MeaningIsSafe(env: Env, s: State, mem: seq<byte>, cmds: seq<Cmd>, rest: seq<Delivery>,
                                         evs: seq<Event>)
    returns (later: seq<Event>)
    requires Inv(s) && Watched(s) && Matches(env, s, Tag(mem, cmds) + rest, evs)
    ensures Safe(env, true, false, s, mem, cmds)
    ensures Matches(env, Run(env, true, s, Tag(mem, cmds)), rest, later)
    decreases |cmds|
  {
    hide Inv, Watched, CmdOk, Means, Step;
    var ds := Tag(mem, cmds);
    if cmds == [] {
      assert ds + rest == rest;
      later := evs;
    } else {
      var s1 := Step(env, true, s, ds[0]);
      assert ds[1..] == Tag(mem, cmds[1..]);
      assert (ds + rest)[1..] == Tag(mem, cmds[1..]) + rest;
      assert ds[0] == Delivery(mem, cmds[0]) == (ds + rest)[0];
      HeadIsSafe(env, s, mem, cmds[0], evs);
      if Silent(cmds[0]) { SilentStep(env, s, ds[0]); }
      StepKeeps(env, true, s, ds[0]);
      StepCookies(env, true, s, ds[0]);
      later := MeaningIsSafe(env, s1, mem, cmds[1..], rest, if Silent(cmds[0]) then evs else evs[1..]);
    }
  }

  lemma HeadIsSafe(env: Env, s: State, mem: seq<byte>, c: Cmd, evs: seq<Event>)
    requires Watched(s) && (Silent(c) || (evs != [] && Means(env, s, Delivery(mem, c), evs[0])))
    ensures CmdOk(s, mem, true, false, c)
  {
    if c.Transaction? {
      CarriedIsMapped(mem, c.txn, evs[0].req, evs[0].uid);
    }
  }

  /** One turn of the loop. */
  method ServeArrival(bs: BinderState, sm: ServiceManager, readbuf: array<u32>, a: Arrival, ghost rest: seq<Delivery>,
                      ghost evs: seq<Event>)
    returns (res: int, ghost later: seq<Event>)
    requires sm.Valid() && Inv(sm.St(bs)) && Watched(sm.St(bs))
    requires bs.mapped.Length < WORD && ArrivalOk(a, bs.mapped.Length) && readbuf.Length == READBUF_WORDS
    requires Matches(sm.env, sm.St(bs), Tag(a.mem, Decode(a.words).cmds) + rest, evs)
    modifies sm`svclist, sm`deaths, sm`nodes, sm`reg, sm`turn, bs`log, (set n | n in sm.nodes)`handle
    modifies bs.mapped, readbuf
    ensures sm.Valid() && Inv(sm.St(bs)) && Watched(sm.St(bs))
    ensures fresh((set n | n in sm.nodes) - old(set n | n in sm.nodes))
    ensures res == ParseResult(a.words)
    ensures sm.St(bs) == Run(sm.env, true, old(sm.St(bs)), Tag(a.mem, Decode(a.words).cmds))
    ensures Matches(sm.env, sm.St(bs), rest, later)
  {
    ghost var s := sm.St(bs);
    assert Linked(s);
    hide ServiceManager.Valid, Inv, Linked, Watched, Matches, Safe, Run, Decode, Tag;
    later := MeaningIsSafe(sm.env, s, a.mem, Decode(a.words).cmds, rest, evs);
    RunKeeps(sm.env, true, s, Tag(a.mem, Decode(a.words).cmds));
    RunCookies(sm.env, true, s, Tag(a.mem, Decode(a.words).cmds));
    Deliver(bs.mapped, readbuf, a);
    res := BinderParse(bs, sm, null, readbuf, |a.words|, true);
  }

  /**
   The reading loop of binder_loop, on the linked list: when the arrivals mean these requests and deaths, the
   list ends as the table they lead to, and the replies in the log decode to the table's answers, in order.
   */
  method BinderLoop(bs: BinderState, sm: ServiceManager, arrivals: seq<Arrival>, ghost evs: seq<Event>)
    requires sm.Valid() && Inv(sm.St(bs)) && Watched(sm.St(bs)) && bs.mapped.Length < WORD
    requires forall i | 0 <= i < |arrivals| :: ArrivalOk(arrivals[i], bs.mapped.Length)
    requires Matches(sm.env, sm.St(bs), Served(arrivals), evs)
    modifies sm`svclist, sm`deaths, sm`nodes, sm`reg, sm`turn, bs`log, (set n | n in sm.nodes)`handle, bs.mapped
    ensures sm.Valid() && Inv(sm.St(bs)) && Watched(sm.St(bs))
    ensures sm.St(bs) == Run(sm.env, true, old(sm.St(bs)), Served(arrivals))
    ensures Reported(old(sm.St(bs))) ==> Reported(sm.St(bs))
    ensures Replies(old(bs.log)) <= Replies(bs.log)
    ensures var (a, rs) := AbsRun(AbsOf(old(sm.reg)), evs);
      AbsOf(sm.reg) == a && DecodeAll(evs, Replies(bs.log)[|Replies(old(bs.log))|..]) == rs
  {
    hide ServiceManager.Valid, Inv, Watched, Matches, Run, Served, ParseResult, ArrivalOk, ToServe, Tag, AbsOf, AbsRun;
    hide DecodeAll, Replies, Reported;
    ghost var s0 := sm.St(bs);
    ghost var later := evs;
    var readbuf := new u32[READBUF_WORDS];
    var i: nat := 0;
    LoopResult(sm.env, s0, arrivals, evs);
    while i < |arrivals|
      invariant i <= |arrivals| && bs.mapped == old(bs.mapped)
      invariant sm.Valid() && Inv(sm.St(bs)) && Watched(sm.St(bs))
      invariant fresh((set n | n in sm.nodes) - old(set n | n in sm.nodes))
      invariant ToServe(sm.env, true, s0, arrivals, sm.St(bs), i)
      invariant Matches(sm.env, sm.St(bs), Served(arrivals[i..]), later)
    {
      ToServeStep(sm.env, true, s0, arrivals, sm.St(bs), i);
      ServedStep(arrivals, i);
      ghost var rest := if ParseResult(arrivals[i].words) > 0 then Served(arrivals[i + 1..]) else [];
      var res;
      res, later := ServeArrival(bs, sm, readbuf, arrivals[i], rest, later);
      if res <= 0 {
        return;
      }
      i := i + 1;
    }
    ServedAll(sm.env, true, s0, arrivals, sm.St(bs));
  }

  lemma LoopResult(env: Env, s: State, arrivals: seq<Arrival>, evs: seq<Event>)
    requires Inv(s) && Matches(env, s, Served(arrivals), evs)
    ensures arrivals[0..] == arrivals && ToServe(env, true, s, arrivals, s, 0)
    ensures var s' := Run(env, true, s, Served(arrivals)); var (a, rs) := AbsRun(AbsOf(s.reg), evs);
      && (Reported(s) ==> Reported(s'))
      && Replies(s.log) <= Replies(s'.log)
      && AbsOf(s'.reg) == a && DecodeAll(evs, Replies(s'.log)[|Replies(s.log)|..]) == rs
  {
    hide Inv, Matches, Run, Served, AbsOf, AbsRun, DecodeAll, Replies, Reported;
    assert arrivals[0..] == arrivals;
    if Reported(s) { RunReports(env, true, s, Served(arrivals)); }
    RunAgrees(env, s, Served(arrivals), evs);
    RunReplies(env, s, Served(arrivals));
  }
}
