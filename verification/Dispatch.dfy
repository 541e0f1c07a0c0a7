/** svcmgr_handler and the effect of each driver command on the service manager, as functions. */
module Dispatch {
  import opened Bytes
  import opened BioFormat
  import opened Registry
  import opened Stream
  import Marshalling

  const SVCMGR_HANDLE: u32 := 0
  const PING_TRANSACTION: u32 := 0x5f50_4e47
  const GET_SERVICE: u32 := 1
  const CHECK_SERVICE: u32 := 2
  const ADD_SERVICE: u32 := 3
  const LIST_SERVICES: u32 := 4

  /** "android.os.IServiceManager" */
  const SVCMGR_ID: seq<u16> :=
    [0x61, 0x6e, 0x64, 0x72, 0x6f, 0x69, 0x64, 0x2e, 0x6f, 0x73, 0x2e,
     0x49, 0x53, 0x65, 0x72, 0x76, 0x69, 0x63, 0x65, 0x4d, 0x61, 0x6e, 0x61, 0x67, 0x65, 0x72]

  const REPLY_SIZE := 256
  const REPLY_OFFS := 4

  /** What the outside decides for one transaction: malloc's answer, and what the stack held before. */
  datatype Chance = Chance(malloc: u32, frame: seq<byte>)

  type Env = nat -> Chance

  /** The uninitialised `rdata` array. */
  function Frame(c: Chance): (f: seq<byte>)
    ensures |f| == REPLY_SIZE
  {
    seq(REPLY_SIZE, i requires 0 <= i < REPLY_SIZE => if i < |c.frame| then c.frame[i] else 0)
  }

  // ---------- the handler ----------

  datatype Outcome = Outcome(s: State, res: int, reply: Writer)

  predicate IsManager(iface: Name) { iface == SVCMGR_ID }

  /** The interface name in a request is that of the service manager. */
  predicate NamesManager(id: Text) { id.chars.Some? && IsManager(NameOf(id)) }

  /** svcmgr_handler; `wish` is what malloc would return. */
  function Handle(s: State, code: u32, target: u32, uid: u32, msg: Reader, reply: Writer, wish: u32): (r: Outcome)
    requires Marshalling.Fits32(reply)
  {
    if target != SVCMGR_HANDLE then Outcome(s, -1, reply)
    else if code == PING_TRANSACTION then Outcome(s, 0, reply)
    else
      var (r1, strict) := GetU32(msg);
      var (r2, id) := GetString16(r1);
      if !NamesManager(id) then Outcome(s, -1, reply)
      else if code == GET_SERVICE || code == CHECK_SERVICE then OnFind(s, uid, r2, reply)
      else if code == ADD_SERVICE then OnAdd(s, r2, reply, wish)
      else if code == LIST_SERVICES then OnList(s, r2, reply)
      else Outcome(s, -1, reply)
  }

  function OnFind(s: State, uid: u32, msg: Reader, reply: Writer): (r: Outcome)
    requires Marshalling.Fits32(reply)
  {
    var (r, t) := GetString16(msg);
    if t.chars.None? then Outcome(s, -1, reply)
    else
      var handle := Lookup(s.reg, NameOf(t), uid);
      Outcome(s, 0, if handle == 0 then PutU32(reply, 0) else PutRef(reply, handle))
  }

  function OnAdd(s: State, msg: Reader, reply: Writer, wish: u32): (r: Outcome) {
    var (r1, t) := GetString16(msg);
    if t.chars.None? then Outcome(s, -1, reply)
    else
      var (r2, handle) := GetRef(r1);
      var (r3, allow) := GetU32(r2);
      var (s', ok) := Add(s, t, handle, allow != 0, Malloc(s.reg, wish));
      if ok then Outcome(s', 0, PutU32(reply, 0)) else Outcome(s', -1, reply)
  }

  function OnList(s: State, msg: Reader, reply: Writer): (r: Outcome) {
    var (r, n) := GetU32(msg);
    if n < |s.reg| then Outcome(s, 0, PutString16(reply, CString(s.reg[n].name))) else Outcome(s, -1, reply)
  }

  // ---------- one command ----------

  /** A command, and the memory mapped when it arrived. */
  datatype Delivery = Delivery(mem: seq<byte>, cmd: Cmd)

  /** The transaction's data and offsets lie inside the mapped memory. */
  ghost predicate TxnOk(mem: seq<byte>, t: Txn) {
    t.buffer + t.dataSize <= |mem| && t.offsets + t.offsetsSize / 4 * 4 <= |mem|
  }

  /** bio_init_from_txn */
  ghost function FromTxn(mem: seq<byte>, t: Txn): (r: Reader) {
    if TxnOk(mem, t)
    then Reader(mem[t.buffer..t.buffer + t.dataSize], 0, Words(mem, t.offsets, t.offsetsSize / 4), false)
    else Reader([], 0, [], false)
  }

  /** The driver has put this message into the mapping: its bytes, and its offsets as words, whole ones only. */
  ghost predicate Delivers(mem: seq<byte>, t: Txn, f: Writer) {
    && t.buffer + t.dataSize <= |mem| && mem[t.buffer..t.buffer + t.dataSize] == f.data
    && 4 * |f.offs| <= t.offsetsSize < 4 * |f.offs| + 4 && t.offsets + 4 * |f.offs| <= |mem|
    && forall i | 0 <= i < |f.offs| :: mem[t.offsets + 4 * i..t.offsets + 4 * i + 4] == U32Bytes(f.offs[i])
  }

  /** Then the receiver stands at its start, with all its bytes and all its offsets. */
  lemma MessageArrives(mem: seq<byte>, t: Txn, f: Writer)
    requires Delivers(mem, t, f)
    ensures TxnOk(mem, t) && FromTxn(mem, t) == Reader(f.data, 0, f.offs, false)
  {
    forall i | 0 <= i < |f.offs|
      ensures Words(mem, t.offsets, |f.offs|)[i] == f.offs[i]
    {
      U32Stored(mem, t.offsets + 4 * i, f.offs[i]);
    }
    assert Words(mem, t.offsets, |f.offs|) == f.offs;
  }

  ghost function Serve(env: Env, s: State, mem: seq<byte>, t: Txn): (r: Outcome) {
    var c := env(s.turn);
    Handle(s, t.code, t.target, t.senderEuid, FromTxn(mem, t), Marshalling.Init(Frame(c), REPLY_OFFS), c.malloc)
  }

  /** binder_send_reply */
  function Answer(o: Outcome): (r: Command) {
    if o.res != 0 then ReplyStatus(o.res) else ReplyData(o.reply.data, o.reply.offs)
  }

  function FindAddr(reg: seq<Entry>, addr: u32): (i: nat)
    ensures i <= |reg| && (i < |reg| ==> reg[i].addr == addr)
    ensures i == |reg| ==> !HasAddr(reg, addr)
  {
    if reg == [] || reg[0].addr == addr then 0
    else
      var i := FindAddr(reg[1..], addr);
      assert forall k | 1 <= k < |reg| :: reg[k] == reg[1..][k - 1];
      1 + i
  }

  /** The effect of one command on the service manager; `served` tells whether a handler is given. */
  ghost function Step(env: Env, served: bool, s: State, d: Delivery): (s': State) {
    match d.cmd
    case Transaction(t) =>
      if !served then s
      else
        var o := Serve(env, s, d.mem, t);
        o.s.(log := o.s.log + [FreeBuffer(t.buffer), Answer(o)], turn := s.turn + 1)
    case DeadBinder(cookie) =>
      var i := FindAddr(s.reg, cookie);
      if i < |s.reg| then Die(s, i) else s
    case _ => s
  }

  ghost function Run(env: Env, served: bool, s: State, ds: seq<Delivery>): (s': State)
    decreases |ds|
  {
    if ds == [] then s else Run(env, served, Step(env, served, s, ds[0]), ds[1..])
  }

  function Tag(mem: seq<byte>, cmds: seq<Cmd>): (ds: seq<Delivery>)
    ensures |ds| == |cmds|
  {
    seq(|cmds|, i requires 0 <= i < |cmds| => Delivery(mem, cmds[i]))
  }

  // ---------- what every run keeps ----------

  lemma TextIsExact(r: Reader)
    ensures var t := GetString16(r).1;
      t.chars.Some? && t.len <= MAX_NAME ==> |t.chars.value| == t.len + 1
  {
    var (r1, len) := GetU32(r);
    if len <= MAX_NAME {
      assert (len + 1) * 2 % WORD == 2 * len + 2;
    }
  }

  lemma OnAddKeeps(s: State, msg: Reader, reply: Writer, wish: u32)
    requires Inv(s)
    ensures var o := OnAdd(s, msg, reply, wish); Inv(o.s) && Grown(s.reg, o.s.reg)
  {
    var (r1, t) := GetString16(msg);
    TextIsExact(msg);
    var (r2, handle) := GetRef(r1);
    var (r3, allow) := GetU32(r2);
    hide Inv, GetString16, GetRef, GetU32, Add, Malloc;
    if t.chars.Some? {
      AddKeeps(s, t, handle, allow != 0, wish);
    }
  }

  lemma HandleKeeps(s: State, code: u32, target: u32, uid: u32, msg: Reader, reply: Writer, wish: u32)
    requires Inv(s) && Marshalling.Fits32(reply)
    ensures var o := Handle(s, code, target, uid, msg, reply, wish); Inv(o.s) && Grown(s.reg, o.s.reg)
  {
    hide NamesManager, OnAdd, GetString16, GetU32, Inv, Lookup, PutU32, PutRef, PutString16, CString;
    OnAddKeeps(s, GetString16(GetU32(msg).0).0, reply, wish);
    GrownSame(s.reg);
    hide Grown;
  }

  /** The handler itself writes reference commands only. */
  lemma HandleWrites(s: State, code: u32, target: u32, uid: u32, msg: Reader, reply: Writer, wish: u32)
    requires Marshalling.Fits32(reply)
    ensures var o := Handle(s, code, target, uid, msg, reply, wish); o.s.turn == s.turn && OnlyRefs(s.log, o.s.log)
  {
    hide NamesManager, Add, Malloc, GetString16, GetU32, GetRef;
    var (r1, t) := GetString16(GetString16(GetU32(msg).0).0);
    var (r2, handle) := GetRef(r1);
    AddWrites(s, t, handle, GetU32(r2).1 != 0, Malloc(s.reg, wish));
  }

  /** A refused request changes nothing and writes nothing; only a registration changes anything at all. */
  lemma RefusedChangesNothing(s: State, code: u32, target: u32, uid: u32, msg: Reader, reply: Writer, wish: u32)
    requires Marshalling.Fits32(reply)
    ensures var o := Handle(s, code, target, uid, msg, reply, wish);
      && (o.res == 0 || (o.res == -1 && o.s == s && o.reply == reply))
      && (code != ADD_SERVICE ==> o.s == s)
  {
    hide NamesManager, GetString16, GetU32, GetRef, Find, Override, Malloc;
  }

  /** The gets of a registration before its allow flag. */
  function AddGets(msg: Reader): (r: Reader) {
    Marshalling.ReadAll(msg, [Marshalling.U32(0), Marshalling.Str([]), Marshalling.Str([]), Marshalling.Ref(0)]).0
  }

  /** Whatever the bytes of a message are: a registration whose name or handle cannot be read is refused. */
  lemma UnreadableAddIsRefused(s: State, uid: u32, msg: Reader, reply: Writer, wish: u32)
    requires Marshalling.Fits32(reply) && !msg.overflow && AddGets(msg).overflow
    ensures Handle(s, ADD_SERVICE, SVCMGR_HANDLE, uid, msg, reply, wish) == Outcome(s, -1, reply)
  {
    var r1 := GetU32(msg).0;
    var r2 := GetString16(r1).0;
    var (r3, t) := GetString16(r2);
    assert AddGets(msg) == GetRef(r3).0;
    FailedGets(msg);
    hide Find, Override, Malloc, GetU32, GetString16, GetRef, AddGets;
  }

  lemma FailedGets(msg: Reader)
    requires !msg.overflow
    ensures var (r2, id) := GetString16(GetU32(msg).0);
      var (r3, t) := GetString16(r2);
      var (r4, handle) := GetRef(r3);
      r4.overflow ==> id.chars.None? || t.chars.None? || handle == 0
  {
    hide U32At, Chars, Align4;
  }

  /** One more entry that moves no reference. */
  lemma LogOther(s: State, c: Command)
    requires Inv(s) && !c.Acquire? && !c.Release? && !c.RequestDeath?
    ensures Inv(s.(log := s.log + [c]))
  {
    CoveredAppend(s.log, c);
    var s' := s.(log := s.log + [c]);
    LinksKept(s, s');
    forall h: u32
      ensures Net(s'.log, h) == Net(s.log, h)
    {
      NetAppend(s.log, c, h);
    }
  }

  /** What a transaction appends to the log. */
  lemma ServedLog(env: Env, s: State, d: Delivery)
    requires d.cmd.Transaction?
    ensures var o := Serve(env, s, d.mem, d.cmd.txn);
      && OnlyRefs(s.log, o.s.log) && o.s.turn == s.turn
      && Step(env, true, s, d) == o.s.(turn := s.turn + 1,
           log := o.s.log + [FreeBuffer(d.cmd.txn.buffer)] + [Answer(o)])
  {
    var t, c := d.cmd.txn, env(s.turn);
    var reply := Marshalling.Init(Frame(c), REPLY_OFFS);
    HandleWrites(s, t.code, t.target, t.senderEuid, FromTxn(d.mem, t), reply, c.malloc);
    hide Handle, FromTxn, OnlyRefs, Frame;
    var o := Serve(env, s, d.mem, t);
    assert o.s.log + [FreeBuffer(t.buffer), Answer(o)] == o.s.log + [FreeBuffer(t.buffer)] + [Answer(o)];
  }

  lemma ServeKeeps(env: Env, s: State, d: Delivery)
    requires Inv(s) && d.cmd.Transaction?
    ensures var s' := Step(env, true, s, d); Inv(s') && Grown(s.reg, s'.reg) && s.log <= s'.log
  {
    var t, c := d.cmd.txn, env(s.turn);
    var reply := Marshalling.Init(Frame(c), REPLY_OFFS);
    HandleKeeps(s, t.code, t.target, t.senderEuid, FromTxn(d.mem, t), reply, c.malloc);
    ServedLog(env, s, d);
    hide Handle, FromTxn, Inv, Grown, Frame, Step;
    var o := Serve(env, s, d.mem, t);
    LogOther(o.s, FreeBuffer(t.buffer));
    var mid := o.s.(log := o.s.log + [FreeBuffer(t.buffer)]);
    LogOther(mid, Answer(o));
    InvTurn(mid.(log := mid.log + [Answer(o)]), s.turn + 1);
  }

  lemma InvTurn(s: State, turn: nat)
    requires Inv(s)
    ensures Inv(s.(turn := turn))
  {
  }

  lemma StepKeeps(env: Env, served: bool, s: State, d: Delivery)
    requires Inv(s)
    ensures var s' := Step(env, served, s, d);
      Inv(s') && Grown(s.reg, s'.reg) && s.log <= s'.log
  {
    hide Inv, Serve, Answer;
    match d.cmd
    case Transaction(_) => if served { ServeKeeps(env, s, d); }
    case DeadBinder(cookie) =>
      var i := FindAddr(s.reg, cookie);
      if i < |s.reg| { DieKeeps(s, i); }
    case _ =>
  }

  lemma {:induction false} RunKeeps(env: Env, served: bool, s: State, ds: seq<Delivery>)
    requires Inv(s)
    ensures var s' := Run(env, served, s, ds);
      Inv(s') && Grown(s.reg, s'.reg) && s.log <= s'.log
    decreases |ds|
  {
    if ds != [] {
      var s1 := Step(env, served, s, ds[0]);
      StepKeeps(env, served, s, ds[0]);
      RunKeeps(env, served, s1, ds[1..]);
      GrownTrans(s.reg, s1.reg, Run(env, served, s, ds).reg);
    }
  }

  lemma HandleCookies(s: State, t: Txn, msg: Reader, reply: Writer, wish: u32)
    requires Marshalling.Fits32(reply)
    ensures var s' := Handle(s, t.code, t.target, t.senderEuid, msg, reply, wish).s;
      (Linked(s) ==> Linked(s')) && (Watched(s) ==> Watched(s'))
  {
    hide NamesManager, Add, Watched, Linked;
    var r := GetString16(GetU32(msg).0).0;
    var (r1, name) := GetString16(r);
    var (r2, handle) := GetRef(r1);
    AddCookies(s, name, handle, GetU32(r2).1 != 0, Malloc(s.reg, wish));
    hide GetString16, GetU32, GetRef;
  }

  /** Commands that ask for no death, over a list with the same addresses. */
  lemma SameCookies(s: State, s': State)
    requires s.log <= s'.log && Grown(s.reg, s'.reg) && |s.reg| == |s'.reg|
    requires forall k | |s.log| <= k < |s'.log| :: !s'.log[k].RequestDeath?
    ensures (Linked(s) ==> Linked(s')) && (Watched(s) ==> Watched(s'))
  {
    if Linked(s) { LinksKept(s, s'); }
    if Watched(s) {
      forall i | 0 <= i < |s'.reg|
        ensures HasAddr(s.reg, s'.reg[i].addr)
      {
        assert s'.reg[i].(handle := 0) == s.reg[i].(handle := 0);
      }
      WatchedKept(s, s');
    }
  }

  lemma ServeCookies(env: Env, s: State, d: Delivery)
    requires d.cmd.Transaction?
    ensures var s' := Step(env, true, s, d); (Linked(s) ==> Linked(s')) && (Watched(s) ==> Watched(s'))
  {
    var c, o := env(s.turn), Serve(env, s, d.mem, d.cmd.txn);
    HandleCookies(s, d.cmd.txn, FromTxn(d.mem, d.cmd.txn), Marshalling.Init(Frame(c), REPLY_OFFS), c.malloc);
    ServedLog(env, s, d);
    GrownSame(o.s.reg);
    hide Handle, Step, Serve, Answer, Watched, Linked, FromTxn, Frame, Grown;
    SameCookies(o.s, Step(env, true, s, d));
  }

  /** Every step keeps the cookies handed out and the nodes of the list matched, in either direction. */
  lemma StepCookies(env: Env, served: bool, s: State, d: Delivery)
    ensures var s' := Step(env, served, s, d); (Linked(s) ==> Linked(s')) && (Watched(s) ==> Watched(s'))
  {
    hide Serve, Answer, Watched, Linked;
    if d.cmd.Transaction? && served {
      ServeCookies(env, s, d);
    } else {
      GrownSame(s.reg);
      SameCookies(s, Step(env, served, s, d));
    }
  }

  lemma HandleReports(s: State, t: Txn, msg: Reader, reply: Writer, wish: u32)
    requires Reported(s) && Marshalling.Fits32(reply)
    ensures Reported(Handle(s, t.code, t.target, t.senderEuid, msg, reply, wish).s)
  {
    hide NamesManager, Add, Reported;
    var r := GetString16(GetU32(msg).0).0;
    var (r1, name) := GetString16(r);
    var (r2, handle) := GetRef(r1);
    AddReports(s, name, handle, GetU32(r2).1 != 0, Malloc(s.reg, wish));
    hide GetString16, GetU32, GetRef;
  }

  lemma ReportedLater(s: State, s': State)
    requires Reported(s) && s.log <= s'.log && s'.reg == s.reg
    ensures Reported(s')
  {
    assert forall c | c in s.log :: c in s'.log;
  }

  lemma StepReports(env: Env, served: bool, s: State, d: Delivery)
    requires Reported(s)
    ensures Reported(Step(env, served, s, d))
  {
    if d.cmd.Transaction? && served {
      var c := env(s.turn);
      var msg := FromTxn(d.mem, d.cmd.txn);
      HandleReports(s, d.cmd.txn, msg, Marshalling.Init(Frame(c), REPLY_OFFS), c.malloc);
      ServedLog(env, s, d);
      hide Handle, Reported, FromTxn, Frame;
      ReportedLater(Serve(env, s, d.mem, d.cmd.txn).s, Step(env, served, s, d));
    } else if d.cmd.DeadBinder? {
      var i := FindAddr(s.reg, d.cmd.cookie);
      if i < |s.reg| { DieReports(s, i); }
    }
  }

  /** Over any run the driver has been asked to report the death of every live service. */
  lemma {:induction false} RunReports(env: Env, served: bool, s: State, ds: seq<Delivery>)
    requires Reported(s)
    ensures Reported(Run(env, served, s, ds))
    decreases |ds|
  {
    hide Reported, Step;
    if ds != [] {
      StepReports(env, served, s, ds[0]);
      RunReports(env, served, Step(env, served, s, ds[0]), ds[1..]);
    }
  }

  lemma {:induction false} RunCookies(env: Env, served: bool, s: State, ds: seq<Delivery>)
    ensures var s' := Run(env, served, s, ds); (Linked(s) ==> Linked(s')) && (Watched(s) ==> Watched(s'))
    decreases |ds|
  {
    hide Watched, Linked, Step;
    if ds != [] {
      StepCookies(env, served, s, ds[0]);
      RunCookies(env, served, Step(env, served, s, ds[0]), ds[1..]);
    }
  }

  lemma {:induction false} RunSplit(env: Env, served: bool, s: State, a: seq<Delivery>, b: seq<Delivery>)
    ensures Run(env, served, s, a + b) == Run(env, served, Run(env, served, s, a), b)
    decreases |a|
  {
    if a == [] {
      assert a + b == b;
    } else {
      assert (a + b)[0] == a[0] && (a + b)[1..] == a[1..] + b;
      RunSplit(env, served, Step(env, served, s, a[0]), a[1..], b);
    }
  }

  /** Since the driver only reports cookies it was given, every death reaches a node. */
  lemma DeathsResolve(env: Env, ds: seq<Delivery>, k: nat)
    requires var s := Run(env, true, START, ds); k < |s.log| && s.log[k].RequestDeath?
    ensures var s := Run(env, true, START, ds); FindAddr(s.reg, s.log[k].cookie) < |s.reg|
  {
    StartKeeps();
    RunKeeps(env, true, START, ds);
  }

  // ---------- reply discipline ----------

  /** The frees and replies of a log, in order. */
  function Replies(log: seq<Command>): (s: seq<Command>) {
    if log == [] then []
    else
      var c := log[|log| - 1];
      Replies(log[..|log| - 1]) + (if IsReply(c) then [c] else [])
  }

  /** For each transaction in turn: its own buffer freed, then one reply. */
  ghost predicate Disciplined(replies: seq<Command>, ds: seq<Delivery>)
    decreases |ds|
  {
    if ds == [] then replies == []
    else if ds[0].cmd.Transaction? then
      && |replies| >= 2 && replies[0] == FreeBuffer(ds[0].cmd.txn.buffer)
      && (replies[1].ReplyStatus? || replies[1].ReplyData?)
      && Disciplined(replies[2..], ds[1..])
    else Disciplined(replies, ds[1..])
  }

  ghost function Answers(env: Env, s: State, d: Delivery): (r: seq<Command>) {
    if d.cmd.Transaction?
    then [FreeBuffer(d.cmd.txn.buffer), Answer(Serve(env, s, d.mem, d.cmd.txn))]
    else []
  }

  lemma OneReply(log: seq<Command>, c: Command)
    ensures Replies(log + [c]) == Replies(log) + (if IsReply(c) then [c] else [])
  {
  }

  lemma {:induction false} NoReplies(log: seq<Command>, log': seq<Command>)
    requires OnlyRefs(log, log')
    ensures Replies(log') == Replies(log)
    decreases |log'|
  {
    if |log'| == |log| {
      assert log' == log;
    } else {
      var l := log'[..|log'| - 1];
      assert log' == l + [log'[|log'| - 1]];
      OneReply(l, log'[|log'| - 1]);
      NoReplies(log, l);
    }
  }

  /** A step writes reference commands only, then for a transaction its free and its reply. */
  lemma StepReplies(env: Env, s: State, d: Delivery)
    ensures Replies(Step(env, true, s, d).log) == Replies(s.log) + Answers(env, s, d)
  {
    if d.cmd.Transaction? {
      ServedLog(env, s, d);
      hide Serve, Step, Replies, Answer;
      var o := Serve(env, s, d.mem, d.cmd.txn);
      NoReplies(s.log, o.s.log);
      OneReply(o.s.log, FreeBuffer(d.cmd.txn.buffer));
      OneReply(o.s.log + [FreeBuffer(d.cmd.txn.buffer)], Answer(o));
      assert IsReply(Answer(o)) by { AnswerIsReply(o); }
    } else {
      NoReplies(s.log, Step(env, true, s, d).log);
    }
  }

  lemma AnswerIsReply(o: Outcome)
    ensures IsReply(Answer(o))
  {
  }

  ghost function AllAnswers(env: Env, s: State, ds: seq<Delivery>): (r: seq<Command>)
    decreases |ds|
  {
    if ds == [] then [] else Answers(env, s, ds[0]) + AllAnswers(env, Step(env, true, s, ds[0]), ds[1..])
  }

  /** The frees and replies of any run are those of its transactions, in order. */
  lemma {:induction false} RunReplies(env: Env, s: State, ds: seq<Delivery>)
    ensures Replies(Run(env, true, s, ds).log) == Replies(s.log) + AllAnswers(env, s, ds)
    decreases |ds|
  {
    hide Step, Answers;
    if ds != [] {
      var s1 := Step(env, true, s, ds[0]);
      StepReplies(env, s, ds[0]);
      RunReplies(env, s1, ds[1..]);
    }
  }

  /** Every transaction of any run is answered exactly once, in order, whatever the handler returned. */
  lemma ReplyDiscipline(env: Env, ds: seq<Delivery>)
    ensures Disciplined(Replies(Run(env, true, START, ds).log), ds)
  {
    RunReplies(env, START, ds);
    AnswersPaired(env, START, ds);
    hide Run, AllAnswers, Disciplined;
    assert Replies(START.log) + AllAnswers(env, START, ds) == AllAnswers(env, START, ds);
  }

  lemma {:induction false} AnswersPaired(env: Env, s: State, ds: seq<Delivery>)
    ensures Disciplined(AllAnswers(env, s, ds), ds)
    decreases |ds|
  {
    if ds != [] {
      hide Step, Serve;
      var s1 := Step(env, true, s, ds[0]);
      AnswersPaired(env, s1, ds[1..]);
      var a := Answers(env, s, ds[0]);
      assert (a + AllAnswers(env, s1, ds[1..]))[|a|..] == AllAnswers(env, s1, ds[1..]);
    }
  }
}
