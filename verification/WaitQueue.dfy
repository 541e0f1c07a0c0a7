/**
 The globalvar device: any number of processes read and write one buffer under a spinlock,
 and readers wait for a flag that writers set after they have released the lock.
 Each action is one access to the shared state.
 */
module WaitQueue {
  import opened Bytes

  type Pid = nat

  /** Where a process stands in globalvar_read or globalvar_write, with its local variables. */
  datatype Pc =
    | Idle
    // globalvar_read
    | Checking                      // wait_event_interruptible, about to test the flag
    | Sleeping                      // on the wait queue
    | ReadLocking                   // past the wait
    | ReadLocked
    | Measured(readLen: nat)
    | Copied(bytes: seq<byte>)      // copy_to_user succeeded
    | Consumed(bytes: seq<byte>)    // read_index = write_index
    | Cleared(bytes: seq<byte>)     // flag = 0
    | Faulted                       // -EFAULT, still holding the lock
    // globalvar_write
    | WriteLocking(data: seq<byte>)
    | WriteLocked(data: seq<byte>)
    | Stored(data: seq<byte>)       // copy_from_user succeeded
    | Advanced                      // write_index += len
    | Released                      // lock released, flag not yet set
    | Flagged                       // flag = 1, readers not yet woken

  /**
   The module's variables and the processes. accepted: the bytes of successful writes, delivered:
   those of successful reads, both in the order in which the lock was held.
   */
  datatype Device = Device(globalVar: seq<byte>, readIndex: nat, writeIndex: nat, flag: bool, lock: Option<Pid>,
                           procs: map<Pid, Pc>, accepted: seq<byte>, delivered: seq<byte>)

  datatype Action =
    | StartRead(p: Pid)
    | Check(p: Pid)
    | Interrupt(p: Pid)
    | LockRead(p: Pid)
    | Measure(p: Pid)
    | CopyToUser(p: Pid, ok: bool)
    | Consume(p: Pid)
    | Clear(p: Pid)
    | Unlock(p: Pid)
    | StartWrite(p: Pid, data: seq<byte>)
    | LockWrite(p: Pid)
    | CopyFromUser(p: Pid, ok: bool, garbage: seq<byte>)
    | Advance(p: Pid)
    | SetFlag(p: Pid)
    | WakeUp(p: Pid)

  function Init(globalVar: seq<byte>, pids: set<Pid>): (r: Device) {
    Device(globalVar, 0, 0, false, None, map p | p in pids :: Idle, [], [])
  }

  predicate Holds(pc: Pc) {
    pc.ReadLocked? || pc.Measured? || pc.Copied? || pc.Consumed? || pc.Cleared? || pc.Faulted?
    || pc.WriteLocked? || pc.Stored? || pc.Advanced?
  }

  /** Is there room behind the bytes written so far? The module has no check of its own. */
  predicate HasRoom(d: Device, data: seq<byte>) { d.writeIndex + |data| <= |d.globalVar| }

  /** Can the process take this step? A write that gets the lock has room. */
  predicate Enabled(d: Device, a: Action) {
    a.p in d.procs &&
    var pc := d.procs[a.p];
    match a
    case StartRead(_) => pc.Idle?
    case Check(_) => pc.Checking?
    case Interrupt(_) => pc.Sleeping?
    case LockRead(_) => pc.ReadLocking? && d.lock == None
    case Measure(_) => pc.ReadLocked?
    case CopyToUser(_, _) => pc.Measured?
    case Consume(_) => pc.Copied?
    case Clear(_) => pc.Consumed?
    case Unlock(_) => pc.Cleared? || pc.Faulted? || pc.Advanced?
    case StartWrite(_, _) => pc.Idle?
    case LockWrite(_) => pc.WriteLocking? && d.lock == None && HasRoom(d, pc.data)
    case CopyFromUser(_, ok, garbage) => pc.WriteLocked? && HasRoom(d, pc.data) && |garbage| <= |pc.data|
    case Advance(_) => pc.Stored?
    case SetFlag(_) => pc.Released?
    case WakeUp(_) => pc.Flagged?
  }

  function Move(d: Device, p: Pid, pc: Pc): (r: Device) { d.(procs := d.procs[p := pc]) }

  /** The `n` bytes from place `i` on, if the array has them. */
  function Slice(m: seq<byte>, i: nat, n: nat): (s: seq<byte>) {
    if i + n <= |m| then m[i..i + n] else []
  }

  function Next(d: Device, a: Action): (r: Device)
    requires Enabled(d, a)
  {
    var p := a.p;
    var pc := d.procs[p];
    match a
    case StartRead(_) => Move(d, p, Checking)
    case Check(_) => Move(d, p, if d.flag then ReadLocking else Sleeping)
    case Interrupt(_) => Move(d, p, Idle)
    case LockRead(_) => Move(d, p, ReadLocked).(lock := Some(p))
    case Measure(_) => Move(d, p, Measured(if d.readIndex <= d.writeIndex then d.writeIndex - d.readIndex else 0))
    case CopyToUser(_, ok) =>
      Move(d, p, if ok then Copied(Slice(d.globalVar, d.readIndex, pc.readLen)) else Faulted)
    case Consume(_) =>
      Move(d, p, Consumed(pc.bytes)).(readIndex := d.writeIndex, delivered := d.delivered + pc.bytes)
    case Clear(_) => Move(d, p, Cleared(pc.bytes)).(flag := false)
    case Unlock(_) => Move(d, p, if pc.Advanced? then Released else Idle).(lock := None)
    case StartWrite(_, data) => Move(d, p, WriteLocking(data))
    case LockWrite(_) => Move(d, p, WriteLocked(pc.data)).(lock := Some(p))
    case CopyFromUser(_, ok, garbage) =>
      if ok then Move(d, p, Stored(pc.data)).(globalVar := Splice(d.globalVar, d.writeIndex, pc.data))
      else Move(d, p, Faulted).(globalVar := Splice(d.globalVar, d.writeIndex, garbage))
    case Advance(_) =>
      Move(d, p, Advanced).(writeIndex := d.writeIndex + |pc.data|, accepted := d.accepted + pc.data)
    case SetFlag(_) => Move(d, p, Flagged).(flag := true)
    case WakeUp(_) =>
      var w := Move(d, p, Idle);
      w.(procs := map q | q in w.procs :: if w.procs[q].Sleeping? then Checking else w.procs[q])
  }

  predicate IsRun(d: Device, acts: seq<Action>)
    decreases |acts|
  {
    acts == [] || (Enabled(d, acts[0]) && IsRun(Next(d, acts[0]), acts[1..]))
  }

  function Run(d: Device, acts: seq<Action>): (r: Device)
    requires IsRun(d, acts)
    decreases |acts|
  {
    if acts == [] then d else Run(Next(d, acts[0]), acts[1..])
  }

  // ---------- the invariant ----------

  /** Exactly the process that the lock names is in a critical section. */
  ghost predicate Exclusive(d: Device) {
    && (forall p | p in d.procs :: Holds(d.procs[p]) <==> d.lock == Some(p))
    && (d.lock.Some? ==> d.lock.value in d.procs)
  }

  /** The unread bytes. */
  function Pending(d: Device): (s: seq<byte>) {
    if d.readIndex <= d.writeIndex <= |d.globalVar| then d.globalVar[d.readIndex..d.writeIndex] else []
  }

  /** What the process in the critical section has in hand. */
  ghost predicate LocalOk(d: Device, pc: Pc) {
    && (pc.Measured? ==> pc.readLen == d.writeIndex - d.readIndex)
    && (pc.Copied? ==> pc.bytes == Pending(d))
    && (pc.Consumed? || pc.Cleared? ==> d.readIndex == d.writeIndex)
    && (pc.WriteLocked? ==> HasRoom(d, pc.data))
    && (pc.Stored? ==>
      && d.writeIndex + |pc.data| <= |d.globalVar|
      && d.globalVar[d.writeIndex..d.writeIndex + |pc.data|] == pc.data)
  }

  /** Accepted bytes are delivered or pending, each once, in order. */
  ghost predicate Conserved(d: Device) {
    d.readIndex <= d.writeIndex <= |d.globalVar| && d.accepted == d.delivered + Pending(d)
  }

  ghost predicate LocalsOk(d: Device) {
    forall p | p in d.procs :: LocalOk(d, d.procs[p])
  }

  /** A writer that has published bytes but not yet set the flag. */
  ghost predicate BeforeFlag(d: Device) {
    exists p :: p in d.procs && (d.procs[p].Advanced? || d.procs[p].Released?)
  }

  /** A writer that has set the flag but not yet woken the readers. */
  ghost predicate BeforeWake(d: Device) {
    exists p :: p in d.procs && d.procs[p].Flagged?
  }

  /** Unread bytes are announced, or about to be; a sleeper sees the flag, or is about to be woken. */
  ghost predicate Announced(d: Device) {
    && (d.readIndex < d.writeIndex ==> d.flag || BeforeFlag(d))
    && (forall p | p in d.procs && d.procs[p].Sleeping? :: d.flag ==> BeforeWake(d))
  }

  ghost predicate Inv(d: Device) { Exclusive(d) && Conserved(d) && LocalsOk(d) && Announced(d) }

  lemma StepExclusive(d: Device, a: Action)
    requires Exclusive(d) && Enabled(d, a)
    ensures Exclusive(Next(d, a))
  {
  }

  lemma BehindPending(m: seq<byte>, m': seq<byte>, i: nat, w: nat)
    requires i <= w <= |m| == |m'| && m[..w] == m'[..w]
    ensures m[i..w] == m'[i..w]
  {
    assert m[i..w] == m[..w][i..] && m'[i..w] == m'[..w][i..];
  }

  /** Storing behind the unread bytes, whole or in part, leaves them. */
  lemma StoreConserves(d: Device, a: Action)
    requires Conserved(d) && Enabled(d, a) && a.CopyFromUser?
    ensures var e := Next(d, a); Conserved(e) && d.accepted == e.accepted && d.delivered == e.delivered
  {
    hide Holds;
    BehindPending(d.globalVar, Next(d, a).globalVar, d.readIndex, d.writeIndex);
  }

  lemma AccountGrows(m: seq<byte>, i: nat, w: nat, data: seq<byte>, accepted: seq<byte>, delivered: seq<byte>)
    requires i <= w && w + |data| <= |m| && m[w..w + |data|] == data && accepted == delivered + m[i..w]
    ensures accepted + data == delivered + m[i..w + |data|]
  {
    SubSlice(m, i, w - i + |data|, w - i);
  }

  /** Advancing over what was stored adds it to them. */
  lemma AdvanceConserves(d: Device, a: Action)
    requires Conserved(d) && Enabled(d, a) && a.Advance? && LocalOk(d, d.procs[a.p])
    ensures var e := Next(d, a); Conserved(e) && d.accepted <= e.accepted && d.delivered == e.delivered
  {
    var e, data := Next(d, a), d.procs[a.p].data;
    assert e.globalVar == d.globalVar && e.readIndex == d.readIndex && e.writeIndex == d.writeIndex + |data|;
    assert e.accepted == d.accepted + data && e.delivered == d.delivered;
    hide Next, Holds, Splice, Enabled;
    AccountGrows(d.globalVar, d.readIndex, d.writeIndex, data, d.accepted, d.delivered);
  }

  /** A step keeps the account of bytes; only writers add to it, and a read takes exactly what is unread. */
  lemma StepConserved(d: Device, a: Action)
    requires Conserved(d) && LocalsOk(d) && Enabled(d, a)
    ensures Conserved(Next(d, a))
    ensures d.accepted <= Next(d, a).accepted && d.delivered <= Next(d, a).delivered
  {
    assert LocalOk(d, d.procs[a.p]);
    hide LocalsOk, Holds, Splice;
    if a.CopyFromUser? {
      StoreConserves(d, a);
      hide Next;
    } else if a.Advance? {
      AdvanceConserves(d, a);
      hide Next;
    }
  }

  lemma OwnLocal(d: Device, a: Action)
    requires Conserved(d) && Enabled(d, a) && LocalOk(d, d.procs[a.p])
    ensures LocalOk(Next(d, a), Next(d, a).procs[a.p])
  {
  }

  /** A process in the critical section has the shared state to itself. */
  lemma OtherLocal(d: Device, a: Action, p: Pid)
    requires p != a.p && p in d.procs && Enabled(d, a)
    requires Holds(d.procs[p]) ==> d.lock == Some(p) && !Holds(d.procs[a.p])
    requires LocalOk(d, d.procs[p])
    ensures LocalOk(Next(d, a), Next(d, a).procs[p])
  {
  }

  lemma StepLocals(d: Device, a: Action)
    requires Exclusive(d) && Conserved(d) && LocalsOk(d) && Enabled(d, a)
    ensures LocalsOk(Next(d, a))
  {
    var e := Next(d, a);
    OwnLocal(d, a);
    forall p | p in e.procs
      ensures LocalOk(e, e.procs[p])
    {
      assert p in d.procs by { hide LocalOk, LocalsOk, Exclusive, Conserved; }
      hide Next, LocalOk, Conserved;
      if p != a.p {
        OtherLocal(d, a, p);
      }
    }
  }

  /** A step moves its own process, and at most wakes the others. */
  lemma OthersStay(d: Device, a: Action, p: Pid)
    requires Enabled(d, a) && p in d.procs && p != a.p
    ensures var e := Next(d, a);
      p in e.procs && (e.procs[p] == d.procs[p] || (d.procs[p].Sleeping? && e.procs[p] == Checking))
  {
  }

  lemma StepFlag(d: Device, a: Action)
    requires Enabled(d, a) && Conserved(d) && LocalOk(d, d.procs[a.p])
    requires d.readIndex < d.writeIndex ==> d.flag || BeforeFlag(d)
    ensures var e := Next(d, a); e.readIndex < e.writeIndex ==> e.flag || BeforeFlag(e)
  {
    var e := Next(d, a);
    if p :| p in d.procs && p != a.p && (d.procs[p].Advanced? || d.procs[p].Released?) {
      OthersStay(d, a, p);
    }
    hide Pending, Holds;
    assert e.procs[a.p] == e.procs[a.p];
  }

  lemma StepWake(d: Device, a: Action)
    requires Enabled(d, a)
    requires forall p | p in d.procs && d.procs[p].Sleeping? :: d.flag ==> BeforeWake(d)
    ensures var e := Next(d, a); forall p | p in e.procs && e.procs[p].Sleeping? :: e.flag ==> BeforeWake(e)
  {
    var e := Next(d, a);
    if p :| p in d.procs && p != a.p && d.procs[p].Flagged? {
      OthersStay(d, a, p);
    }
    assert e.procs[a.p] == e.procs[a.p];
  }

  lemma StepAnnounced(d: Device, a: Action)
    requires Inv(d) && Enabled(d, a)
    ensures Announced(Next(d, a))
  {
    assert LocalOk(d, d.procs[a.p]);
    StepFlag(d, a);
    StepWake(d, a);
    hide Next, BeforeFlag, BeforeWake;
  }

  lemma StepInv(d: Device, a: Action)
    requires Inv(d) && Enabled(d, a)
    ensures Inv(Next(d, a))
    ensures d.accepted <= Next(d, a).accepted && d.delivered <= Next(d, a).delivered
  {
    StepExclusive(d, a);
    StepConserved(d, a);
    StepLocals(d, a);
    StepAnnounced(d, a);
  }

  lemma {:induction false} RunInv(d: Device, acts: seq<Action>)
    requires Inv(d) && IsRun(d, acts)
    ensures Inv(Run(d, acts))
    ensures d.accepted <= Run(d, acts).accepted && d.delivered <= Run(d, acts).delivered
    decreases |acts|
  {
    if acts != [] {
      StepInv(d, acts[0]);
      RunInv(Next(d, acts[0]), acts[1..]);
    }
  }

  /**
   Under every interleaving, with any copies faulting: at most one process is in a critical
   section, and the delivered bytes followed by the pending ones are the accepted ones.
   */
  lemma ExactlyOnceInOrder(globalVar: seq<byte>, pids: set<Pid>, acts: seq<Action>)
    requires IsRun(Init(globalVar, pids), acts)
    ensures var d := Run(Init(globalVar, pids), acts);
      && Exclusive(d)
      && d.readIndex <= d.writeIndex <= |d.globalVar|
      && d.accepted == d.delivered + d.globalVar[d.readIndex..d.writeIndex]
  {
    RunInv(Init(globalVar, pids), acts);
  }

  /** No wake-up is lost: with no writer in flight, pending bytes raise the flag, and nobody sleeps on them. */
  lemma NoLostWakeUp(globalVar: seq<byte>, pids: set<Pid>, acts: seq<Action>, p: Pid)
    requires IsRun(Init(globalVar, pids), acts)
    ensures var d := Run(Init(globalVar, pids), acts);
      d.readIndex < d.writeIndex && !BeforeFlag(d) ==>
        && d.flag
        && (p in d.procs && d.procs[p].Sleeping? ==> BeforeWake(d))
        && (p in d.procs && d.procs[p].Checking? ==> Next(d, Check(p)) == Move(d, p, ReadLocking))
  {
    RunInv(Init(globalVar, pids), acts);
  }

  /** The steps of one read that finds the flag set and the lock free. */
  function ReadSteps(p: Pid): (s: seq<Action>) {
    [Check(p), LockRead(p), Measure(p), CopyToUser(p, true), Consume(p), Clear(p), Unlock(p)]
  }

  /** The reader has taken the first `k` of these steps. */
  ghost predicate Stage(d: Device, p: Pid, k: nat) {
    p in d.procs &&
    var pc := d.procs[p];
    if k == 0 then pc.Checking? && d.flag && d.lock == None
    else if k == 1 then pc.ReadLocking? && d.lock == None
    else if k == 2 then pc.ReadLocked?
    else if k == 3 then pc.Measured?
    else if k == 4 then pc.Copied?
    else if k == 5 then pc.Consumed?
    else if k == 6 then pc.Cleared? && !d.flag
    else pc.Idle? && d.lock == None && d.readIndex == d.writeIndex && !d.flag
  }

  lemma StageStep(d: Device, p: Pid, k: nat)
    requires Inv(d) && Stage(d, p, k) && k < 7
    ensures Enabled(d, ReadSteps(p)[k])
    ensures var e := Next(d, ReadSteps(p)[k]);
      Inv(e) && Stage(e, p, k + 1) && e.accepted == d.accepted
  {
    assert LocalOk(d, d.procs[p]);
    StepInv(d, ReadSteps(p)[k]);
  }

  lemma {:induction false} RestDrains(d: Device, p: Pid, k: nat)
    requires Inv(d) && Stage(d, p, k) && k <= 7
    ensures IsRun(d, ReadSteps(p)[k..])
    ensures var e := Run(d, ReadSteps(p)[k..]);
      Stage(e, p, 7) && e.delivered == e.accepted == d.accepted
    decreases 7 - k
  {
    if k < 7 {
      StageStep(d, p, k);
      hide Next, Enabled, Inv, Stage;
      RestDrains(Next(d, ReadSteps(p)[k]), p, k + 1);
      assert ReadSteps(p)[k..][1..] == ReadSteps(p)[k + 1..];
    }
  }

  /** Such a reader can always run to its end, and takes every byte accepted and not yet delivered. */
  lemma ReaderDrains(d: Device, p: Pid)
    requires Inv(d) && p in d.procs && d.procs[p].Checking? && d.lock == None
    requires d.readIndex < d.writeIndex && !BeforeFlag(d)
    ensures IsRun(d, ReadSteps(p))
    ensures var e := Run(d, ReadSteps(p));
      e.delivered == e.accepted == d.accepted && e.readIndex == e.writeIndex && !e.flag
  {
    RestDrains(d, p, 0);
    assert ReadSteps(p)[0..] == ReadSteps(p);
  }

  /** How many steps the process in the critical section is from letting the bytes go or the lock. */
  function ToUnlock(d: Device): (n: nat) {
    if d.lock.None? || d.lock.value !in d.procs then 0
    else
      match d.procs[d.lock.value]
      case ReadLocked => 4
      case Measured(_) => 3
      case Copied(_) => 2
      case WriteLocked(_) => 4
      case Stored(_) => 3
      case Advanced => 2
      case Faulted => 2
      case _ => 1
  }

  /** The next step of a process in a critical section; its copies succeed. */
  function HolderStep(q: Pid, pc: Pc): (a: Action)
    requires Holds(pc)
    ensures a.p == q
  {
    match pc
    case ReadLocked => Measure(q)
    case Measured(_) => CopyToUser(q, true)
    case Copied(_) => Consume(q)
    case Consumed(_) => Clear(q)
    case WriteLocked(_) => CopyFromUser(q, true, [])
    case Stored(_) => Advance(q)
    case _ => Unlock(q)
  }

  /** A reader is at its check, or asleep. */
  predicate Waiting(d: Device, p: Pid) { p in d.procs && (d.procs[p].Checking? || d.procs[p].Sleeping?) }

  lemma HolderMoves(d: Device, p: Pid, q: Pid)
    requires Inv(d) && Waiting(d, p) && d.readIndex < d.writeIndex && d.lock == Some(q)
    ensures q in d.procs && Holds(d.procs[q]) && Enabled(d, HolderStep(q, d.procs[q]))
    ensures var e := Next(d, HolderStep(q, d.procs[q]));
      && Waiting(e, p) && ToUnlock(e) < ToUnlock(d)
      && (e.readIndex == e.writeIndex || e.readIndex < e.writeIndex)
  {
    assert LocalOk(d, d.procs[q]);
    assert Holds(d.procs[q]);
  }

  /** With the lock free: the step that brings a waiting reader nearer to reading. */
  lemma WaiterMoves(d: Device, p: Pid) returns (a: Action)
    requires Inv(d) && Waiting(d, p) && d.readIndex < d.writeIndex && d.lock == None
    requires !d.flag || d.procs[p].Sleeping?
    ensures Enabled(d, a)
    ensures var e := Next(d, a);
      && Waiting(e, p) && e.readIndex == d.readIndex && e.writeIndex == d.writeIndex && e.lock == None && e.flag
      && (d.flag ==> e.procs[p].Checking?)
  {
    if !d.flag {
      var w :| w in d.procs && (d.procs[w].Advanced? || d.procs[w].Released?);
      assert Holds(d.procs[w]) <==> d.lock == Some(w);
      a := SetFlag(w);
    } else {
      var w :| w in d.procs && d.procs[w].Flagged?;
      a := WakeUp(w);
    }
  }

  /**
   From every state that a run can reach, with bytes pending and a reader at its check or asleep, whoever holds
   the lock and whatever the writers are up to: some run delivers every byte accepted so far.
   */
  lemma {:induction false} CanDrain(d: Device, p: Pid) returns (acts: seq<Action>)
    requires Inv(d) && Waiting(d, p) && d.readIndex < d.writeIndex
    ensures IsRun(d, acts)
    ensures var e := Run(d, acts);
      d.accepted <= e.accepted == e.delivered && e.readIndex == e.writeIndex
    decreases ToUnlock(d), if d.flag then 0 else 1, if d.procs[p].Sleeping? then 1 else 0
  {
    if d.lock == None && d.flag && d.procs[p].Checking? {
      RestDrains(d, p, 0);
      acts := ReadSteps(p)[0..];
      return;
    }
    var a;
    if d.lock.Some? {
      HolderMoves(d, p, d.lock.value);
      a := HolderStep(d.lock.value, d.procs[d.lock.value]);
    } else {
      a := WaiterMoves(d, p);
    }
    StepInv(d, a);
    var e := Next(d, a);
    if e.readIndex == e.writeIndex {
      acts := [a];
      assert Run(e, []) == e && [a][1..] == [];
    } else {
      var rest := CanDrain(e, p);
      acts := [a] + rest;
      assert acts[1..] == rest;
    }
  }

  /** So no reachable state is a dead end for the bytes that are pending in it. */
  lemma ReachableCanDrain(globalVar: seq<byte>, pids: set<Pid>, acts: seq<Action>, p: Pid) returns (more: seq<Action>)
    requires IsRun(Init(globalVar, pids), acts)
    requires var d := Run(Init(globalVar, pids), acts); Waiting(d, p) && d.readIndex < d.writeIndex
    ensures var d := Run(Init(globalVar, pids), acts);
      IsRun(d, more) && d.accepted <= Run(d, more).accepted == Run(d, more).delivered
  {
    RunInv(Init(globalVar, pids), acts);
    more := CanDrain(Run(Init(globalVar, pids), acts), p);
  }

  // ---------- the flag ----------

  /** A writer sets the flag in the course of these actions, and no reader puts it back afterwards. */
  predicate RaisedLast(acts: seq<Action>) {
    exists k | 0 <= k < |acts| && acts[k].SetFlag? :: forall j | k < j < |acts| :: !acts[j].Clear?
  }

  predicate NeverCleared(acts: seq<Action>) { forall j | 0 <= j < |acts| :: !acts[j].Clear? }

  /** Only these two steps touch the flag. */
  lemma StepsFlag(d: Device, a: Action)
    requires Enabled(d, a)
    ensures Next(d, a).flag == (a.SetFlag? || (d.flag && !a.Clear?))
  {
  }

  lemma RaisedCons(a: Action, acts: seq<Action>)
    ensures RaisedLast([a] + acts) <==> RaisedLast(acts) || (a.SetFlag? && NeverCleared(acts))
    ensures NeverCleared([a] + acts) <==> !a.Clear? && NeverCleared(acts)
  {
    var all := [a] + acts;
    assert all[0] == a && forall j | 0 <= j < |acts| :: all[j + 1] == acts[j];
    if k :| 0 <= k < |acts| && acts[k].SetFlag? && forall j | k < j < |acts| :: !acts[j].Clear? {
      assert all[k + 1].SetFlag? && forall j | k + 1 < j < |all| :: all[j] == acts[j - 1];
    }
    if k :| 0 <= k < |all| && all[k].SetFlag? && forall j | k < j < |all| :: !all[j].Clear? {
      if k > 0 { assert acts[k - 1].SetFlag?; }
    }
  }

  lemma {:induction false} RunFlag(d: Device, acts: seq<Action>)
    requires IsRun(d, acts)
    ensures Run(d, acts).flag <==> RaisedLast(acts) || (d.flag && NeverCleared(acts))
    decreases |acts|
  {
    hide Next, Enabled, RaisedLast, NeverCleared;
    if acts == [] {
      NothingRaised();
    } else {
      StepsFlag(d, acts[0]);
      RunFlag(Next(d, acts[0]), acts[1..]);
      RaisedCons(acts[0], acts[1..]);
      assert [acts[0]] + acts[1..] == acts;
    }
  }

  lemma NothingRaised()
    ensures !RaisedLast([]) && NeverCleared([])
  {
  }

  /**
   Over any run the flag is up exactly when a writer has set it since the last read put it back; a reader at its
   check goes on if it is up and sleeps if it is down.
   */
  lemma FlagHistory(globalVar: seq<byte>, pids: set<Pid>, acts: seq<Action>, p: Pid)
    requires IsRun(Init(globalVar, pids), acts)
    ensures var d := Run(Init(globalVar, pids), acts);
      && (d.flag <==> RaisedLast(acts))
      && (p in d.procs && d.procs[p].Checking? ==>
        Next(d, Check(p)) == Move(d, p, if RaisedLast(acts) then ReadLocking else Sleeping))
  {
    RunFlag(Init(globalVar, pids), acts);
    hide Run, IsRun, RaisedLast;
  }

  /** Nobody gets past the wait but from its check, with the flag up. */
  lemma OnlyTheFlagLetsIn(d: Device, a: Action, p: Pid)
    requires Enabled(d, a) && p in d.procs && p in Next(d, a).procs
    requires Next(d, a).procs[p].ReadLocking? && !d.procs[p].ReadLocking?
    ensures a == Check(p) && d.flag
  {
  }

  /** A signal takes a sleeper, and only a sleeper, out of the read; it has taken nothing and leaves the flag alone. */
  lemma InterruptedRead(d: Device, p: Pid)
    requires p in d.procs
    ensures Enabled(d, Interrupt(p)) <==> d.procs[p].Sleeping?
    ensures Enabled(d, Interrupt(p)) ==> Next(d, Interrupt(p)) == d.(procs := d.procs[p := Idle])
  {
  }

  // ---------- a whole write, and copies that fault ----------

  function WriteSteps(p: Pid, data: seq<byte>): (s: seq<Action>) {
    [StartWrite(p, data), LockWrite(p), CopyFromUser(p, true, []), Advance(p), Unlock(p), SetFlag(p), WakeUp(p)]
  }

  function FaultSteps(p: Pid, data: seq<byte>, garbage: seq<byte>): (s: seq<Action>) {
    [StartWrite(p, data), LockWrite(p), CopyFromUser(p, false, garbage), Unlock(p)]
  }

  /** How far a write has come, and what the device holds then. */
  ghost predicate Written(d0: Device, d: Device, p: Pid, data: seq<byte>, k: nat) {
    p in d.procs && d.delivered == d0.delivered && d.readIndex == d0.readIndex &&
    d.accepted == d0.accepted + (if k >= 4 then data else []) &&
    var pc := d.procs[p];
    if k == 0 then pc.Idle? && d.lock == None && HasRoom(d, data)
    else if k == 1 then pc == WriteLocking(data) && d.lock == None && HasRoom(d, data)
    else if k == 2 then pc == WriteLocked(data)
    else if k == 3 then pc == Stored(data)
    else if k == 4 then pc.Advanced?
    else if k == 5 then pc.Released?
    else if k == 6 then pc.Flagged? && d.flag
    else pc.Idle? && d.flag && forall q | q in d.procs :: !d.procs[q].Sleeping?
  }

  lemma WrittenMoves(d0: Device, d: Device, p: Pid, data: seq<byte>, k: nat)
    requires Written(d0, d, p, data, k) && k < 7 && HasRoom(d, if k <= 2 then data else [])
    ensures Enabled(d, WriteSteps(p, data)[k])
    ensures Written(d0, Next(d, WriteSteps(p, data)[k]), p, data, k + 1)
  {
    hide Splice;
  }

  lemma WrittenStep(d0: Device, d: Device, p: Pid, data: seq<byte>, k: nat)
    requires Inv(d) && Written(d0, d, p, data, k) && k < 7
    ensures Enabled(d, WriteSteps(p, data)[k])
    ensures var e := Next(d, WriteSteps(p, data)[k]); Inv(e) && Written(d0, e, p, data, k + 1)
  {
    assert LocalOk(d, d.procs[p]);
    assert HasRoom(d, if k <= 2 then data else []);
    hide Inv, Next, Enabled, Written, WriteSteps;
    WrittenMoves(d0, d, p, data, k);
    StepInv(d, WriteSteps(p, data)[k]);
  }

  lemma {:induction false} RestWrites(d0: Device, d: Device, p: Pid, data: seq<byte>, k: nat)
    requires Inv(d) && Written(d0, d, p, data, k) && k <= 7
    ensures IsRun(d, WriteSteps(p, data)[k..])
    ensures var e := Run(d, WriteSteps(p, data)[k..]); Inv(e) && Written(d0, e, p, data, 7)
    decreases 7 - k
  {
    if k < 7 {
      WrittenStep(d0, d, p, data, k);
      hide Next, Enabled, Inv, Written;
      RestWrites(d0, Next(d, WriteSteps(p, data)[k]), p, data, k + 1);
      assert WriteSteps(p, data)[k..][1..] == WriteSteps(p, data)[k + 1..];
    }
  }

  /**
   A write of a process that finds the lock free can run to its end; then its bytes are unread, behind those that
   were, the flag is up, and every sleeper has been woken.
   */
  lemma WriteCompletes(d: Device, p: Pid, data: seq<byte>)
    requires Inv(d) && p in d.procs && d.procs[p].Idle? && d.lock == None && HasRoom(d, data)
    ensures IsRun(d, WriteSteps(p, data))
    ensures var e := Run(d, WriteSteps(p, data));
      && Inv(e) && e.accepted == d.accepted + data && e.delivered == d.delivered
      && Pending(e) == Pending(d) + data && e.flag
      && forall q | q in e.procs :: !e.procs[q].Sleeping?
  {
    RestWrites(d, d, p, data, 0);
    assert WriteSteps(p, data)[0..] == WriteSteps(p, data);
    var e := Run(d, WriteSteps(p, data));
    hide Run, IsRun, WriteSteps, Pending, Exclusive, LocalsOk, Announced, HasRoom;
    Unprefix(d.delivered, Pending(d), data, Pending(e));
  }

  lemma Unprefix(a: seq<byte>, b: seq<byte>, c: seq<byte>, x: seq<byte>)
    requires (a + b) + c == a + x
    ensures x == b + c
  {
    assert (a + x)[|a|..] == x && (a + b + c)[|a|..] == b + c;
  }

  lemma RunOfFour(d: Device, a0: Action, a1: Action, a2: Action, a3: Action)
    requires Enabled(d, a0) && Enabled(Next(d, a0), a1) && Enabled(Next(Next(d, a0), a1), a2)
    requires Enabled(Next(Next(Next(d, a0), a1), a2), a3)
    ensures IsRun(d, [a0, a1, a2, a3])
    ensures Run(d, [a0, a1, a2, a3]) == Next(Next(Next(Next(d, a0), a1), a2), a3)
  {
    hide Next, Enabled;
    var d1 := Next(d, a0);
    var d2 := Next(d1, a1);
    var d3 := Next(d2, a2);
    var d4 := Next(d3, a3);
    assert IsRun(d4, []) && Run(d4, []) == d4;
    assert [a3][1..] == [] && IsRun(d3, [a3]) && Run(d3, [a3]) == d4;
    assert [a2, a3][1..] == [a3] && IsRun(d2, [a2, a3]) && Run(d2, [a2, a3]) == d4;
    assert [a1, a2, a3][1..] == [a2, a3] && IsRun(d1, [a1, a2, a3]) && Run(d1, [a1, a2, a3]) == d4;
    assert [a0, a1, a2, a3][1..] == [a1, a2, a3];
  }

  lemma Locks(d: Device, p: Pid, data: seq<byte>)
    requires p in d.procs && d.procs[p].Idle? && d.lock == None && HasRoom(d, data)
    ensures var d1 := Move(d, p, WriteLocking(data));
      && Enabled(d, StartWrite(p, data)) && Next(d, StartWrite(p, data)) == d1
      && Enabled(d1, LockWrite(p)) && Next(d1, LockWrite(p)) == Move(d, p, WriteLocked(data)).(lock := Some(p))
  {
    assert d.procs[p := WriteLocking(data)][p := WriteLocked(data)] == d.procs[p := WriteLocked(data)];
  }

  lemma Faults(d: Device, p: Pid, data: seq<byte>, garbage: seq<byte>)
    requires p in d.procs && d.procs[p].Idle? && d.lock == None && HasRoom(d, data) && |garbage| <= |data|
    ensures var d2 := Move(d, p, WriteLocked(data)).(lock := Some(p));
      var d3 := Move(d, p, Faulted).(lock := Some(p), globalVar := Splice(d.globalVar, d.writeIndex, garbage));
      && Enabled(d2, CopyFromUser(p, false, garbage)) && Next(d2, CopyFromUser(p, false, garbage)) == d3
      && Enabled(d3, Unlock(p)) && Next(d3, Unlock(p)) == d.(globalVar := d3.globalVar)
  {
    hide Splice;
    assert d.procs[p := WriteLocked(data)][p := Faulted] == d.procs[p := Faulted];
    assert d.procs[p := Faulted][p := Idle] == d.procs;
  }

  /** A write whose copy faults, whatever it left behind the unread bytes, has published and announced nothing. */
  lemma FaultedWrite(d: Device, p: Pid, data: seq<byte>, garbage: seq<byte>)
    requires Inv(d) && p in d.procs && d.procs[p].Idle? && d.lock == None && HasRoom(d, data) && |garbage| <= |data|
    ensures IsRun(d, FaultSteps(p, data, garbage))
    ensures var e := Run(d, FaultSteps(p, data, garbage));
      && e.accepted == d.accepted && e.delivered == d.delivered && Pending(e) == Pending(d)
      && e.flag == d.flag && e.lock == None && e.procs == d.procs
  {
    Locks(d, p, data);
    Faults(d, p, data, garbage);
    assert Conserved(d);
    hide Next, Run, IsRun, Enabled, Inv, Splice, Move;
    RunOfFour(d, StartWrite(p, data), LockWrite(p), CopyFromUser(p, false, garbage), Unlock(p));
    SplicedBehind(d.globalVar, d.writeIndex, garbage);
    BehindPending(d.globalVar, Splice(d.globalVar, d.writeIndex, garbage), d.readIndex, d.writeIndex);
  }

  lemma SplicedBehind(m: seq<byte>, i: nat, b: seq<byte>)
    requires i + |b| <= |m|
    ensures Splice(m, i, b)[..i] == m[..i]
  {
  }

  /** A read whose copy faults, past its wait, takes nothing and leaves the flag up. */
  lemma FaultedRead(d: Device, p: Pid)
    requires Inv(d) && p in d.procs && d.procs[p].ReadLocking? && d.lock == None
    ensures var acts := [LockRead(p), Measure(p), CopyToUser(p, false), Unlock(p)];
      IsRun(d, acts) && Run(d, acts) == Move(d, p, Idle)
  {
    RunOfFour(d, LockRead(p), Measure(p), CopyToUser(p, false), Unlock(p));
    assert d.procs[p := Faulted][p := Idle] == d.procs[p := Idle];
  }
}
