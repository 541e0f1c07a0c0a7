/** The service list and the driver references it holds, as values. */
module Registry {
  import opened Bytes
  import opened BioFormat

  type Name = seq<u16>

  /** One svcinfo; addr is the address of its embedded binder_death. */
  datatype Entry = Entry(name: Name, handle: u32, allowIsolated: bool, addr: u32)

  /** What user space writes to the driver; a transaction or reply carries what the driver copies from it. */
  datatype Command =
    | Acquire(handle: u32)
    | Release(handle: u32)
    | RequestDeath(handle: u32, cookie: u32)
    | FreeBuffer(buffer: u32)
    | ReplyStatus(status: int)
    | ReplyData(data: seq<byte>, offs: seq<u32>)
    | CallTransaction(target: u32, code: u32, data: seq<byte>, offs: seq<u32>)

  /** reg: svclist from its head; log: the commands written so far; turn: transactions handled so far. */
  datatype State = State(reg: seq<Entry>, log: seq<Command>, turn: nat)

  const START := State([], [], 0)
  const MAX_NAME := 127
  const AID_USER := 100000
  const AID_ISOLATED_START := 99000
  const AID_ISOLATED_END := 99999

  /** find_svc: the position of the first match, or the length of the list. */
  function Find(reg: seq<Entry>, name: Name): (i: nat)
    ensures i <= |reg|
    ensures i < |reg| ==> reg[i].name == name
    ensures forall j | 0 <= j < i :: reg[j].name != name
  {
    if reg == [] || reg[0].name == name then 0 else 1 + Find(reg[1..], name)
  }

  predicate Isolated(uid: u32) { AID_ISOLATED_START <= uid % AID_USER <= AID_ISOLATED_END }

  /** Every user has 100000 uids, and the last 1000 of them are isolated. */
  lemma IsolatedIsLastThousand(user: nat, app: nat)
    requires app < 100000 && user * 100000 + app < 0x1_0000_0000
    ensures Isolated(user * 100000 + app) <==> app >= 99000
  {
  }

  /** do_find_service */
  function Lookup(reg: seq<Entry>, name: Name, uid: u32): (n: u32) {
    var i := Find(reg, name);
    if i < |reg| && (reg[i].allowIsolated || !Isolated(uid)) then reg[i].handle else 0
  }

  function SetHandle(reg: seq<Entry>, i: nat, handle: u32): (s: seq<Entry>)
    requires i < |reg|
  {
    reg[i := reg[i].(handle := handle)]
  }

  /** svcinfo_death on the i-th node. */
  function Die(s: State, i: nat): (s': State)
    requires i < |s.reg|
  {
    var h := s.reg[i].handle;
    if h == 0 then s
    else s.(reg := SetHandle(s.reg, i, 0), log := s.log + [Release(h)])
  }

  /** The name a received string denotes; lengths beyond what was read denote no registered name. */
  function NameOf(t: Text): (r: Name) {
    if t.chars.Some? && t.len <= |t.chars.value| then t.chars.value[..t.len] else []
  }

  function Hold(s: State, handle: u32, cookie: u32): (s': State) {
    s.(log := s.log + [Acquire(handle), RequestDeath(handle, cookie)])
  }

  /** do_add_service; `addr` is what malloc returns, 0 for NULL. The flag tells whether it succeeds. */
  function Add(s: State, t: Text, handle: u32, allow: bool, addr: u32): (r: (State, bool)) {
    if handle == 0 || t.len == 0 || t.len > MAX_NAME then (s, false)
    else
      var i := Find(s.reg, NameOf(t));
      if i < |s.reg| then (Override(s, i, handle), true)
      else if addr == 0 then (s, false)
      else (Register(s, Entry(NameOf(t), handle, allow, addr)), true)
  }

  /** A second registration of a name: the old handle is let go as on its death; allow_isolated stays. */
  function Override(s: State, i: nat, handle: u32): (s': State)
    requires i < |s.reg|
  {
    var d := Die(s, i);
    Hold(d.(reg := SetHandle(d.reg, i, handle)), handle, s.reg[i].addr)
  }

  function Register(s: State, e: Entry): (s': State) {
    Hold(s.(reg := [e] + s.reg), e.handle, e.addr)
  }

  /** Any address malloc may return: NULL, or one that is not in use. */
  function Malloc(reg: seq<Entry>, wish: u32): (addr: u32)
    ensures addr == 0 || forall i | 0 <= i < |reg| :: reg[i].addr != addr
    ensures addr == wish || (addr == 0 && exists i | 0 <= i < |reg| :: reg[i].addr == wish)
  {
    if exists i | 0 <= i < |reg| :: reg[i].addr == wish then 0 else wish
  }

  predicate IsReply(c: Command) { c.FreeBuffer? || c.ReplyStatus? || c.ReplyData? }

  /** Adding writes reference commands only, after what was written before. */
  lemma AddWrites(s: State, t: Text, handle: u32, allow: bool, addr: u32)
    ensures var s' := Add(s, t, handle, allow, addr).0;
      s'.turn == s.turn && OnlyRefs(s.log, s'.log)
  {
  }

  /** Exactly what an add writes: the old handle is let go, the new one acquired, and its death asked for. */
  lemma AddLog(s: State, t: Text, handle: u32, allow: bool, addr: u32)
    ensures var (s', ok) := Add(s, t, handle, allow, addr);
      var i := Find(s.reg, NameOf(t));
      var (old_, cookie) := if i < |s.reg| then (s.reg[i].handle, s.reg[i].addr) else (0, addr);
      s'.log == s.log + (if ok && old_ != 0 then [Release(old_)] else [])
                      + (if ok then [Acquire(handle), RequestDeath(handle, cookie)] else [])
  {
  }

  ghost predicate OnlyRefs(log: seq<Command>, log': seq<Command>) {
    log <= log' && forall k | |log| <= k < |log'| :: !IsReply(log'[k])
  }

  // ---------- what every run keeps ----------

  /** Names are distinct, 1 to 127 characters; death cookies are distinct and not null. */
  ghost predicate RegOk(reg: seq<Entry>) {
    && (forall i | 0 <= i < |reg| :: 1 <= |reg[i].name| <= MAX_NAME && reg[i].addr != 0)
    && (forall i, j | 0 <= i < j < |reg| :: reg[i].name != reg[j].name && reg[i].addr != reg[j].addr)
  }

  /** How many entries have this handle. */
  function Holders(reg: seq<Entry>, h: u32): (n: nat) {
    if reg == [] then 0 else (if reg[0].handle == h then 1 else 0) + Holders(reg[1..], h)
  }

  /** Acquires of a handle minus its releases. */
  function Net(log: seq<Command>, h: u32): (n: int) {
    if log == [] then 0
    else
      var c := log[|log| - 1];
      Net(log[..|log| - 1], h) + (if c == Acquire(h) then 1 else if c == Release(h) then -1 else 0)
  }

  /** The driver holds one reference on a handle for each entry that has it. */
  ghost predicate Balanced(s: State) {
    forall h: u32 | h != 0 :: Net(s.log, h) == Holders(s.reg, h)
  }

  /** No prefix of the log releases a handle more often than it acquires it. */
  ghost predicate Covered(log: seq<Command>) {
    forall k, h: u32 | 0 <= k <= |log| :: Net(log[..k], h) >= 0
  }

  /** Every cookie ever handed to the driver is the address of a node of the list. */
  ghost predicate Linked(s: State) {
    forall k | 0 <= k < |s.log| && s.log[k].RequestDeath? :: HasAddr(s.reg, s.log[k].cookie)
  }

  ghost predicate HasAddr(reg: seq<Entry>, addr: u32) {
    exists i :: 0 <= i < |reg| && reg[i].addr == addr
  }

  ghost predicate Requested(log: seq<Command>, cookie: u32) {
    exists k :: 0 <= k < |log| && log[k].RequestDeath? && log[k].cookie == cookie
  }

  /** Conversely the death of every entry has been asked for. */
  ghost predicate Watched(s: State) {
    forall i | 0 <= i < |s.reg| :: Requested(s.log, s.reg[i].addr)
  }

  ghost predicate Inv(s: State) {
    RegOk(s.reg) && Balanced(s) && Covered(s.log) && Linked(s)
  }

  /** No node is removed, renamed or moved: the old list is the tail of the new one, up to handles. */
  ghost predicate Grown(old_: seq<Entry>, new_: seq<Entry>) {
    |old_| <= |new_| && forall i | 0 <= i < |old_| ::
      new_[|new_| - |old_| + i].(handle := 0) == old_[i].(handle := 0)
  }

  /** The driver has been asked to report the death of every live service, under its handle and its node's cookie. */
  ghost predicate Reported(s: State) {
    forall i | 0 <= i < |s.reg| && s.reg[i].handle != 0 :: RequestDeath(s.reg[i].handle, s.reg[i].addr) in s.log
  }

  lemma StartKeeps()
    ensures Inv(START) && Watched(START) && Reported(START)
  {
  }

  lemma NetAppend(log: seq<Command>, c: Command, h: u32)
    ensures Net(log + [c], h) == Net(log, h) + (if c == Acquire(h) then 1 else if c == Release(h) then -1 else 0)
  {
  }

  lemma CoveredAppend(log: seq<Command>, c: Command)
    requires Covered(log)
    requires c.Release? ==> Net(log, c.handle) > 0
    ensures Covered(log + [c])
  {
    forall k, h: u32 | 0 <= k <= |log + [c]|
      ensures Net((log + [c])[..k], h) >= 0
    {
      assert log[..|log|] == log;
      if k <= |log| {
        assert (log + [c])[..k] == log[..k];
      } else {
        assert (log + [c])[..k] == log + [c];
        NetAppend(log, c, h);
        assert Net(log[..|log|], h) >= 0;
      }
    }
  }

  function HoldersAfter(reg: seq<Entry>, i: nat, handle: u32, h: u32): (n: int)
    requires i < |reg|
  {
    Holders(reg, h) - (if reg[i].handle == h then 1 else 0) + (if handle == h then 1 else 0)
  }

  lemma {:induction false} HoldersSet(reg: seq<Entry>, i: nat, handle: u32, h: u32)
    requires i < |reg|
    ensures Holders(SetHandle(reg, i, handle), h) == HoldersAfter(reg, i, handle, h)
  {
    if i > 0 {
      assert SetHandle(reg, i, handle)[1..] == SetHandle(reg[1..], i - 1, handle);
      HoldersSet(reg[1..], i - 1, handle, h);
    }
  }

  lemma HandleSet(reg: seq<Entry>, i: nat, handle: u32)
    requires RegOk(reg) && i < |reg|
    ensures var reg' := SetHandle(reg, i, handle);
      RegOk(reg') && Grown(reg, reg') && HasAddr(reg', reg[i].addr)
    ensures forall h :: Holders(SetHandle(reg, i, handle), h) == HoldersAfter(reg, i, handle, h)
  {
    var reg' := SetHandle(reg, i, handle);
    assert reg'[i].addr == reg[i].addr;
    forall h {
      HoldersSet(reg, i, handle, h);
    }
  }

  lemma LinksKept(s: State, s': State)
    requires Linked(s) && Grown(s.reg, s'.reg) && |s.log| <= |s'.log| && s'.log[..|s.log|] == s.log
    requires forall k | |s.log| <= k < |s'.log| && s'.log[k].RequestDeath? :: HasAddr(s'.reg, s'.log[k].cookie)
    ensures Linked(s')
  {
  }

  /** A death keeps every invariant, also a stale one, and also one of a service already dead. */
  lemma DieKeeps(s: State, i: nat)
    requires Inv(s) && i < |s.reg|
    ensures Inv(Die(s, i)) && Grown(s.reg, Die(s, i).reg)
  {
    hide Net, Holders, Linked, RegOk, Covered;
    var h := s.reg[i].handle;
    if h != 0 {
      HandleSet(s.reg, i, 0);
      assert Holders(SetHandle(s.reg, i, 0), h) == Holders(s.reg, h) - 1;
      CoveredAppend(s.log, Release(h));
      LinksKept(s, Die(s, i));
      forall h' {
        NetAppend(s.log, Release(h), h');
      }
    }
  }

  /** The list got one more holder of `handle`; acquiring it restores the balance. */
  lemma HoldKeeps(s: State, reg: seq<Entry>, handle: u32, cookie: u32)
    requires Inv(s) && RegOk(reg) && Grown(s.reg, reg) && handle != 0 && HasAddr(reg, cookie)
    requires forall h: u32 | h != 0 :: Holders(reg, h) == Holders(s.reg, h) + (if h == handle then 1 else 0)
    ensures Inv(Hold(s.(reg := reg), handle, cookie))
  {
    hide Net, Holders, Linked, RegOk, Covered;
    var t := Hold(s.(reg := reg), handle, cookie);
    var mid := s.log + [Acquire(handle)];
    assert t.log == mid + [RequestDeath(handle, cookie)];
    CoveredAppend(s.log, Acquire(handle));
    CoveredAppend(mid, RequestDeath(handle, cookie));
    LinksKept(s, t);
    forall h: u32
      ensures Net(t.log, h) == Net(s.log, h) + (if h == handle then 1 else 0)
    {
      NetAppend(s.log, Acquire(handle), h);
      NetAppend(mid, RequestDeath(handle, cookie), h);
    }
  }

  lemma OverrideKeeps(s: State, i: nat, handle: u32)
    requires Inv(s) && i < |s.reg| && handle != 0
    ensures var s' := Override(s, i, handle); Inv(s') && Grown(s.reg, s'.reg)
  {
    var d := Die(s, i);
    DieKeeps(s, i);
    var reg := SetHandle(d.reg, i, handle);
    HandleSet(d.reg, i, handle);
    GrownTrans(s.reg, d.reg, reg);
    HoldKeeps(d, reg, handle, d.reg[i].addr);
  }

  lemma RegOkCons(e: Entry, reg: seq<Entry>)
    requires RegOk(reg) && 1 <= |e.name| <= MAX_NAME && e.addr != 0
    requires forall i | 0 <= i < |reg| :: reg[i].name != e.name && reg[i].addr != e.addr
    ensures RegOk([e] + reg)
  {
  }

  lemma HoldersCons(e: Entry, reg: seq<Entry>, h: u32)
    ensures Holders([e] + reg, h) == Holders(reg, h) + (if h == e.handle then 1 else 0)
  {
    assert ([e] + reg)[1..] == reg;
  }

  lemma GrownCons(e: Entry, reg: seq<Entry>)
    ensures Grown(reg, [e] + reg) && HasAddr([e] + reg, e.addr)
  {
    assert ([e] + reg)[0].addr == e.addr;
  }

  lemma RegisterKeeps(s: State, e: Entry)
    requires Inv(s) && e.handle != 0 && RegOk([e] + s.reg)
    ensures var s' := Register(s, e); Inv(s') && Grown(s.reg, s'.reg)
  {
    hide Inv, RegOk, Holders, Grown, HasAddr;
    forall h: u32 {
      HoldersCons(e, s.reg, h);
    }
    GrownCons(e, s.reg);
    HoldKeeps(s, [e] + s.reg, e.handle, e.addr);
  }

  /** Adding, overriding or refusing keeps every invariant. */
  lemma AddKeeps(s: State, t: Text, handle: u32, allow: bool, wish: u32)
    requires Inv(s) && (t.len <= MAX_NAME ==> t.chars.Some? && |t.chars.value| >= t.len)
    ensures var s' := Add(s, t, handle, allow, Malloc(s.reg, wish)).0;
      Inv(s') && Grown(s.reg, s'.reg)
  {
    if handle != 0 && 0 < t.len <= MAX_NAME {
      var i := Find(s.reg, NameOf(t));
      var addr := Malloc(s.reg, wish);
      if i < |s.reg| {
        OverrideKeeps(s, i, handle);
      } else if addr != 0 {
        RegisterKeeps(s, Entry(NameOf(t), handle, allow, addr));
      }
    }
  }

  lemma RequestedKept(log: seq<Command>, log': seq<Command>, cookie: u32)
    requires log <= log' && Requested(log, cookie)
    ensures Requested(log', cookie)
  {
    var k :| 0 <= k < |log| && log[k].RequestDeath? && log[k].cookie == cookie;
    assert log'[k] == log[k];
  }

  /** The list only grows by entries whose death is asked for. */
  lemma WatchedKept(s: State, s': State)
    requires Watched(s) && s.log <= s'.log
    requires forall i | 0 <= i < |s'.reg| :: HasAddr(s.reg, s'.reg[i].addr) || Requested(s'.log, s'.reg[i].addr)
    ensures Watched(s')
  {
    forall i | 0 <= i < |s'.reg| && HasAddr(s.reg, s'.reg[i].addr)
      ensures Requested(s'.log, s'.reg[i].addr)
    {
      RequestedKept(s.log, s'.log, s'.reg[i].addr);
    }
  }

  /** One acquire and one request, over a list that has this cookie and otherwise the old addresses. */
  lemma HoldCookies(s: State, t: State, handle: u32, cookie: u32)
    requires s.log <= t.log && Grown(s.reg, t.reg) && HasAddr(t.reg, cookie)
    requires forall k | |s.log| <= k < |t.log| :: !t.log[k].RequestDeath?
    requires forall i | 0 <= i < |t.reg| :: HasAddr(s.reg, t.reg[i].addr) || t.reg[i].addr == cookie
    ensures var s' := Hold(t, handle, cookie); (Linked(s) ==> Linked(s')) && (Watched(s) ==> Watched(s'))
  {
    var s' := Hold(t, handle, cookie);
    if Linked(s) { LinksKept(s, s'); }
    assert s'.log[|t.log| + 1] == RequestDeath(handle, cookie);
    if Watched(s) { WatchedKept(s, s'); }
  }

  /** An added entry comes with its request, an overridden one has been asked for before. */
  lemma AddCookies(s: State, t: Text, handle: u32, allow: bool, addr: u32)
    ensures var s' := Add(s, t, handle, allow, addr).0;
      (Linked(s) ==> Linked(s')) && (Watched(s) ==> Watched(s'))
  {
    hide Linked, Watched, NameOf, Hold;
    var i := Find(s.reg, NameOf(t));
    if i < |s.reg| {
      var d := Die(s, i);
      var mid := d.(reg := SetHandle(d.reg, i, handle));
      assert mid.reg[i].addr == s.reg[i].addr;
      forall j | 0 <= j < |mid.reg|
        ensures HasAddr(s.reg, mid.reg[j].addr)
      {
        assert mid.reg[j].addr == s.reg[j].addr;
      }
      HoldCookies(s, mid, handle, s.reg[i].addr);
    } else {
      var e := Entry(NameOf(t), handle, allow, addr);
      var mid := s.(reg := [e] + s.reg);
      assert mid.reg[0].addr == addr;
      forall j | 0 < j < |mid.reg|
        ensures HasAddr(s.reg, mid.reg[j].addr)
      {
        assert mid.reg[j] == s.reg[j - 1];
      }
      HoldCookies(s, mid, handle, addr);
    }
  }

  lemma DieReports(s: State, i: nat)
    requires Reported(s) && i < |s.reg|
    ensures Reported(Die(s, i))
  {
    var s' := Die(s, i);
    forall j | 0 <= j < |s'.reg| && s'.reg[j].handle != 0
      ensures RequestDeath(s'.reg[j].handle, s'.reg[j].addr) in s'.log
    {
      assert s'.reg[j] == s.reg[j];
    }
  }

  /** A registration that is accepted, new or not, leaves its own death asked for. */
  lemma AddReports(s: State, t: Text, handle: u32, allow: bool, addr: u32)
    requires Reported(s)
    ensures Reported(Add(s, t, handle, allow, addr).0)
  {
    hide NameOf;
    AddLog(s, t, handle, allow, addr);
    var (s', ok) := Add(s, t, handle, allow, addr);
    var n := |s'.reg| - |s.reg|;
    forall j | 0 <= j < |s'.reg| && s'.reg[j].handle != 0
      ensures RequestDeath(s'.reg[j].handle, s'.reg[j].addr) in s'.log
    {
      assert ok ==> s'.log[|s'.log| - 1].RequestDeath? && s'.log[|s'.log| - 1] in s'.log;
      assert forall c | c in s.log :: c in s'.log;
      if j >= n && s'.reg[j] == s.reg[j - n] {
        assert RequestDeath(s.reg[j - n].handle, s.reg[j - n].addr) in s.log;
      }
    }
  }

  lemma GrownSame(reg: seq<Entry>)
    ensures Grown(reg, reg)
  {
  }

  lemma GrownTrans(a: seq<Entry>, b: seq<Entry>, c: seq<Entry>)
    requires Grown(a, b) && Grown(b, c)
    ensures Grown(a, c)
  {
  }
}
