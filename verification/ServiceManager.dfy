/** The linked list of service_manager.c and its handler, on the heap. */
module ServiceManager {
  import opened Bytes
  import opened BioFormat
  import opened Registry
  import opened Stream
  import opened Dispatch
  import opened Bio

  /**
   struct binder_state: the memory the driver mapped, and the commands handed to it in writes, whether or not it
   took them.
   */
  class BinderState {
    var mapped: array<byte>
    var log: seq<Command>

    constructor (mapped: array<byte>)
      ensures this.mapped == mapped && log == []
    {
      this.mapped := mapped;
      log := [];
    }

    method BinderWrite(c: Command)
      modifies this`log
      ensures log == old(log) + [c]
    {
      log := log + [c];
    }

    method BinderAcquire(target: u32)
      modifies this`log
      ensures log == old(log) + [Acquire(target)]
    {
      BinderWrite(Acquire(target));
    }

    method BinderRelease(target: u32)
      modifies this`log
      ensures log == old(log) + [Release(target)]
    {
      BinderWrite(Release(target));
    }

    method BinderLinkToDeath(target: u32, cookie: u32)
      modifies this`log
      ensures log == old(log) + [RequestDeath(target, cookie)]
    {
      BinderWrite(RequestDeath(target, cookie));
    }
  }

  class SvcInfo {
    var next: SvcInfo?
    var handle: u32
    var deathPtr: SvcInfo?   // death.ptr
    var addr: u32            // &death
    var allowIsolated: bool
    var len: nat
    var name: seq<u16>       // len characters and a terminator

    /** malloc, and the assignments to the new node up to its `next`. */
    constructor (s: seq<u16>, handle: u32, allow: bool, addr: u32, next: SvcInfo?)
      requires 1 <= |s| <= MAX_NAME && addr != 0
      ensures Ok() && View() == Entry(s, handle, allow, addr) && this.next == next
    {
      this.handle := handle;
      len := |s|;
      name := s + [0];
      deathPtr := this;
      this.addr := addr;
      allowIsolated := allow;
      this.next := next;
    }

    ghost predicate Ok()
      reads this
    {
      deathPtr == this && |name| == len + 1 && name[len] == 0 && 1 <= len <= MAX_NAME && addr != 0
    }

    ghost function View(): (r: Entry)
      requires Ok()
      reads this
    {
      Entry(name[..len], handle, allowIsolated, addr)
    }
  }

  /**
   The globals of service_manager.c. `deaths` is the memory behind binder_death pointers;
   `nodes` are the nodes of the list from its head, `reg` what they hold.
   */
  class ServiceManager {
    var svclist: SvcInfo?
    var deaths: map<u32, SvcInfo>
    var turn: nat
    const env: Env
    ghost var nodes: seq<SvcInfo>
    ghost var reg: seq<Entry>

    ghost predicate Valid()
      reads this, nodes
      ensures Valid() ==> |reg| == |nodes|
    {
      && |reg| == |nodes|
      && (forall i, j | 0 <= i < j < |nodes| :: nodes[i] != nodes[j])
      && svclist == Nth(0)
      && (forall i | 0 <= i < |nodes| :: NodeAt(i))
      && (forall a | a in deaths :: deaths[a] in nodes && deaths[a].addr == a)
      && RegOk(reg)
    }

    /** The i-th node is linked, points back to itself, and holds the i-th entry. */
    ghost predicate NodeAt(i: nat)
      requires i < |nodes| == |reg|
      reads this, nodes[i]
    {
      var n := nodes[i];
      n.Ok() && n.next == Nth(i + 1) && n.View() == reg[i] && n.addr in deaths && deaths[n.addr] == n
    }

    ghost function Nth(i: nat): (r: SvcInfo?)
      reads this
    {
      if i < |nodes| then nodes[i] else null
    }

    ghost function St(bs: BinderState): (s': State)
      reads this, bs
    {
      State(reg, bs.log, turn)
    }

    constructor (env: Env)
      ensures Valid() && this.env == env && reg == [] && turn == 0
    {
      this.env := env;
      svclist := null;
      deaths := map[];
      turn := 0;
      nodes, reg := [], [];
    }

    /** find_svc */
    method FindSvc(t: Text) returns (si: SvcInfo?, ghost i: nat)
      requires Valid() && t.chars.Some? && (t.len <= MAX_NAME ==> |t.chars.value| == t.len + 1)
      ensures i == Find(reg, NameOf(t)) && si == Nth(Find(reg, NameOf(t)))
    {
      i := 0;
      si := svclist;
      while si != null
        invariant i <= |nodes| && si == Nth(i)
        invariant forall j | 0 <= j < i :: reg[j].name != NameOf(t)
        decreases |nodes| - i
      {
        assert NodeAt(i);
        if t.len == si.len && t.chars.value[..t.len] == si.name[..si.len] {
          return;
        }
        si := si.next;
        i := i + 1;
      }
    }

    /** A node gets another handle; the list stays as it is otherwise. */
    method SetNodeHandle(si: SvcInfo, handle: u32, ghost i: nat)
      requires Valid() && i < |nodes| && si == nodes[i]
      modifies si`handle, this`reg
      ensures Valid() && reg == SetHandle(old(reg), i, handle) && si.handle == handle
    {
      HandleSet(reg, i, handle);
      assert NodeAt(i);
      si.handle := handle;
      reg := SetHandle(reg, i, handle);
      hide RegOk;
      forall j | 0 <= j < |nodes|
        ensures NodeAt(j)
      {
        assert old(NodeAt(j));
      }
    }

    /** svcinfo_death */
    method SvcInfoDeath(bs: BinderState, si: SvcInfo, ghost i: nat)
      requires Valid() && i < |nodes| && si == nodes[i]
      modifies bs`log, si`handle, this`reg
      ensures Valid() && St(bs) == Die(old(St(bs)), i)
    {
      assert NodeAt(i);
      hide Valid;
      if si.handle != 0 {
        bs.BinderRelease(si.handle);
        SetNodeHandle(si, 0, i);
      }
    }

    /** do_find_service */
    method DoFindService(t: Text, uid: u32) returns (handle: u32)
      requires Valid() && t.chars.Some? && (t.len <= MAX_NAME ==> |t.chars.value| == t.len + 1)
      ensures handle == Lookup(reg, NameOf(t), uid)
    {
      var si, i := FindSvc(t);
      if si != null && si.handle != 0 {
        assert NodeAt(i);
        if !si.allowIsolated {
          var appid := uid % AID_USER;
          if appid >= AID_ISOLATED_START && appid <= AID_ISOLATED_END {
            return 0;
          }
        }
        return si.handle;
      } else {
        assert si != null ==> NodeAt(i);
        return 0;
      }
    }

    /** The address malloc gives to a new death record: one that is free, or NULL. */
    method MallocDeath() returns (addr: u32)
      requires Valid()
      ensures addr == Malloc(reg, env(turn).malloc) && (addr != 0 ==> addr !in deaths)
    {
      var wish := env(turn).malloc;
      assert wish in deaths <==> exists i | 0 <= i < |reg| :: reg[i].addr == wish by {
        if wish in deaths {
          var i :| 0 <= i < |nodes| && nodes[i] == deaths[wish];
          assert NodeAt(i);
        }
        if i :| 0 <= i < |reg| && reg[i].addr == wish {
          assert NodeAt(i);
        }
      }
      return if wish in deaths then 0 else wish;
    }

    /** do_add_service; 0 or -1. */
    method DoAddService(bs: BinderState, t: Text, handle: u32, allow: bool) returns (res: int)
      requires Valid() && t.chars.Some? && (t.len <= MAX_NAME ==> |t.chars.value| == t.len + 1)
      modifies this`svclist, this`deaths, this`nodes, this`reg, bs`log, (set n | n in nodes)`handle
      ensures var (s, ok) := Add(old(St(bs)), t, handle, allow, Malloc(old(reg), env(turn).malloc));
        Valid() && St(bs) == s && res == if ok then 0 else -1
      ensures fresh((set n | n in nodes) - old(set n | n in nodes))
    {
      hide Valid;
      if handle == 0 || t.len == 0 || t.len > MAX_NAME {
        return -1;
      }
      var si, i := FindSvc(t);
      if si != null {
        OverrideSvc(bs, si, handle, i);
      } else {
        var addr := MallocDeath();
        if addr == 0 {
          return -1;
        }
        si := NewSvc(t, handle, allow, addr);
      }
      bs.BinderAcquire(handle);
      bs.BinderLinkToDeath(handle, si.addr);
      return 0;
    }

    /** The branch of do_add_service for a name that is already in the list. */
    method OverrideSvc(bs: BinderState, si: SvcInfo, handle: u32, ghost i: nat)
      requires Valid() && i < |nodes| && si == nodes[i]
      modifies bs`log, si`handle, this`reg
      ensures Valid() && si.addr == old(reg)[i].addr
      ensures var d := Die(old(St(bs)), i);
        St(bs) == d.(reg := SetHandle(d.reg, i, handle))
    {
      assert NodeAt(i);
      hide Valid;
      if si.handle != 0 {
        SvcInfoDeath(bs, si, i);
      }
      SetNodeHandle(si, handle, i);
    }

    /** The branch of do_add_service that puts a new node at the head of the list. */
    method NewSvc(t: Text, handle: u32, allow: bool, addr: u32) returns (si: SvcInfo)
      requires Valid() && t.chars.Some? && 0 < t.len <= MAX_NAME && |t.chars.value| == t.len + 1
      requires Find(reg, NameOf(t)) == |reg| && addr != 0 && addr !in deaths
      modifies this`svclist, this`deaths, this`nodes, this`reg
      ensures Valid() && fresh(si) && si.addr == addr && nodes == [si] + old(nodes)
      ensures reg == [Entry(NameOf(t), handle, allow, addr)] + old(reg)
    {
      ghost var e := Entry(NameOf(t), handle, allow, addr);
      assert RegOk([e] + reg) by {
        forall i | 0 <= i < |reg|
          ensures reg[i].addr != addr
        {
          assert NodeAt(i);
        }
        RegOkCons(e, reg);
      }
      hide RegOk;
      si := new SvcInfo(t.chars.value[..t.len], handle, allow, addr, svclist);
      LinkHead(si, e);
    }

    /** The new node becomes the head of the list, and its death record can be found. */
    method LinkHead(si: SvcInfo, ghost e: Entry)
      requires Valid() && RegOk([e] + reg) && si !in nodes
      requires si.Ok() && si.View() == e && si.next == svclist && si.addr !in deaths
      modifies this`svclist, this`deaths, this`nodes, this`reg
      ensures Valid() && nodes == [si] + old(nodes) && reg == [e] + old(reg)
    {
      hide RegOk;
      svclist := si;
      deaths := deaths[si.addr := si];
      nodes := [si] + nodes;
      reg := [e] + reg;
      forall i | 0 < i < |nodes|
        ensures NodeAt(i)
      {
        assert old(NodeAt(i - 1)) && nodes[i] == old(nodes)[i - 1];
      }
    }

    /** The transaction is over: the next one meets other circumstances. */
    method EndTurn()
      requires Valid()
      modifies this`turn
      ensures Valid() && turn == old(turn) + 1
    {
      turn := turn + 1;
      forall i | 0 <= i < |nodes|
        ensures NodeAt(i)
      {
        assert old(NodeAt(i));
      }
    }

    /** svcmgr_handler */
    method SvcmgrHandler(bs: BinderState, txn: Txn, msg: BinderIo, reply: BinderIo) returns (res: int)
      requires Valid() && msg.Valid() && reply.ValidWriter() && msg != reply && msg.buf != reply.buf
      modifies this`svclist, this`deaths, this`nodes, this`reg, bs`log, (set n | n in nodes)`handle
      modifies msg`data, msg`dataAvail, msg`flags
      modifies reply`data, reply`dataAvail, reply`flags, reply`offs, reply`offsAvail, reply`w, reply.buf
      ensures Valid() && reply.ValidWriter() && fresh((set n | n in nodes) - old(set n | n in nodes))
      ensures Outcome(St(bs), res, reply.w)
           == Handle(old(St(bs)), txn.code, txn.target, txn.senderEuid, old(msg.ReaderView()), old(reply.w),
                     env(turn).malloc)
    {
      hide Valid, BinderIo.Valid, BinderIo.ValidWriter, BinderIo.ReaderView, OnFind, OnAdd, OnList;
      hide GetString16, GetU32;
      if txn.target != SVCMGR_HANDLE {
        return -1;
      }
      if txn.code == PING_TRANSACTION {
        return 0;
      }
      var strictPolicy := msg.GetUint32();
      TextIsExact(msg.ReaderView());
      var id := msg.GetStr16();
      if id.chars.None? {
        return -1;
      }
      if id.len != |SVCMGR_ID| || id.chars.value[..|SVCMGR_ID|] != SVCMGR_ID {
        return -1;
      }
      if txn.code == GET_SERVICE || txn.code == CHECK_SERVICE {
        res := HandleFind(bs, txn.senderEuid, msg, reply);
      } else if txn.code == ADD_SERVICE {
        res := HandleAdd(bs, msg, reply);
      } else if txn.code == LIST_SERVICES {
        res := HandleList(bs, msg, reply);
      } else {
        res := -1;
      }
    }

    /** The case of SVC_MGR_GET_SERVICE and SVC_MGR_CHECK_SERVICE. */
    method HandleFind(bs: BinderState, uid: u32, msg: BinderIo, reply: BinderIo) returns (res: int)
      requires Valid() && msg.Valid() && reply.ValidWriter() && msg != reply && msg.buf != reply.buf
      modifies msg`data, msg`dataAvail, msg`flags
      modifies reply`data, reply`dataAvail, reply`flags, reply`offs, reply`offsAvail, reply`w, reply.buf
      ensures reply.ValidWriter()
      ensures Outcome(St(bs), res, reply.w) == OnFind(old(St(bs)), uid, old(msg.ReaderView()), old(reply.w))
    {
      hide Valid, BinderIo.Valid, BinderIo.ValidWriter, BinderIo.ReaderView;
      hide GetString16, GetU32, GetRef, Add, Malloc, Lookup;
      TextIsExact(msg.ReaderView());
      var t := msg.GetStr16();
      if t.chars.None? {
        return -1;
      }
      var handle := DoFindService(t, uid);
      if handle == 0 {
        reply.PutUint32(0);
      } else {
        reply.PutReference(handle);
      }
      return 0;
    }

    /** The case of SVC_MGR_ADD_SERVICE. */
    method HandleAdd(bs: BinderState, msg: BinderIo, reply: BinderIo) returns (res: int)
      requires Valid() && msg.Valid() && reply.ValidWriter() && msg != reply && msg.buf != reply.buf
      modifies this`svclist, this`deaths, this`nodes, this`reg, bs`log, (set n | n in nodes)`handle
      modifies msg`data, msg`dataAvail, msg`flags
      modifies reply`data, reply`dataAvail, reply`flags, reply`w, reply.buf
      ensures Valid() && reply.ValidWriter() && fresh((set n | n in nodes) - old(set n | n in nodes))
      ensures Outcome(St(bs), res, reply.w) == OnAdd(old(St(bs)), old(msg.ReaderView()), old(reply.w), env(turn).malloc)
    {
      hide Valid, BinderIo.Valid, BinderIo.ValidWriter, BinderIo.ReaderView;
      hide GetString16, GetU32, GetRef, Add, Malloc, Lookup;
      TextIsExact(msg.ReaderView());
      var t := msg.GetStr16();
      if t.chars.None? {
        return -1;
      }
      var handle := msg.GetReference();
      var allow := msg.GetUint32();
      res := DoAddService(bs, t, handle, allow != 0);
      if res != 0 {
        return -1;
      }
      reply.PutUint32(0);
    }

    /** The case of SVC_MGR_LIST_SERVICES. */
    method HandleList(bs: BinderState, msg: BinderIo, reply: BinderIo) returns (res: int)
      requires Valid() && msg.Valid() && reply.ValidWriter() && msg != reply && msg.buf != reply.buf
      modifies msg`data, msg`dataAvail, msg`flags
      modifies reply`data, reply`dataAvail, reply`flags, reply`w, reply.buf
      ensures reply.ValidWriter()
      ensures Outcome(St(bs), res, reply.w) == OnList(old(St(bs)), old(msg.ReaderView()), old(reply.w))
    {
      hide Valid, BinderIo.Valid, BinderIo.ValidWriter, BinderIo.ReaderView, GetU32;
      var n := msg.GetUint32();
      var si := WalkList(n);
      if si == null {
        return -1;
      }
      CStringPrefix(si.name, si.len);
      reply.PutStr16(Some(si.name));
      return 0;
    }

    /** The walk of a listing request: `n` nodes down the list, or off its end. */
    method WalkList(n: u32) returns (si: SvcInfo?)
      requires Valid()
      ensures si == null <==> n >= |reg|
      ensures si != null ==> si.Ok() && si.View() == reg[n]
    {
      si := svclist;
      var left: int := n;
      ghost var i := 0;
      while left > 0 && si != null
        invariant left == n - i >= 0 && i <= |nodes| && si == Nth(i)
        decreases left
      {
        assert NodeAt(i);
        si := si.next;
        left := left - 1;
        i := i + 1;
      }
      assert si != null ==> NodeAt(i);
    }
  }
}
