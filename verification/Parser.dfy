/** binder_parse: the loop over a command stream, with its callbacks into the service manager. */
module Parser {
  import opened Bytes
  import opened BioFormat
  import opened Registry
  import opened Stream
  import opened Dispatch
  import opened Bio
  import opened ServiceManager
  import Marshalling

  // ---------- what the driver owes ----------

  /** Buffers lie in the mapping, and only cookies that were registered are reported dead. */
  ghost predicate CmdOk(s: State, mem: seq<byte>, served: bool, wanted: bool, c: Cmd) {
    && (c.Transaction? && served ==> TxnOk(mem, c.txn))
    && (c.Reply? && wanted ==> TxnOk(mem, c.txn))
    && (c.DeadBinder? ==> Requested(s.log, c.cookie))
  }

  ghost predicate Safe(env: Env, served: bool, wanted: bool, s: State, mem: seq<byte>, cmds: seq<Cmd>)
    decreases |cmds|
  {
    cmds == [] ||
    (CmdOk(s, mem, served, wanted, cmds[0])
     && Safe(env, served, wanted, Step(env, served, s, Delivery(mem, cmds[0])), mem, cmds[1..]))
  }

  /** The invariant turns a registered cookie into a node. */
  lemma CookieResolves(s: State, cookie: u32)
    requires Linked(s) && Requested(s.log, cookie)
    ensures FindAddr(s.reg, cookie) < |s.reg| && HasAddr(s.reg, cookie)
  {
  }

  // ---------- the callbacks ----------

  /** The callback of the death record behind a cookie. */
  method CallDeath(bs: BinderState, sm: ServiceManager, cookie: u32)
    requires sm.Valid() && HasAddr(sm.reg, cookie)
    modifies bs`log, (set n | n in sm.nodes)`handle, sm`reg
    ensures sm.Valid() && sm.St(bs) == Step(sm.env, true, old(sm.St(bs)), Delivery([], DeadBinder(cookie)))
  {
    ghost var i := FindAddr(sm.reg, cookie);
    assert sm.NodeAt(i);
    var node := sm.deaths[cookie];
    sm.SvcInfoDeath(bs, node.deathPtr, i);
  }

  /** binder_send_reply */
  method SendReply(bs: BinderState, reply: BinderIo, bufferToFree: u32, status: int)
    requires reply.ValidWriter()
    modifies bs`log
    ensures bs.log == old(bs.log) + [FreeBuffer(bufferToFree),
                                     if status != 0 then ReplyStatus(status) else ReplyData(reply.w.data, reply.w.offs)]
  {
    bs.BinderWrite(FreeBuffer(bufferToFree));
    if status != 0 {
      bs.BinderWrite(ReplyStatus(status));
    } else {
      var n := (reply.offs - reply.offs0) / 4;
      bs.BinderWrite(ReplyData(reply.buf[reply.data0..reply.data], Words(reply.buf[..], reply.offs0, n)));
    }
  }

  /** The reply on the stack: 256 bytes that hold whatever was there, prepared by bio_init. */
  method EmptyReply(chance: Chance) returns (reply: BinderIo)
    ensures fresh(reply) && fresh(reply.buf) && reply.ValidWriter()
    ensures reply.w == Marshalling.Init(Frame(chance), REPLY_OFFS)
  {
    hide BinderIo.Valid, BinderIo.ReaderView, Frame;
    var rdata := new byte[REPLY_SIZE](i requires 0 <= i < REPLY_SIZE => Frame(chance)[i]);
    assert rdata[..] == Frame(chance);
    assert rdata[4 * REPLY_OFFS..REPLY_SIZE] == Frame(chance)[4 * REPLY_OFFS..];
    reply := new BinderIo.Blank();
    reply.Init(rdata, REPLY_SIZE, REPLY_OFFS);
  }

  /** The case BR_TRANSACTION with a handler. */
  method ServeTransaction(bs: BinderState, sm: ServiceManager, txn: Txn)
    requires sm.Valid() && bs.mapped.Length < WORD && TxnOk(bs.mapped[..], txn)
    modifies sm`svclist, sm`deaths, sm`nodes, sm`reg, sm`turn, bs`log, (set n | n in sm.nodes)`handle
    ensures sm.Valid() && fresh((set n | n in sm.nodes) - old(set n | n in sm.nodes))
    ensures sm.St(bs) == Step(sm.env, true, old(sm.St(bs)), Delivery(bs.mapped[..], Transaction(txn)))
  {
    hide ServiceManager.Valid, Handle, Frame, BinderIo.ValidWriter, BinderIo.ReaderView;
    var chance := sm.env(sm.turn);
    var reply := EmptyReply(chance);
    var msg := new BinderIo.Blank();
    msg.InitFromTxn(bs.mapped, txn.buffer, txn.dataSize, txn.offsets, txn.offsetsSize);
    assert msg.ReaderView() == FromTxn(bs.mapped[..], txn);
    hide BinderIo.Valid, Marshalling.Init, FromTxn;
    var res := sm.SvcmgrHandler(bs, txn, msg, reply);
    SendReply(bs, reply, txn.buffer, res);
    sm.EndTurn();
  }

  // ---------- the switch ----------

  /** bio_init_from_txn was called on `bio` with this transaction. */
  ghost predicate Filled(bio: BinderIo, mapped: array<byte>, t: Txn)
    reads bio, bio.buf
  {
    && bio.buf == mapped && bio.data0 == t.buffer && bio.flags == Flags(true, false, false)
    && bio.Valid() && bio.ReaderView() == FromTxn(mapped[..], t)
  }

  method FillBio(bio: BinderIo, mapped: array<byte>, t: Txn)
    requires mapped.Length < WORD && TxnOk(mapped[..], t)
    modifies bio
    ensures Filled(bio, mapped, t)
  {
    bio.InitFromTxn(mapped, t.buffer, t.dataSize, t.offsets, t.offsetsSize);
  }

  /** The transaction data behind the command word at `ptr`. */
  method ReadTxn(readbuf: array<u32>, ptr: nat, end: nat) returns (txn: Txn)
    requires ptr + TXN_WORDS < end <= readbuf.Length
    ensures txn == TxnAt(readbuf[ptr..end][1..])
  {
    txn := TxnAt(readbuf[ptr + 1..end]);
    assert readbuf[ptr + 1..end] == readbuf[ptr..end][1..];
  }

  /** One turn of the loop; `stop` when it returns -1. */
  method DispatchCommand(bs: BinderState, sm: ServiceManager, bio: BinderIo?, readbuf: array<u32>,
                         ptr: nat, end: nat, served: bool, r: int)
    returns (ptr': nat, r': int, bio': BinderIo?, stop: bool)
    requires sm.Valid() && ptr < end <= readbuf.Length && bs.mapped.Length < WORD
    requires var h := DecodeHead(readbuf[ptr..end]);
      && h != Stop(Dangling)
      && (h.Head? ==> Linked(sm.St(bs)) && CmdOk(sm.St(bs), bs.mapped[..], served, bio != null, h.cmd))
    modifies sm`svclist, sm`deaths, sm`nodes, sm`reg, sm`turn, bs`log, (set n | n in sm.nodes)`handle, bio
    ensures sm.Valid() && fresh((set n | n in sm.nodes) - old(set n | n in sm.nodes))
    ensures var h := DecodeHead(readbuf[ptr..end]);
      && (stop <==> h == Stop(Short) || h == Stop(Unknown))
      && (h.Stop? ==> sm.St(bs) == old(sm.St(bs)) && r' == r && (!stop ==> ptr' >= end))
      && (h.Head? ==>
        && ptr' == ptr + h.size && r' == StatusAfter(r, h.cmd)
        && sm.St(bs) == Step(sm.env, served, old(sm.St(bs)), Delivery(bs.mapped[..], h.cmd)))
      && (if h.Head? && h.cmd.Reply? && bio != null
          then bio' == null && Filled(bio, bs.mapped, h.cmd.txn)
          else bio' == bio && (bio != null ==> unchanged(bio)))
  {
    hide ServiceManager.Valid, Serve, Filled, Linked, BinderIo.Valid, BinderIo.ReaderView;
    hide FindAddr, Die, Requested, TxnOk, HasAddr, TxnAt;
    var cmd := readbuf[ptr];
    ptr', r', bio', stop := ptr + 1, r, bio, false;
    if cmd == BR_NOOP || cmd == BR_TRANSACTION_COMPLETE || cmd == BR_SPAWN_LOOPER {
    } else if cmd == BR_INCREFS || cmd == BR_ACQUIRE || cmd == BR_RELEASE || cmd == BR_DECREFS {
      ptr' := ptr' + 2;
    } else if cmd == BR_TRANSACTION {
      if end - ptr' < TXN_WORDS {
        stop := true;
        return;
      }
      var txn := ReadTxn(readbuf, ptr, end);
      if served {
        ServeTransaction(bs, sm, txn);
      }
      ptr' := ptr' + TXN_WORDS;
    } else if cmd == BR_REPLY {
      if end - ptr' < TXN_WORDS {
        stop := true;
        return;
      }
      var txn := ReadTxn(readbuf, ptr, end);
      if bio != null {
        FillBio(bio, bs.mapped, txn);
        bio' := null;
      }
      ptr' := ptr' + TXN_WORDS;
      r' := 0;
    } else if cmd == BR_DEAD_BINDER {
      var cookie := readbuf[ptr'];
      ptr' := ptr' + 1;
      CookieResolves(sm.St(bs), cookie);
      CallDeath(bs, sm, cookie);
    } else if cmd == BR_FAILED_REPLY || cmd == BR_DEAD_REPLY {
      r' := -1;
    } else {
      stop := true;
    }
  }

  // ---------- the loop ----------

  /** What is still to be read comes out as what the whole stream comes out as. */
  ghost predicate Pending(env: Env, served: bool, mem: seq<byte>, s0: State, r0: int, whole: seq<u32>,
                          s: State, r: int, rest: seq<u32>)
  {
    var d0, d := Decode(whole), Decode(rest);
    && d.end == d0.end
    && Run(env, served, s, Tag(mem, d.cmds)) == Run(env, served, s0, Tag(mem, d0.cmds))
    && StatusFrom(r, d.cmds) == StatusFrom(r0, d0.cmds)
  }

  lemma PendingStart(env: Env, served: bool, mem: seq<byte>, s0: State, r0: int, whole: seq<u32>)
    ensures Pending(env, served, mem, s0, r0, whole, s0, r0, whole)
  {
  }

  lemma PendingStep(env: Env, served: bool, mem: seq<byte>, s0: State, r0: int, whole: seq<u32>,
                    s: State, r: int, rest: seq<u32>)
    requires Pending(env, served, mem, s0, r0, whole, s, r, rest)
    requires rest != [] && DecodeHead(rest).Head?
    ensures var h := DecodeHead(rest);
      Pending(env, served, mem, s0, r0, whole,
              Step(env, served, s, Delivery(mem, h.cmd)), StatusAfter(r, h.cmd), rest[h.size..])
  {
    hide DecodeHead, Step;
    var h := DecodeHead(rest);
    var cmds := Decode(rest[h.size..]).cmds;
    var all := [h.cmd] + cmds;
    assert all[1..] == cmds;
    assert Tag(mem, all)[1..] == Tag(mem, cmds);
  }

  lemma PendingStop(env: Env, served: bool, mem: seq<byte>, s0: State, r0: int, whole: seq<u32>,
                    s: State, r: int, rest: seq<u32>)
    requires Pending(env, served, mem, s0, r0, whole, s, r, rest)
    requires rest == [] || DecodeHead(rest).Stop?
    ensures Run(env, served, s0, Tag(mem, Decode(whole).cmds)) == s
    ensures StatusFrom(r0, Decode(whole).cmds) == r
    ensures Decode(whole).end == if rest == [] then Finished else DecodeHead(rest).end
    ensures FirstReply(Decode(rest).cmds) == None
    ensures Decode(whole).end == Finished ==>
      Decode(rest) == Decode([]) && Pending(env, served, mem, s0, r0, whole, s, r, [])
  {
    hide DecodeHead, Step;
  }

  /** The first command of what is left. */
  lemma DecodeFirst(env: Env, served: bool, wanted: bool, s: State, mem: seq<byte>, rest: seq<u32>)
    requires rest != [] && DecodeHead(rest).Head? && Safe(env, served, wanted, s, mem, Decode(rest).cmds)
    ensures var h := DecodeHead(rest); var cmds := Decode(rest[h.size..]).cmds;
      && CmdOk(s, mem, served, wanted, h.cmd)
      && Safe(env, served, wanted, Step(env, served, s, Delivery(mem, h.cmd)), mem, cmds)
      && FirstReply(Decode(rest).cmds) == (if h.cmd.Reply? then Some(h.cmd.txn) else FirstReply(cmds))
  {
  }

  method BinderParse(bs: BinderState, sm: ServiceManager, bio: BinderIo?, readbuf: array<u32>, size: nat, served: bool)
    returns (r: int)
    requires sm.Valid() && Linked(sm.St(bs)) && size <= readbuf.Length && bs.mapped.Length < WORD
    requires Decode(readbuf[..size]).end != Dangling
    requires Safe(sm.env, served, bio != null, sm.St(bs), bs.mapped[..], Decode(readbuf[..size]).cmds)
    modifies sm`svclist, sm`deaths, sm`nodes, sm`reg, sm`turn, bs`log, (set n | n in sm.nodes)`handle, bio
    ensures sm.Valid() && Linked(sm.St(bs)) && fresh((set n | n in sm.nodes) - old(set n | n in sm.nodes))
    ensures var d := Decode(readbuf[..size]);
      && sm.St(bs) == Run(sm.env, served, old(sm.St(bs)), Tag(bs.mapped[..], d.cmds))
      && r == ParseResult(readbuf[..size])
      && (bio != null ==>
        match FirstReply(d.cmds)
        case None => unchanged(bio)
        case Some(t) => Filled(bio, bs.mapped, t))
  {
    hide ServiceManager.Valid, DecodeHead, Decode, Step, Run, StatusFrom, StatusAfter, FirstReply, Filled, Safe, TxnOk;
    hide Requested, Pending, Tag, Linked, Watched;
    ghost var s0 := sm.St(bs);
    ghost var mem := bs.mapped[..];
    ghost var whole := readbuf[..size];
    ghost var rest := whole;
    r := 1;
    var ptr: nat := 0;
    var target := bio;
    PendingStart(sm.env, served, mem, s0, 1, whole);
    while ptr < size
      invariant sm.Valid() && Linked(sm.St(bs)) && fresh((set n | n in sm.nodes) - old(set n | n in sm.nodes))
      invariant rest == if ptr <= size then readbuf[ptr..size] else []
      invariant bs.mapped[..] == mem && readbuf[..size] == whole
      invariant Pending(sm.env, served, mem, s0, 1, whole, sm.St(bs), r, rest)
      invariant Safe(sm.env, served, bio != null, sm.St(bs), mem, Decode(rest).cmds)
      invariant target != null ==>
        target == bio && unchanged(bio) && FirstReply(Decode(rest).cmds) == FirstReply(Decode(whole).cmds)
      invariant target == null && bio != null ==>
        FirstReply(Decode(whole).cmds).Some? && Filled(bio, bs.mapped, FirstReply(Decode(whole).cmds).value)
      decreases |rest|
    {
      ghost var s := sm.St(bs);
      ghost var r1 := r;
      ghost var h := DecodeHead(rest);
      if h.Head? {
        DecodeFirst(sm.env, served, bio != null, s, mem, rest);
      } else {
        PendingStop(sm.env, served, mem, s0, 1, whole, s, r, rest);
      }
      var stop;
      ptr, r, target, stop := DispatchCommand(bs, sm, target, readbuf, ptr, size, served, r);
      if stop {
        return -1;
      }
      if h.Head? {
        PendingStep(sm.env, served, mem, s0, 1, whole, s, r1, rest);
        StepCookies(sm.env, served, s, Delivery(mem, h.cmd));
        rest := rest[h.size..];
      } else {
        rest := [];
      }
    }
    PendingStop(sm.env, served, mem, s0, 1, whole, sm.St(bs), r, rest);
  }
}
