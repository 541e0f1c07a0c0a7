/** svcmgr_lookup, a client of the service manager. */
module Lookup {
  import opened Bytes
  import opened BioFormat
  import opened Registry
  import opened Stream
  import opened Dispatch
  import opened Bio
  import opened ServiceManager
  import opened Parser
  import opened Arrivals
  import opened Client
  import Marshalling
  import EndToEnd

  const IODATA_SIZE := 512
  const MAX_SOUGHT := 213

  function Sought(name: seq<byte>): (r: EndToEnd.Request) { EndToEnd.FindSvc(CString(name), true) }

  lemma PutThree(w: Writer, a: Marshalling.Item, b: Marshalling.Item, c: Marshalling.Item)
    requires Marshalling.Fits32(w)
    ensures var u := Marshalling.Put(w, a); Marshalling.Fits32(u)
    ensures var u := Marshalling.Put(Marshalling.Put(w, a), b); Marshalling.Fits32(u)
    ensures Marshalling.PutAll(w, [a, b, c]) == Marshalling.Put(Marshalling.Put(Marshalling.Put(w, a), b), c)
  {
    hide Marshalling.Put;
    var u := Marshalling.Put(w, a);
    Marshalling.PutExtends(w, a);
    var v := Marshalling.Put(u, b);
    Marshalling.PutExtends(u, b);
    var x := Marshalling.Put(v, c);
    Marshalling.PutExtends(v, c);
    assert [a, b, c][1..] == [b, c] && [b, c][1..] == [c] && [c][1..] == [];
    assert Marshalling.PutAll(x, []) == x;
    assert Marshalling.PutAll(v, [c]) == x;
    assert Marshalling.PutAll(u, [b, c]) == x;
  }

  /** The request as it is built in `iodata`, and the names for which it fits. */
  lemma LookupMessage(iodata: seq<byte>, name: seq<byte>)
    requires |iodata| == IODATA_SIZE
    ensures var w0 := Marshalling.Init(iodata, 4);
      var f := PutString16(PutString16(PutU32(w0, 0), SVCMGR_ID), CString(name));
      && (f.overflow <==> MAX_SOUGHT < |CString(name)| < MAX_CHARS)
      && (!f.overflow ==> EndToEnd.Message(f, 0, Sought(name)))
  {
    hide CString, PutString16, PutU32, Marshalling.PutAll;
    var w0 := Marshalling.Init(iodata, 4);
    var id, sought := Marshalling.Str(SVCMGR_ID), Marshalling.Str(CString(name));
    var items := [Marshalling.U32(0), id, sought];
    assert EndToEnd.Items(0, Sought(name)) == items;
    PutThree(w0, items[0], items[1], items[2]);
    Marshalling.InitCapacity(iodata, 4, items);
    LookupSize(sought);
  }

  lemma LookupSize(sought: Marshalling.Item)
    requires sought.Str?
    ensures var items := [Marshalling.U32(0), Marshalling.Str(SVCMGR_ID), sought];
      && (Marshalling.TotalSize(items) > IODATA_SIZE - 16 <==> MAX_SOUGHT < |sought.s| < MAX_CHARS)
      && Marshalling.RecordedCount(items) == 0
  {
    var items := [Marshalling.U32(0), Marshalling.Str(SVCMGR_ID), sought];
    assert items[1..] == [Marshalling.Str(SVCMGR_ID), sought] && items[1..][1..] == [sought] && [sought][1..] == [];
    assert Marshalling.TotalSize([sought]) == Marshalling.Size(sought);
    assert Marshalling.RecordedCount([sought]) == 0;
    assert Marshalling.TotalSize(items[1..]) == 60 + Marshalling.Size(sought);
  }

  /** The message of svcmgr_lookup. */
  method BuildLookup(name: seq<byte>) returns (msg: BinderIo)
    requires 0 in name
    ensures fresh(msg) && msg.ValidWriter() && msg.flags.overflow == msg.w.overflow
    ensures msg.w.overflow <==> MAX_SOUGHT < |CString(name)| < MAX_CHARS
    ensures !msg.w.overflow ==> EndToEnd.Message(msg.w, 0, Sought(name))
  {
    hide BinderIo.ReaderView, BinderIo.Valid, EndToEnd.Message, PutString16, PutU32, CString;
    var iodata := new byte[IODATA_SIZE];
    LookupMessage(iodata[..], name);
    assert iodata[16..IODATA_SIZE] == iodata[..][16..];
    msg := new BinderIo.Blank();
    msg.Init(iodata, IODATA_SIZE, 4);
    msg.PutUint32(0);
    NameTerminated();
    msg.PutStr16x(Some(SVC_MGR_NAME));
    msg.PutStr16x(Some(name));
  }

  /** From a reply with a reference, or with the word 0, the lookup reads that handle, or 0. */
  lemma LookupReads(mem: seq<byte>, t: Txn, c: Chance, handle: u32)
    requires var w0 := EndToEnd.FreshReply(c);
      Delivers(mem, t, if handle == 0 then PutU32(w0, 0) else PutRef(w0, handle))
    ensures GetRef(FromTxn(mem, t)).1 == handle
  {
    var w0 := EndToEnd.FreshReply(c);
    MessageArrives(mem, t, if handle == 0 then PutU32(w0, 0) else PutRef(w0, handle));
    EndToEnd.FoundReads(c, EndToEnd.FindSvc([], true), handle);
    hide GetRef, PutU32, PutRef, FromTxn, Delivers;
  }

  /** The handle in a reply is acquired, and the reply done with. */
  method TakeHandle(bs: BinderState, reply: BinderIo) returns (handle: u32)
    requires reply.Valid() && reply.flags.shared
    modifies bs`log, reply`data, reply`dataAvail, reply`flags
    ensures handle == GetRef(old(reply.ReaderView())).1
    ensures bs.log == old(bs.log) + (if handle != 0 then [Acquire(handle)] else []) + [FreeBuffer(reply.data0)]
  {
    hide BinderIo.ReaderView, GetRef;
    handle := reply.GetReference();
    if handle != 0 {
      bs.BinderAcquire(handle);
    }
    BinderDone(bs, reply);
  }

  /** svcmgr_lookup: what is sent, what is returned, and which references and buffers change hands. */
  method SvcmgrLookup(bs: BinderState, sm: ServiceManager, target: u32, name: seq<byte>, arrivals: seq<Arrival>)
    returns (handle: u32, ghost f: Writer)
    requires sm.Valid() && Linked(sm.St(bs)) && 0 in name
    requires bs.mapped.Length < WORD && CallOk(bs.log, bs.mapped.Length, arrivals)
    modifies sm`svclist, sm`deaths, sm`nodes, sm`reg, sm`turn, bs`log, (set n | n in sm.nodes)`handle, bs.mapped
    ensures sm.Valid() && Linked(sm.St(bs))
    ensures f.overflow <==> MAX_SOUGHT < |CString(name)| < MAX_CHARS
    ensures !f.overflow ==> EndToEnd.Message(f, 0, Sought(name))
    ensures !f.overflow ==> old(bs.log) + [CallTransaction(target, 2, f.data, f.offs)] <= bs.log
    ensures var r := if f.overflow then None else CallResult(arrivals);
      var s := if f.overflow then old(sm.St(bs))
               else Run(sm.env, false, Sent(old(sm.St(bs)), target, CHECK_SERVICE, f), Served(arrivals));
      && handle == (if r.Some? then GetRef(FromTxn(r.value.0, r.value.1)).1 else 0)
      && sm.reg == s.reg
      && bs.log == s.log + (if handle != 0 then [Acquire(handle)] else [])
                         + (if r.Some? then [FreeBuffer(r.value.1.buffer)] else [])
  {
    hide ServiceManager.Valid, BinderIo.Valid, BinderIo.ValidWriter, BinderIo.ReaderView, CallOk, EndToEnd.Message;
    hide CallResult, GetRef, FromTxn, CString, Linked, Run, Served;
    var msg := BuildLookup(name);
    var reply := new BinderIo.Blank();
    f := msg.w;
    var res := BinderCall(bs, sm, msg, reply, target, CHECK_SERVICE, arrivals);
    if res != 0 {
      return 0, f;
    }
    ghost var s := sm.St(bs);
    handle := TakeHandle(bs, reply);
    SameCookies(s, sm.St(bs));
  }

  /** The interface name as the C string it is in the clients. */
  const SVC_MGR_NAME: seq<byte> :=
    [0x61, 0x6e, 0x64, 0x72, 0x6f, 0x69, 0x64, 0x2e, 0x6f, 0x73, 0x2e,
     0x49, 0x53, 0x65, 0x72, 0x76, 0x69, 0x63, 0x65, 0x4d, 0x61, 0x6e, 0x61, 0x67, 0x65, 0x72] + [0]

  lemma {:induction false} Terminated(s: seq<u16>)
    requires 0 !in s
    ensures CString(s + [0]) == s
  {
  }

  lemma NameTerminated()
    ensures 0 in SVC_MGR_NAME && CString(SVC_MGR_NAME) == SVCMGR_ID
  {
    hide CString;
    Terminated(SVCMGR_ID);
    assert SVC_MGR_NAME == SVCMGR_ID + [0];
    assert SVC_MGR_NAME[|SVCMGR_ID|] == 0;
  }
}
