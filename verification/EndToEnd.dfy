/**
 The service manager as its clients see it: requests built with the bio_put calls go through
 the driver, the command stream, the handler and the list, and the replies are decoded with
 the bio_get calls. All of it amounts to a table from names to services.
 */
module EndToEnd {
  import opened Bytes
  import opened BioFormat
  import opened Registry
  import opened Stream
  import opened Dispatch
  import opened Marshalling

  // ---------- the table ----------

  datatype Svc = Svc(handle: u32, allowIsolated: bool)

  /** order: every name ever registered, the newest first. */
  datatype Abs = Abs(table: map<Name, Svc>, order: seq<Name>)

  const EMPTY := Abs(map[], [])

  /**
   A lookup with either code, a registration whose allow_isolated word may be missing, a listing request; a ping;
   a request to another interface, or with a code that the service manager does not know; one to another object.
   */
  datatype Request =
    | FindSvc(name: Name, check: bool)
    | AddSvc(name: Name, handle: u32, allow: Option<u32>)
    | ListSvc(index: u32)
    | Ping
    | Foreign(iface: Name, opcode: u32, args: seq<Item>)
    | Astray(elsewhere: u32, opcode: u32)

  /** What a client reads in the reply; Pong tells whether the reply to a ping is empty. */
  datatype Response = Status(code: int) | Found(handle: u32) | Listed(name: Option<Name>) | Pong(empty: bool)

  /** A request from a process, with malloc able to serve it or not; or the death of a registered service. */
  datatype Event = Call(req: Request, uid: u32, memory: bool) | Died(name: Name)

  const MAX_LISTED := 117

  predicate Allowed(req: Request)
    requires req.AddSvc?
  {
    req.allow.Some? && req.allow.value != 0
  }

  function TableLookup(a: Abs, name: Name, uid: u32): (n: u32) {
    if name in a.table && (a.table[name].allowIsolated || !Isolated(uid)) then a.table[name].handle else 0
  }

  function Serve1(a: Abs, req: Request, uid: u32, memory: bool): (r: (Abs, Response)) {
    match req
    case FindSvc(name, _) => (a, Found(TableLookup(a, name, uid)))
    case AddSvc(name, handle, _) =>
      if handle == 0 || name == [] || |name| > MAX_NAME then (a, Status(-1))
      else if name in a.table then (a.(table := a.table[name := a.table[name].(handle := handle)]), Status(0))
      else if !memory then (a, Status(-1))
      else (Abs(a.table[name := Svc(handle, Allowed(req))], [name] + a.order), Status(0))
    case ListSvc(k) =>
      if k >= |a.order| then (a, Status(-1))
      else
        var shown := CString(a.order[k]);
        (a, Listed(if |shown| <= MAX_LISTED then Some(shown) else None))
    case Ping => (a, Pong(true))
    case Foreign(_, _, _) => (a, Status(-1))
    case Astray(_, _) => (a, Status(-1))
  }

  function AbsStep(a: Abs, e: Event): (r: (Abs, seq<Response>)) {
    match e
    case Call(req, uid, memory) => var (a', r) := Serve1(a, req, uid, memory); (a', [r])
    case Died(name) =>
      (if name in a.table then a.(table := a.table[name := a.table[name].(handle := 0)]) else a, [])
  }

  function AbsRun(a: Abs, evs: seq<Event>): (r: (Abs, seq<Response>))
    decreases |evs|
  {
    if evs == [] then (a, [])
    else
      var (a1, r) := AbsStep(a, evs[0]);
      var (a2, rs) := AbsRun(a1, evs[1..]);
      (a2, r + rs)
  }

  // ---------- the list as a table ----------

  function TableOf(reg: seq<Entry>): (r: map<Name, Svc>) {
    if reg == [] then map[] else TableOf(reg[1..])[reg[0].name := Svc(reg[0].handle, reg[0].allowIsolated)]
  }

  function Names(reg: seq<Entry>): (s: seq<Name>) {
    seq(|reg|, i requires 0 <= i < |reg| => reg[i].name)
  }

  function AbsOf(reg: seq<Entry>): (r: Abs) { Abs(TableOf(reg), Names(reg)) }

  lemma {:induction false} TableFind(reg: seq<Entry>, name: Name)
    ensures var i := Find(reg, name);
      && (name in TableOf(reg) <==> i < |reg|)
      && (i < |reg| ==> TableOf(reg)[name] == Svc(reg[i].handle, reg[i].allowIsolated))
  {
    if reg != [] && reg[0].name != name {
      TableFind(reg[1..], name);
    }
  }

  lemma {:induction false} TableSet(reg: seq<Entry>, name: Name, handle: u32)
    requires Find(reg, name) < |reg|
    ensures name in TableOf(reg)
    ensures TableOf(SetHandle(reg, Find(reg, name), handle))
         == TableOf(reg)[name := TableOf(reg)[name].(handle := handle)]
  {
    TableFind(reg, name);
    var i := Find(reg, name);
    if i > 0 {
      assert SetHandle(reg, i, handle)[1..] == SetHandle(reg[1..], i - 1, handle);
      TableSet(reg[1..], name, handle);
    } else {
      assert SetHandle(reg, i, handle)[1..] == reg[1..];
    }
  }

  /** Changing a handle shows in the table and nowhere else. */
  lemma AbsSet(reg: seq<Entry>, name: Name, handle: u32)
    requires Find(reg, name) < |reg|
    ensures name in TableOf(reg)
    ensures AbsOf(SetHandle(reg, Find(reg, name), handle))
         == Abs(TableOf(reg)[name := TableOf(reg)[name].(handle := handle)], Names(reg))
  {
    TableSet(reg, name, handle);
    assert Names(SetHandle(reg, Find(reg, name), handle)) == Names(reg);
  }

  lemma LookupIsTable(reg: seq<Entry>, name: Name, uid: u32)
    ensures Lookup(reg, name, uid) == TableLookup(AbsOf(reg), name, uid)
  {
    TableFind(reg, name);
  }

  lemma DieIsTable(s: State, name: Name)
    requires Find(s.reg, name) < |s.reg|
    ensures AbsOf(Die(s, Find(s.reg, name)).reg) == AbsStep(AbsOf(s.reg), Died(name)).0
  {
    AbsSet(s.reg, name, 0);
    var i := Find(s.reg, name);
    if s.reg[i].handle == 0 {
      assert SetHandle(s.reg, i, 0) == s.reg;
    }
  }

  lemma OverrideIsTable(s: State, name: Name, handle: u32)
    requires Find(s.reg, name) < |s.reg|
    ensures name in TableOf(s.reg)
    ensures AbsOf(Override(s, Find(s.reg, name), handle).reg)
         == Abs(TableOf(s.reg)[name := TableOf(s.reg)[name].(handle := handle)], Names(s.reg))
  {
    AbsSet(s.reg, name, handle);
    var i := Find(s.reg, name);
    assert SetHandle(SetHandle(s.reg, i, 0), i, handle) == SetHandle(s.reg, i, handle);
  }

  lemma AddIsTable(s: State, t: Text, req: Request, uid: u32, addr: u32)
    requires req.AddSvc? && (|req.name| <= MAX_NAME ==> t.len == |req.name| && NameOf(t) == req.name)
    requires |req.name| > MAX_NAME ==> t.len > MAX_NAME
    ensures var (s', ok) := Add(s, t, req.handle, Allowed(req), addr);
      (AbsOf(s'.reg), Status(if ok then 0 else -1)) == Serve1(AbsOf(s.reg), req, uid, addr != 0)
  {
    if req.handle != 0 && 0 < |req.name| <= MAX_NAME {
      TableFind(s.reg, req.name);
      if Find(s.reg, req.name) < |s.reg| {
        OverrideIsTable(s, req.name, req.handle);
      } else if addr != 0 {
        var e := Entry(req.name, req.handle, Allowed(req), addr);
        assert ([e] + s.reg)[1..] == s.reg;
        assert Names([e] + s.reg) == [req.name] + Names(s.reg);
      }
    }
  }

  // ---------- requests ----------

  function Code(req: Request): (n: u32) {
    match req
    case FindSvc(_, check) => if check then CHECK_SERVICE else GET_SERVICE
    case AddSvc(_, _, _) => ADD_SERVICE
    case ListSvc(_) => LIST_SERVICES
    case Ping => PING_TRANSACTION
    case Foreign(_, opcode, _) => opcode
    case Astray(_, opcode) => opcode
  }

  /** The handle that the request goes to. */
  function Target(req: Request): (n: u32) { if req.Astray? then req.elsewhere else SVCMGR_HANDLE }

  function Interface(req: Request): (s: Name) { if req.Foreign? then req.iface else SVCMGR_ID }

  /** What a client puts into the message: the strict mode word, the interface name, the arguments. */
  function Items(strict: u32, req: Request): (s: seq<Item>) {
    [U32(strict), Str(Interface(req))] + Arguments(req)
  }

  function Arguments(req: Request): (s: seq<Item>) {
    match req
    case FindSvc(name, _) => [Str(name)]
    case AddSvc(name, handle, allow) => [Str(name), Ref(handle)] + (if allow.Some? then [U32(allow.value)] else [])
    case ListSvc(k) => [U32(k)]
    case Foreign(_, _, args) => args
    case _ => []
  }

  /** Names are C strings; a foreign request differs in its interface or its code, and a stray one in its target. */
  predicate Proper(req: Request) {
    match req
    case FindSvc(name, _) => 0 !in name
    case AddSvc(name, _, _) => 0 !in name
    case ListSvc(_) => true
    case Ping => true
    case Foreign(iface, opcode, _) =>
      0 !in iface && opcode != PING_TRANSACTION && (!IsManager(iface) || !(1 <= opcode <= 4))
    case Astray(elsewhere, _) => elsewhere != SVCMGR_HANDLE
  }

  /** `f` is that message, complete, built in some buffer. */
  ghost predicate Message(f: Writer, strict: u32, req: Request) {
    && Proper(req)
    && exists buffer: seq<byte>, maxoffs: nat | 4 * maxoffs <= |buffer| < WORD ::
         f == PutAll(Init(buffer, maxoffs), Items(strict, req)) && !f.overflow
  }

  /** Reading stands before `items`, the last ones put into `f`, which was `w` then. */
  ghost predicate Ahead(w: Writer, items: seq<Item>, f: Writer) {
    Fits32(w) && LayoutOk(w) && !w.overflow && !f.overflow && f == PutAll(w, items) && Extends(w, f)
  }

  function After(w: Writer, items: seq<Item>): (w': Writer)
    requires Fits32(w) && items != []
  {
    Put(w, items[0])
  }

  lemma ReadNext(w: Writer, items: seq<Item>, f: Writer)
    requires Ahead(w, items, f) && items != []
    ensures Ahead(After(w, items), items[1..], f)
    ensures items[0] != Ref(0) ==>
      Read(At(f, |w.data|), items[0]) == (At(f, |After(w, items).data|), Expected(items[0]))
    ensures items[0] == Ref(0) ==> GetRef(At(f, |w.data|)).1 == 0
  {
    var v := Put(w, items[0]);
    PutExtends(w, items[0]);
    if v.overflow { OverflowIsSticky(v, items[1..]); }
    BatchLayout(v, items[1..]);
    if items[0] == Ref(0) { NullRefUnreadable(w, f); } else { ReadOne(w, items[0], f); }
  }

  lemma NextWord(w: Writer, items: seq<Item>, n: u32, f: Writer) returns (v: Writer)
    requires Ahead(w, items, f) && items != [] && items[0] == U32(n)
    ensures Ahead(v, items[1..], f) && GetU32(At(f, |w.data|)) == (At(f, |v.data|), n)
  {
    ReadNext(w, items, f);
    v := After(w, items);
  }

  lemma NextString(w: Writer, items: seq<Item>, s: Name, f: Writer) returns (v: Writer)
    requires Ahead(w, items, f) && items != [] && items[0] == Str(s)
    ensures Ahead(v, items[1..], f) && GetString16(At(f, |w.data|)) == (At(f, |v.data|), ExpectedText(s))
  {
    ReadNext(w, items, f);
    v := After(w, items);
  }

  /** A null handle is not accepted by the getter, but it is 0 that it returns. */
  lemma NextRef(w: Writer, items: seq<Item>, h: u32, f: Writer) returns (v: Writer)
    requires Ahead(w, items, f) && items != [] && items[0] == Ref(h)
    ensures Ahead(v, items[1..], f) && GetRef(At(f, |w.data|)).1 == h
    ensures h != 0 ==> GetRef(At(f, |w.data|)).0 == At(f, |v.data|)
  {
    ReadNext(w, items, f);
    v := After(w, items);
  }

  /** The header: its gets return the interface name, and stand before the arguments. */
  lemma ReadHeader(f: Writer, strict: u32, req: Request) returns (w: Writer)
    requires Message(f, strict, req)
    ensures Ahead(w, Arguments(req), f)
    ensures var (r1, _) := GetU32(Reader(f.data, 0, f.offs, false));
      GetString16(r1) == (At(f, |w.data|), ExpectedText(Interface(req)))
  {
    var buffer: seq<byte>, maxoffs: nat :| 4 * maxoffs <= |buffer| < WORD &&
      f == PutAll(Init(buffer, maxoffs), Items(strict, req)) && !f.overflow;
    var items := Items(strict, req);
    var w0 := Init(buffer, maxoffs);
    BatchLayout(w0, items);
    hide PutAll, LayoutOk, Extends, GetString16, GetU32;
    var w1 := NextWord(w0, items, strict, f);
    assert At(f, 0) == Reader(f.data, 0, f.offs, false);
    w := NextString(w1, items[1..], Interface(req), f);
    assert items[1..][1..] == Arguments(req);
  }

  // ---------- replies ----------

  /** What the client's getters make of a reply; a missing string is a missing name. */
  function Decoded(req: Request, c: Command): (r: Response) {
    if !c.ReplyData? then Status(if c.ReplyStatus? then c.status else 0)
    else
      var r := Reader(c.data, 0, c.offs, false);
      match req
      case FindSvc(_, _) => Found(GetRef(r).1)
      case ListSvc(_) => var t := GetString16(r).1; Listed(if t.chars.Some? then Some(NameOf(t)) else None)
      case Ping => Pong(c.data == [] && c.offs == [])
      case _ => Status(GetU32(r).1)
  }

  function FreshReply(c: Chance): (w: Writer)
    ensures Fits32(w)
  {
    Init(Frame(c), REPLY_OFFS)
  }

  function Sent(w: Writer): (r: Command) { ReplyData(w.data, w.offs) }

  lemma ReplyReads(c: Chance, item: Item)
    requires item != Ref(0) && !Put(FreshReply(c), item).overflow
    ensures var w := Put(FreshReply(c), item);
      Read(Reader(w.data, 0, w.offs, false), item).1 == Expected(item)
  {
    var w0 := FreshReply(c);
    var w := Put(w0, item);
    assert PutAll(w0, [item]) == w;
    PutExtends(w0, item);
    ReadNext(w0, [item], w);
    assert At(w, 0) == Reader(w.data, 0, w.offs, false);
  }

  lemma FoundReads(c: Chance, req: Request, handle: u32)
    requires req.FindSvc?
    ensures Decoded(req, Sent(if handle == 0 then PutU32(FreshReply(c), 0) else PutRef(FreshReply(c), handle)))
         == Found(handle)
  {
    if handle != 0 {
      PutCapacity(FreshReply(c), Ref(handle));
      ReplyReads(c, Ref(handle));
    }
  }

  lemma AddedReads(c: Chance, req: Request)
    requires req.AddSvc?
    ensures Decoded(req, Sent(PutU32(FreshReply(c), 0))) == Status(0)
  {
  }

  lemma ListedShort(c: Chance, shown: Name)
    requires |shown| <= MAX_LISTED
    ensures var w := PutString16(FreshReply(c), shown);
      GetString16(Reader(w.data, 0, w.offs, false)).1 == Text(|shown|, Some(shown + [0]))
  {
    assert Align4(2 * (|shown| + 1)) <= 236;
    PutCapacity(FreshReply(c), Str(shown));
    ReplyReads(c, Str(shown));
  }

  lemma ListedLong(c: Chance, shown: Name)
    requires MAX_LISTED < |shown| <= MAX_NAME
    ensures var w := PutString16(FreshReply(c), shown);
      GetString16(Reader(w.data, 0, w.offs, false)).1.chars == None
  {
    hide U32At, Chars;
    var w := PutString16(FreshReply(c), shown);
    assert Align4(2 * (|shown| + 1)) >= 240;
    assert w.data == U32Bytes(|shown|) + [];
    var r := Reader(w.data, 0, w.offs, false);
    GetU32Stored(r, |shown|);
    assert (|shown| + 1) * 2 % WORD == 2 * (|shown| + 1);
  }

  /** The 240 bytes of a reply carry names of up to 117 characters, and no longer ones. */
  lemma ListedReads(c: Chance, req: Request, shown: Name)
    requires req.ListSvc? && |shown| <= MAX_NAME
    ensures Decoded(req, Sent(PutString16(FreshReply(c), shown)))
         == Listed(if |shown| <= MAX_LISTED then Some(shown) else None)
  {
    if |shown| <= MAX_LISTED { ListedShort(c, shown); } else { ListedLong(c, shown); }
    hide PutString16, GetString16;
  }

  // ---------- one call ----------

  function OnRequest(s: State, req: Request, uid: u32, msg: Reader, c: Chance): (r: Outcome) {
    match req
    case FindSvc(_, _) => OnFind(s, uid, msg, FreshReply(c))
    case AddSvc(_, _, _) => OnAdd(s, msg, FreshReply(c), c.malloc)
    case ListSvc(_) => OnList(s, msg, FreshReply(c))
    case Ping => Outcome(s, 0, FreshReply(c))
    case _ => Outcome(s, -1, FreshReply(c))
  }

  /** The handler compares the whole interface name, length and all. */
  lemma NameIsCompared(iface: Name)
    ensures NamesManager(ExpectedText(iface)) <==> IsManager(iface)
  {
    if |iface| < MAX_CHARS {
      assert (iface + [0])[..|iface|] == iface;
    }
  }

  /** The handler's checks let a request through to its case, and no other. */
  lemma Checks(s: State, req: Request, uid: u32, msg: Reader, args: Reader, id: Text, c: Chance)
    requires Proper(req) && !req.Ping? && !req.Astray?
    requires GetString16(GetU32(msg).0) == (args, id) && (NamesManager(id) <==> IsManager(Interface(req)))
    ensures Handle(s, Code(req), SVCMGR_HANDLE, uid, msg, FreshReply(c), c.malloc) == OnRequest(s, req, uid, args, c)
  {
    assert if req.Foreign? then Interface(req) == req.iface else IsManager(Interface(req));
    hide Interface, IsManager, NamesManager, GetString16, GetU32, OnFind, OnAdd, OnList, FreshReply;
  }

  /** A request built by a client meets its case, which stands before the arguments. */
  lemma Enter(s: State, f: Writer, strict: u32, req: Request, uid: u32, c: Chance) returns (w: Writer)
    requires Message(f, strict, req) && !req.Ping? && !req.Astray?
    ensures Ahead(w, Arguments(req), f)
    ensures RegistryHandle(s, f, req, uid, c) == OnRequest(s, req, uid, At(f, |w.data|), c)
  {
    w := ReadHeader(f, strict, req);
    assert Proper(req);
    hide Message, Ahead, GetString16, GetU32, OnRequest, FreshReply, NamesManager, ExpectedText, Proper, Interface;
    hide Handle;
    NameIsCompared(Interface(req));
    Checks(s, req, uid, Reader(f.data, 0, f.offs, false), At(f, |w.data|), ExpectedText(Interface(req)), c);
  }

  function RegistryHandle(s: State, f: Writer, req: Request, uid: u32, c: Chance): (r: Outcome) {
    Handle(s, Code(req), SVCMGR_HANDLE, uid, Reader(f.data, 0, f.offs, false), FreshReply(c), c.malloc)
  }

  /** A name too long to be encoded decodes to nothing, and neither of the two is registered. */
  lemma LongNamesUnknown(reg: seq<Entry>, name: Name)
    requires RegOk(reg)
    ensures var n := NameOf(ExpectedText(name));
      n == name || (Find(reg, n) == |reg| && Find(reg, name) == |reg|)
  {
  }

  /** The handler's outcome on a request is the table's: the new list, and the decoded reply. */
  ghost predicate Agrees(s: State, req: Request, uid: u32, c: Chance, o: Outcome) {
    (AbsOf(o.s.reg), Decoded(req, Dispatch.Answer(o)))
    == Serve1(AbsOf(s.reg), req, uid, Malloc(s.reg, c.malloc) != 0)
  }

  lemma FindAgrees(s: State, req: Request, uid: u32, c: Chance, w: Writer, f: Writer)
    requires req.FindSvc? && RegOk(s.reg) && Ahead(w, Arguments(req), f)
    ensures Agrees(s, req, uid, c, OnFind(s, uid, At(f, |w.data|), FreshReply(c)))
  {
    hide GetString16, Ahead, At, PutRef, PutU32, Decoded, TableLookup;
    var v := NextString(w, Arguments(req), req.name, f);
    LongNamesUnknown(s.reg, req.name);
    LookupIsTable(s.reg, req.name, uid);
    LookupIsTable(s.reg, NameOf(ExpectedText(req.name)), uid);
    FoundReads(c, req, Lookup(s.reg, req.name, uid));
  }

  lemma ListAgrees(s: State, req: Request, uid: u32, c: Chance, w: Writer, f: Writer)
    requires req.ListSvc? && RegOk(s.reg) && Ahead(w, Arguments(req), f)
    ensures Agrees(s, req, uid, c, OnList(s, At(f, |w.data|), FreshReply(c)))
  {
    hide GetU32, Ahead, At, PutString16, GetString16, TableOf;
    var v := NextWord(w, Arguments(req), req.index, f);
    if req.index < |s.reg| {
      ListedReads(c, req, CString(s.reg[req.index].name));
      hide Decoded;
    }
  }

  /** What do_add_service gets from an ADD message. */
  lemma AddReads(s: State, req: Request, c: Chance, w: Writer, f: Writer)
    requires req.AddSvc? && Ahead(w, Arguments(req), f)
    ensures var (s', ok) := Add(s, ExpectedText(req.name), req.handle, Allowed(req), Malloc(s.reg, c.malloc));
      OnAdd(s, At(f, |w.data|), FreshReply(c), c.malloc)
      == if ok then Outcome(s', 0, PutU32(FreshReply(c), 0)) else Outcome(s', -1, FreshReply(c))
  {
    hide GetString16, GetU32, GetRef, Ahead, At, PutU32, Malloc;
    var args := Arguments(req);
    var w1 := NextString(w, args, req.name, f);
    var w2 := NextRef(w1, args[1..], req.handle, f);
    if req.handle != 0 {
      assert args[1..][1..] == args[2..];
      ReadAllow(w2, args[2..], req, f);
      hide Add;
    }
  }

  lemma AddAgrees(s: State, req: Request, uid: u32, c: Chance, w: Writer, f: Writer)
    requires req.AddSvc? && RegOk(s.reg) && Ahead(w, Arguments(req), f)
    ensures Agrees(s, req, uid, c, OnAdd(s, At(f, |w.data|), FreshReply(c), c.malloc))
  {
    hide Ahead, At, PutU32, OnAdd, Malloc, Add;
    AddReads(s, req, c, w, f);
    var t := ExpectedText(req.name);
    assert |req.name| < MAX_CHARS ==> (req.name + [0])[..|req.name|] == req.name;
    AddIsTable(s, t, req, uid, Malloc(s.reg, c.malloc));
    AddedReads(c, req);
  }

  lemma ReadAllow(w: Writer, items: seq<Item>, req: Request, f: Writer)
    requires req.AddSvc? && items == Arguments(req)[2..] && Ahead(w, items, f)
    ensures GetU32(At(f, |w.data|)).1 != 0 <==> Allowed(req)
  {
    if req.allow.Some? {
      var v := NextWord(w, items, req.allow.value, f);
    } else {
      assert items == [] && At(f, |w.data|).rest == [];
    }
  }

  /** A request, from the bytes the client wrote to the values it reads in the reply. */
  lemma CallAgrees(s: State, f: Writer, strict: u32, req: Request, uid: u32, c: Chance)
    requires RegOk(s.reg) && Message(f, strict, req) && !req.Ping? && !req.Astray?
    ensures Agrees(s, req, uid, c, RegistryHandle(s, f, req, uid, c))
  {
    var w := Enter(s, f, strict, req, uid, c);
    hide Message, Ahead, Agrees, OnFind, OnAdd, OnList, RegOk, RegistryHandle;
    match req
    case FindSvc(_, _) => FindAgrees(s, req, uid, c, w, f);
    case AddSvc(_, _, _) => AddAgrees(s, req, uid, c, w, f);
    case ListSvc(_) => ListAgrees(s, req, uid, c, w, f);
    case _ => RefusedAgrees(s, req, uid, c);
  }

  /** A ping is answered with an empty reply; foreign and stray requests are refused. None of them changes anything. */
  lemma RefusedAgrees(s: State, req: Request, uid: u32, c: Chance)
    requires req.Ping? || req.Foreign? || req.Astray?
    ensures Agrees(s, req, uid, c, OnRequest(s, req, uid, Reader([], 0, [], false), c))
  {
    hide AbsOf, Malloc;
  }

  /** Whatever the message of a ping or a stray request is. */
  lemma UnreadAgrees(s: State, msg: Reader, req: Request, uid: u32, c: Chance)
    requires Proper(req) && (req.Ping? || req.Astray?)
    ensures Agrees(s, req, uid, c, Handle(s, Code(req), Target(req), uid, msg, FreshReply(c), c.malloc))
  {
    RefusedAgrees(s, req, uid, c);
    hide Agrees, GetU32, GetString16, NamesManager, OnFind, OnAdd, OnList;
  }

  // ---------- runs ----------

  /** The driver hands over this request; what is in a ping or a stray request does not matter. */
  ghost predicate Carries(mem: seq<byte>, t: Txn, req: Request, uid: u32) {
    && t.target == Target(req) && t.code == Code(req) && t.senderEuid == uid
    && if req.Ping? || req.Astray? then Proper(req) && TxnOk(mem, t)
       else exists f: Writer, strict: u32 :: Message(f, strict, req) && Delivers(mem, t, f)
  }

  /** This command is this event. */
  ghost predicate Means(env: Env, s: State, d: Delivery, e: Event) {
    match e
    case Call(req, uid, memory) =>
      && d.cmd.Transaction? && Carries(d.mem, d.cmd.txn, req, uid)
      && (memory <==> Malloc(s.reg, env(s.turn).malloc) != 0)
    case Died(name) =>
      && Find(s.reg, name) < |s.reg| && d.cmd == DeadBinder(s.reg[Find(s.reg, name)].addr)
  }

  /** Commands that reach neither the handler nor a death callback. */
  predicate Silent(c: Cmd) { !c.Transaction? && !c.DeadBinder? }

  /** The commands are these events in order, with silent commands anywhere between them. */
  ghost predicate Matches(env: Env, s: State, ds: seq<Delivery>, evs: seq<Event>)
    decreases |ds|
  {
    if ds == [] then evs == []
    else if Silent(ds[0].cmd) then Matches(env, s, ds[1..], evs)
    else evs != [] && Means(env, s, ds[0], evs[0]) && Matches(env, Step(env, true, s, ds[0]), ds[1..], evs[1..])
  }

  /** The replies of a run, each decoded by the client whose request it answers. */
  function DecodeAll(evs: seq<Event>, replies: seq<Command>): (s: seq<Response>)
    decreases |evs|
  {
    if evs == [] then []
    else if evs[0].Died? then DecodeAll(evs[1..], replies)
    else if |replies| < 2 then []
    else [Decoded(evs[0].req, replies[1])] + DecodeAll(evs[1..], replies[2..])
  }

  lemma AddrIsUnique(reg: seq<Entry>, i: nat)
    requires RegOk(reg) && i < |reg|
    ensures FindAddr(reg, reg[i].addr) == i
  {
  }

  /** One command does to the list what its event does to the table, and is answered as the table answers. */
  lemma StepAgrees(env: Env, s: State, d: Delivery, e: Event)
    requires Inv(s) && Means(env, s, d, e)
    ensures AbsOf(Step(env, true, s, d).reg) == AbsStep(AbsOf(s.reg), e).0
    ensures e.Died? ==> Answers(env, s, d) == [] && AbsStep(AbsOf(s.reg), e).1 == []
    ensures e.Call? ==> |Answers(env, s, d)| == 2
    ensures e.Call? ==> AbsStep(AbsOf(s.reg), e).1 == [Decoded(e.req, Answers(env, s, d)[1])]
  {
    hide AbsOf, Decoded, Serve1;
    match e
    case Died(name) =>
      AddrIsUnique(s.reg, Find(s.reg, name));
      DieIsTable(s, name);
    case Call(req, uid, _) => ServeAgrees(env, s, d.mem, d.cmd.txn, req, uid);
  }

  /** Serving a transaction that carries a request does to the list, and answers, what the table says. */
  lemma ServeAgrees(env: Env, s: State, mem: seq<byte>, t: Txn, req: Request, uid: u32)
    requires RegOk(s.reg) && Carries(mem, t, req, uid)
    ensures Agrees(s, req, uid, env(s.turn), Serve(env, s, mem, t))
  {
    var c := env(s.turn);
    if req.Ping? || req.Astray? {
      hide Agrees, Handle, FromTxn;
      UnreadAgrees(s, FromTxn(mem, t), req, uid, c);
    } else {
      var f: Writer, strict: u32 :| Message(f, strict, req) && Delivers(mem, t, f);
      MessageArrives(mem, t, f);
      CallAgrees(s, f, strict, req, uid, c);
      hide Agrees, Handle, FromTxn, Message, Init, Delivers;
      assert Serve(env, s, mem, t) == RegistryHandle(s, f, req, uid, c);
    }
  }

  /**
   The end-to-end statement. However the requests and deaths are spread over the command stream,
   the list stays the table they describe, and the replies written to the driver decode, with the
   clients' own getters, to the table's answers, in order.
   */
  lemma {:induction false} RunAgrees(env: Env, s: State, ds: seq<Delivery>, evs: seq<Event>)
    requires Inv(s) && Matches(env, s, ds, evs)
    ensures var (a, rs) := AbsRun(AbsOf(s.reg), evs);
      && AbsOf(Run(env, true, s, ds).reg) == a
      && DecodeAll(evs, AllAnswers(env, s, ds)) == rs
    decreases |ds|
  {
    hide Inv, Means, AbsOf, Decoded, AbsStep, Step, Answers, Silent;
    if ds != [] {
      if Silent(ds[0].cmd) {
        SilentStep(env, s, ds[0]);
        RunAgrees(env, s, ds[1..], evs);
        assert [] + AllAnswers(env, s, ds[1..]) == AllAnswers(env, s, ds[1..]);
      } else {
        var s1 := Step(env, true, s, ds[0]);
        StepKeeps(env, true, s, ds[0]);
        StepAgrees(env, s, ds[0], evs[0]);
        RunAgrees(env, s1, ds[1..], evs[1..]);
        DecodeCons(evs, Answers(env, s, ds[0]), AllAnswers(env, s1, ds[1..]));
      }
    }
  }

  lemma SilentStep(env: Env, s: State, d: Delivery)
    requires Silent(d.cmd)
    ensures Step(env, true, s, d) == s && Answers(env, s, d) == []
  {
  }

  lemma DecodeCons(evs: seq<Event>, first: seq<Command>, rest: seq<Command>)
    requires evs != [] && |first| == if evs[0].Died? then 0 else 2
    ensures DecodeAll(evs, first + rest)
         == (if evs[0].Died? then [] else [Decoded(evs[0].req, first[1])]) + DecodeAll(evs[1..], rest)
  {
    assert (first + rest)[|first|..] == rest;
    if evs[0].Died? {
      assert first + rest == rest;
    }
  }

  /** From the start: what the clients read is what the table says. */
  lemma EndToEnd(env: Env, ds: seq<Delivery>, evs: seq<Event>)
    requires Matches(env, START, ds, evs)
    ensures var s := Run(env, true, START, ds); var (a, rs) := AbsRun(EMPTY, evs);
      AbsOf(s.reg) == a && DecodeAll(evs, Replies(s.log)) == rs
  {
    StartKeeps();
    assert AbsOf([]) == EMPTY && Replies([]) == [];
    hide Inv, Watched, Matches, Run, AbsOf, AbsRun, DecodeAll, Replies, AllAnswers;
    RunAgrees(env, START, ds, evs);
    RunReplies(env, START, ds);
    assert [] + AllAnswers(env, START, ds) == AllAnswers(env, START, ds);
  }
}
