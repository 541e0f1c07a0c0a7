/** The numbers on the wire, as the kernel's and the library's headers fix them. */
module WireFormat {
  import opened Bytes
  import opened BioFormat
  import opened Registry
  import opened Stream
  import opened Dispatch
  import Marshalling

  /** Four characters packed into a word, the first one highest. */
  function Packed(a: int, b: int, c: int, d: int): (n: int) { ((a * 256 + b) * 256 + c) * 256 + d }

  /** Words are stored lowest byte first, and so are characters. */
  lemma LowestByteFirst(n: u32, c: u16)
    ensures U32Bytes(n) == [n % 256, n / 256 % 256, n / 65536 % 256, n / 16777216]
    ensures CharBytes([c]) == [c % 256, c / 256]
  {
    assert n % 65536 % 256 == n % 256 && n % 65536 / 256 == n / 256 % 256;
    assert n / 65536 / 256 == n / 16777216;
  }

  /** The words of every command: its code in the ioctl numbering, then its payload field by field. */
  lemma CommandWords(t: Txn, ptr: u32, cookie: u32)
    ensures var payload := [t.target, t.cookie, t.code, t.flags, t.senderPid, t.senderEuid, t.dataSize,
                            t.offsetsSize, t.buffer, t.offsets];
      CmdWords(Transaction(t)) == [0x8028_7202] + payload && CmdWords(Reply(t)) == [0x8028_7203] + payload
    ensures CmdWords(DeadReply) == [0x7205] && CmdWords(TransactionComplete) == [0x7206]
    ensures CmdWords(Refs(IncRefs, ptr, cookie)) == [0x8008_7207, ptr, cookie]
    ensures CmdWords(Refs(AcquireRef, ptr, cookie)) == [0x8008_7208, ptr, cookie]
    ensures CmdWords(Refs(ReleaseRef, ptr, cookie)) == [0x8008_7209, ptr, cookie]
    ensures CmdWords(Refs(DecRefs, ptr, cookie)) == [0x8008_720a, ptr, cookie]
    ensures CmdWords(Noop) == [0x720c] && CmdWords(SpawnLooper) == [0x720d]
    ensures CmdWords(DeadBinder(cookie)) == [0x8004_720f, cookie] && CmdWords(FailedReply) == [0x7211]
  {
  }

  /** A stored object: its type, what it accepts, the pointer or handle, and no cookie. */
  ghost predicate ObjectAt(data: seq<byte>, i: nat, kind: int, value: u32) {
    && i + 16 <= |data| && U32At(data, i) == kind && U32At(data, i + 4) == 0x7f + 0x100
    && U32At(data, i + 8) == value && U32At(data, i + 12) == 0
  }

  lemma ObjectStored(data: seq<byte>, kind: u32, value: u32)
    ensures ObjectAt(data + ObjBytes(kind, value), |data|, kind, value)
  {
    var all, n := data + ObjBytes(kind, value), |data|;
    assert all[n..n + 4] == U32Bytes(kind) && all[n + 4..n + 8] == U32Bytes(OBJ_FLAGS);
    assert all[n + 8..n + 12] == U32Bytes(value) && all[n + 12..n + 16] == U32Bytes(0);
    U32Stored(all, n, kind);
    U32Stored(all, n + 4, OBJ_FLAGS);
    U32Stored(all, n + 8, value);
    U32Stored(all, n + 12, 0);
  }

  /** Objects that are put, pointers and handles alike, are stored with all their fields. */
  lemma ObjectFields(w: Writer, value: u32)
    requires |w.data| + |w.room| < WORD && 16 <= |w.room| && w.offsRoom > 0
    ensures ObjectAt(PutObj(w, value).data, |w.data|, Packed('s' as int, 'b' as int, '*' as int, 0x85), value)
    ensures ObjectAt(PutRef(w, value).data, |w.data|, Packed('s' as int, 'h' as int, '*' as int, 0x85), value)
  {
    ObjectStored(w.data, BINDER_TYPE_BINDER, value);
    ObjectStored(w.data, BINDER_TYPE_HANDLE, value);
    assert forall b: seq<byte> | |b| == 16 :: w.data + b + w.room[|b|..16] == w.data + b;
    hide ObjBytes, ObjectAt, U32At;
  }

  lemma LengthFirst(w: Writer, s: seq<u16>)
    requires 4 <= |w.room| && |s| < 0x2000_0000
    ensures var d := PutString16(w, s).data; |d| >= |w.data| + 4 && U32At(d, |w.data|) == |s|
  {
    var d, n := PutString16(w, s).data, |w.data|;
    assert PutU32(w, |s|).data == w.data + U32Bytes(|s|) + [];
    assert d[n..n + 4] == U32Bytes(|s|);
    U32Stored(d, n, |s|);
  }

  /** A null string is the word 0xffffffff alone; so is a string of 2^29 characters or more, and no shorter one. */
  lemma NullStrings(w: Writer, s: seq<u16>)
    requires Marshalling.Fits32(w) && 4 <= |w.room|
    ensures Marshalling.Put(w, Marshalling.NoStr) == PutU32(w, 0xffff_ffff)
    ensures Marshalling.Put(w, Marshalling.Str(s)) == PutU32(w, 0xffff_ffff) <==> |s| >= 0x2000_0000
  {
    if |s| < 0x2000_0000 {
      LengthFirst(w, s);
      var d, n := PutU32(w, 0xffff_ffff).data, |w.data|;
      assert d == w.data + U32Bytes(0xffff_ffff) + [];
      assert d[n..n + 4] == U32Bytes(0xffff_ffff);
      U32Stored(d, n, 0xffff_ffff);
    }
  }

  /** The service manager's handle, the codes it serves, and the name of its interface. */
  lemma ServiceNumbers()
    ensures SVCMGR_HANDLE == 0
    ensures PING_TRANSACTION == Packed('_' as int, 'P' as int, 'N' as int, 'G' as int)
    ensures [GET_SERVICE, CHECK_SERVICE, ADD_SERVICE, LIST_SERVICES] == [1, 2, 3, 4]
    ensures var name := "android.os.IServiceManager";
      |SVCMGR_ID| == |name| && forall i | 0 <= i < |name| :: SVCMGR_ID[i] == name[i] as int
  {
  }

  /** A reply holds up to 240 bytes and 4 objects. */
  lemma ReplyCapacity(c: Chance, items: seq<Marshalling.Item>)
    ensures !Marshalling.PutAll(Marshalling.Init(Frame(c), REPLY_OFFS), items).overflow <==>
      Marshalling.TotalSize(items) <= 240 && Marshalling.RecordedCount(items) <= 4
  {
    Marshalling.InitCapacity(Frame(c), REPLY_OFFS, items);
  }

  /**
   The bytes behind a string's length word: two for each character and the terminator, rounded up. The count
   starts over at 2^31 - 1 characters, and the largest sizes round to nothing, as does the null string's.
   */
  function TextSize(len: u32): (n: nat) {
    var size := if len < 0x7fff_ffff then 2 * len + 2 else 2 * len + 2 - 0x1_0000_0000;
    if len == 0xffff_ffff || size > 0xffff_fffc then 0 else (size + 3) / 4 * 4
  }

  lemma TextRounding(len: u32)
    ensures Align4((len + 1) * 2 % WORD) == TextSize(len)
  {
    assert len != 0xffff_ffff ==>
      (len + 1) * 2 % WORD == if len < 0x7fff_ffff then 2 * len + 2 else 2 * len + 2 - WORD;
  }

  /** A string is read exactly when the message has its length word and that many bytes behind it. */
  lemma TextNeeds(r: Reader, len: u32)
    requires U32Bytes(len) <= r.rest
    ensures var (r1, t) := GetString16(r);
      && t.len == len
      && (t.chars.Some? <==> 4 + TextSize(len) <= |r.rest|)
      && (t.chars.Some? ==> r1.pos == r.pos + 4 + TextSize(len))
  {
    Marshalling.GetU32Stored(r, len);
    TextRounding(len);
    hide Chars, U32At, Align4, TextSize, GetU32;
  }
}
