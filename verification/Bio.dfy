/** struct binder_io and the bio_* calls of binder.c. */
module Bio {
  import opened Bytes
  import opened BioFormat

  datatype Flags = Flags(shared: bool, overflow: bool, ioerror: bool)

  const NO_FLAGS := Flags(false, false, false)

  /** Where a binder_io points: byte indices into one memory. */
  datatype Cursors = Cursors(data0: nat, data: nat, dataAvail: nat, offs0: nat, offs: nat, offsAvail: nat)

  /** The memory `m` behind the cursors holds the message `w`: first the table, then the data area. */
  ghost predicate Holds(m: seq<byte>, c: Cursors, w: Writer) {
    && c.offs0 <= c.offs && (c.offs - c.offs0) % 4 == 0 && c.offs + 4 * c.offsAvail <= c.data0
    && c.data0 <= c.data && c.data + c.dataAvail <= |m| < WORD
    && w.data == m[c.data0..c.data] && w.room == m[c.data..c.data + c.dataAvail]
    && w.offs == Words(m, c.offs0, (c.offs - c.offs0) / 4) && w.offsRoom == c.offsAvail
  }

  lemma HoldsAlloc(m: seq<byte>, c: Cursors, w: Writer, size: u32)
    requires Holds(m, c, w) && Align4(size) <= c.dataAvail
    ensures Holds(m, c.(data := c.data + Align4(size), dataAvail := c.dataAvail - Align4(size)), Alloc(w, size))
  {
    var n := Align4(size);
    SubSlice(m, c.data, c.dataAvail, n);
    SubSlice(m, c.data0, c.data + n - c.data0, c.data - c.data0);
  }

  lemma HoldsOverflow(m: seq<byte>, c: Cursors, w: Writer)
    requires Holds(m, c, w)
    ensures Holds(m, c, w.(overflow := true))
  {
  }

  lemma HoldsStore(m: seq<byte>, c: Cursors, w: Writer, p: nat, b: seq<byte>)
    requires Holds(m, c, w) && c.data0 <= p && p + |b| <= c.data
    ensures Holds(Splice(m, p, b), c, w.(data := Splice(w.data, p - c.data0, b)))
  {
    var m' := Splice(m, p, b);
    assert m'[c.data0..c.data] == Splice(w.data, p - c.data0, b);
    assert m'[c.data..c.data + c.dataAvail] == w.room;
    assert m'[..c.data0] == m[..c.data0];
    WordsPrefix(m, m', c.data0, c.offs0, (c.offs - c.offs0) / 4);
  }

  lemma HoldsOff(m: seq<byte>, c: Cursors, w: Writer, off: u32)
    requires Holds(m, c, w) && c.offsAvail > 0
    ensures Holds(Splice(m, c.offs, U32Bytes(off)), c.(offs := c.offs + 4, offsAvail := c.offsAvail - 1),
                  w.(offs := w.offs + [off], offsRoom := w.offsRoom - 1))
  {
    var m' := Splice(m, c.offs, U32Bytes(off));
    assert m'[c.data0..] == m[c.data0..];
    SameSlice(m, m', c.data0, c.data0, c.data);
    SameSlice(m, m', c.data0, c.data, c.data + c.dataAvail);
    var n := (c.offs - c.offs0) / 4;
    assert m'[c.offs..c.offs + 4] == U32Bytes(off);
    assert m[c.offs0..c.offs] == m'[c.offs0..c.offs];
    WordsAppend(m, m', c.offs0, n, off);
  }

  /**
   data, data0 and offs, offs0 are pointers into `buf`, as byte indices: for a writer the
   caller's buffer, for a received message the memory the driver mapped.
   */
  class BinderIo {
    var buf: array<byte>
    var data: nat
    var offs: nat
    var dataAvail: nat
    var offsAvail: nat
    var data0: nat
    var offs0: nat
    var flags: Flags
    ghost var w: Writer

    ghost predicate Valid()
      reads this
    {
      && buf.Length < WORD
      && data0 <= data && data + dataAvail <= buf.Length
      && offs0 <= offs && (offs - offs0) % 4 == 0 && offs + 4 * offsAvail <= buf.Length
    }

    ghost function At(): (r: Cursors)
      reads this
    {
      Cursors(data0, data, dataAvail, offs0, offs, offsAvail)
    }

    /** `w` is the message built so far. */
    ghost predicate ValidWriter()
      reads this, buf
      ensures ValidWriter() ==>
        && offs + 4 * offsAvail <= data0 <= data && data + dataAvail <= buf.Length < WORD
        && |w.data| == data - data0 && |w.room| == dataAvail && w.offsRoom == offsAvail
    {
      Holds(buf[..], At(), w) && w.overflow == flags.overflow
    }

    ghost function ReaderView(): (r: Reader)
      requires Valid()
      reads this, buf
    {
      Reader(buf[data..data + dataAvail], data - data0, Words(buf[..], offs, offsAvail), flags.overflow)
    }

    /** A struct on the stack: nothing in it means anything yet. */
    constructor Blank()
      ensures Valid() && fresh(buf) && flags == NO_FLAGS && dataAvail == 0
    {
      buf := new byte[0];
      data, offs, dataAvail, offsAvail, data0, offs0 := 0, 0, 0, 0, 0, 0;
      flags := NO_FLAGS;
      w := Writer([], [], [], 0, false);
    }

    /** All fields are cleared, and the struct is marked as failed. */
    method Clear()
      modifies this
      ensures Valid() && flags == Flags(false, false, true) && dataAvail == 0 && offsAvail == 0
    {
      buf := new byte[0];
      data, offs, dataAvail, offsAvail, data0, offs0 := 0, 0, 0, 0, 0, 0;
      flags := Flags(false, false, true);
    }

    /** bio_init; when the table alone exceeds the buffer only the counters and the flag are set. */
    method Init(buffer: array<byte>, maxdata: nat, maxoffs: nat)
      requires maxdata <= buffer.Length < WORD && 4 * maxoffs < WORD
      modifies this
      ensures 4 * maxoffs <= maxdata ==>
        && ValidWriter() && buf == buffer && !flags.shared
        && w == Writer([], buffer[4 * maxoffs..maxdata], [], maxoffs, false)
      ensures 4 * maxoffs > maxdata ==>
        && flags.overflow && dataAvail == 0 && offsAvail == 0
        && buf == old(buf) && data == old(data) && data0 == old(data0) && offs == old(offs) && offs0 == old(offs0)
    {
      var n := maxoffs * 4;
      if n > maxdata {
        flags := Flags(false, true, false);
        dataAvail := 0;
        offsAvail := 0;
        return;
      }
      buf := buffer;
      data, data0 := n, n;
      offs, offs0 := 0, 0;
      dataAvail := maxdata - n;
      offsAvail := maxoffs;
      flags := NO_FLAGS;
      w := Writer([], buffer[n..maxdata], [], maxoffs, false);
    }

    /** bio_init_from_txn, on the four words of the transaction that describe its buffer. */
    method InitFromTxn(mapped: array<byte>, buffer: u32, dataSize: u32, offsets: u32, offsetsSize: u32)
      requires mapped.Length < WORD
      requires buffer + dataSize <= mapped.Length && offsets + offsetsSize / 4 * 4 <= mapped.Length
      modifies this
      ensures Valid() && buf == mapped && data0 == buffer && flags == Flags(true, false, false)
      ensures ReaderView() == Reader(mapped[buffer..buffer + dataSize], 0,
                                     Words(mapped[..], offsets, offsetsSize / 4), false)
    {
      buf := mapped;
      data, data0 := buffer, buffer;
      offs, offs0 := offsets, offsets;
      dataAvail := dataSize;
      offsAvail := offsetsSize / 4;
      flags := Flags(true, false, false);
    }

    // ---------- writing ----------

    /** bio_alloc; the index of the allocated bytes, or None for NULL. */
    method BioAlloc(size: u32) returns (p: Option<nat>)
      requires ValidWriter()
      modifies this`data, this`dataAvail, this`flags, this`w
      ensures ValidWriter() && w == Alloc(old(w), size)
      ensures p.None? <==> Align4(size) > old(dataAvail)
      ensures p.Some? ==> p.value == old(data) && data == old(data) + Align4(size) && flags == old(flags)
      ensures flags == old(flags).(overflow := flags.overflow)
    {
      hide Holds;
      var n := Align4(size);
      if n > dataAvail {
        HoldsOverflow(buf[..], At(), w);
        flags := flags.(overflow := true);
        w := w.(overflow := true);
        return None;
      }
      HoldsAlloc(buf[..], At(), w, size);
      p := Some(data);
      data := data + n;
      dataAvail := dataAvail - n;
      w := Alloc(w, size);
    }

    /** memcpy, or a run of stores, into the data area. */
    method Store(p: nat, b: seq<byte>)
      requires ValidWriter() && data0 <= p && p + |b| <= data
      modifies buf, this`w
      ensures ValidWriter()
      ensures w == old(w).(data := Splice(old(w).data, p - data0, b))
    {
      hide Holds, Splice;
      HoldsStore(buf[..], At(), w, p, b);
      Memcpy(buf, p, b);
      w := w.(data := Splice(w.data, p - data0, b));
    }

    /** Bytes are copied to newly allocated room, if there is any. */
    method AllocAndStore(b: seq<byte>)
      requires ValidWriter() && |b| < 0x8000_0000
      modifies this`data, this`dataAvail, this`flags, this`w, buf
      ensures ValidWriter() && w == Emit(old(w), b)
      ensures flags == old(flags).(overflow := flags.overflow)
    {
      hide Holds;
      ghost var w0 := w;
      var p := BioAlloc(|b|);
      if p.Some? {
        Store(p.value, b);
        AllocStore(w0, b);
      }
    }

    /** One more entry of the offset table. */
    method StoreOff(off: u32)
      requires ValidWriter() && offsAvail > 0
      modifies this`offs, this`offsAvail, buf, this`w
      ensures ValidWriter()
      ensures w == old(w).(offs := old(w).offs + [off], offsRoom := old(offsAvail) - 1)
    {
      hide Holds;
      HoldsOff(buf[..], At(), w, off);
      Memcpy(buf, offs, U32Bytes(off));
      offsAvail := offsAvail - 1;
      offs := offs + 4;
      w := w.(offs := w.offs + [off], offsRoom := w.offsRoom - 1);
    }

    /** bio_alloc_obj */
    method BioAllocObj() returns (p: Option<nat>)
      requires ValidWriter()
      modifies this`data, this`dataAvail, this`flags, this`w, this`offs, this`offsAvail, buf
      ensures ValidWriter() && flags == old(flags).(overflow := flags.overflow)
      ensures var a := Alloc(old(w), OBJ_SIZE);
        && (p.None? <==> OBJ_SIZE > old(dataAvail) || old(offsAvail) == 0)
        && (p.None? ==> w == a.(overflow := true))
        && (p.Some? ==>
          && p.value == old(data) && data == old(data) + OBJ_SIZE
          && w == a.(offs := a.offs + [old(data) - data0], offsRoom := a.offsRoom - 1))
    {
      hide Holds;
      var obj := BioAlloc(OBJ_SIZE);
      if obj.Some? && offsAvail > 0 {
        StoreOff(obj.value - data0);
        return obj;
      }
      HoldsOverflow(buf[..], At(), w);
      flags := flags.(overflow := true);
      w := w.(overflow := true);
      return None;
    }

    /** bio_put_uint32 */
    method PutUint32(n: u32)
      requires ValidWriter()
      modifies this`data, this`dataAvail, this`flags, this`w, buf
      ensures ValidWriter() && w == PutU32(old(w), n)
      ensures flags == old(flags).(overflow := flags.overflow)
    {
      AllocAndStore(U32Bytes(n));
    }

    /** bio_put_obj */
    method PutObject(ptr: u32)
      requires ValidWriter()
      modifies this`data, this`dataAvail, this`flags, this`w, this`offs, this`offsAvail, buf
      ensures ValidWriter() && w == PutObj(old(w), ptr)
      ensures flags == old(flags).(overflow := flags.overflow)
    {
      hide Holds;
      ghost var w0 := w;
      var obj := BioAllocObj();
      if obj.None? {
        return;
      }
      Store(obj.value, ObjBytes(BINDER_TYPE_BINDER, ptr));
      AllocStore(w0, ObjBytes(BINDER_TYPE_BINDER, ptr));
    }

    /** bio_put_ref: handle 0 takes no entry in the offset table. */
    method PutReference(handle: u32)
      requires ValidWriter()
      modifies this`data, this`dataAvail, this`flags, this`w, this`offs, this`offsAvail, buf
      ensures ValidWriter() && w == PutRef(old(w), handle)
      ensures flags == old(flags).(overflow := flags.overflow)
    {
      hide Holds;
      if handle == 0 {
        AllocAndStore(ObjBytes(BINDER_TYPE_HANDLE, handle));
        return;
      }
      ghost var w0 := w;
      var obj := BioAllocObj();
      if obj.None? {
        return;
      }
      Store(obj.value, ObjBytes(BINDER_TYPE_HANDLE, handle));
      AllocStore(w0, ObjBytes(BINDER_TYPE_HANDLE, handle));
    }

    /** bio_put_string16; `str` is the memory from the pointer on, None a null pointer. */
    method PutStr16(str: Option<seq<u16>>)
      requires ValidWriter() && (str.Some? ==> 0 in str.value)
      modifies this`data, this`dataAvail, this`flags, this`w, buf
      ensures ValidWriter()
      ensures w == if str.None? then PutU32(old(w), NULL_STRING)
                              else PutString16(old(w), CString(str.value))
      ensures flags == old(flags).(overflow := flags.overflow)
    {
      if str.None? {
        PutUint32(NULL_STRING);
        return;
      }
      var len := Strlen(str.value);
      if len >= MAX_CHARS {
        PutUint32(NULL_STRING);
        return;
      }
      PutUint32(len);
      assert str.value[..len + 1] == CString(str.value) + [0];
      AllocAndStore(CharBytes(str.value[..len + 1]));
    }

    /** The next character, after the characters `done` have been stored from offset `at` on. */
    method StoreChar(ghost start: seq<byte>, at: nat, k: nat, ghost done: seq<u16>, c: u16)
      requires ValidWriter() && |done| == k && at + 2 * k + 2 <= data - data0 == |start|
      requires w.data == Splice(start, at, CharBytes(done))
      modifies buf, this`w
      ensures ValidWriter()
      ensures w == old(w).(data := Splice(start, at, CharBytes(done + [c])))
    {
      SpliceTwice(start, at, CharBytes(done), U16Bytes(c));
      CharBytesAppend(done, c);
      Store(data0 + at + 2 * k, U16Bytes(c));
    }

    /** bio_put_string16_x: each 8-bit character is stored as a 16-bit one. */
    method PutStr16x(str: Option<seq<byte>>)
      requires ValidWriter() && (str.Some? ==> 0 in str.value)
      modifies this`data, this`dataAvail, this`flags, this`w, buf
      ensures ValidWriter()
      ensures w == if str.None? then PutU32(old(w), NULL_STRING)
                              else PutString16(old(w), CString(str.value))
      ensures flags == old(flags).(overflow := flags.overflow)
    {
      if str.None? {
        PutUint32(NULL_STRING);
        return;
      }
      var len := Strlen(str.value);
      if len >= MAX_CHARS {
        PutUint32(NULL_STRING);
        return;
      }
      PutUint32(len);
      WidenAndStore(str.value, len, CString(str.value));
    }

    /** The allocation and the copying loop of bio_put_string16_x. */
    method WidenAndStore(s: seq<byte>, len: nat, ghost str: seq<u16>)
      requires ValidWriter() && |str| == len < |s| && len < MAX_CHARS
      requires s[len] == 0 && forall k | 0 <= k < len :: s[k] == str[k] && s[k] != 0
      modifies this`data, this`dataAvail, this`flags, this`w, buf
      ensures ValidWriter() && w == Emit(old(w), CharBytes(str + [0]))
      ensures flags == old(flags).(overflow := flags.overflow)
    {
      hide Holds;
      ghost var w0 := w;
      var p := BioAlloc((len + 1) * 2);
      if p.Some? {
        CopyWidened(p.value - data0, s, len, str);
        AllocStore(w0, CharBytes(str + [0]));
      }
    }

    /** Characters are copied one by one to offset `at` and behind, the terminator last. */
    method CopyWidened(at: nat, s: seq<byte>, len: nat, ghost str: seq<u16>)
      requires ValidWriter() && |str| == len < |s| && at + 2 * (len + 1) <= data - data0
      requires s[len] == 0 && forall k | 0 <= k < len :: s[k] == str[k] && s[k] != 0
      modifies buf, this`w
      ensures ValidWriter()
      ensures w == old(w).(data := Splice(old(w).data, at, CharBytes(str + [0])))
    {
      hide Holds;
      ghost var start := w.data;
      var i := 0;
      while s[i] != 0
        invariant i <= len && ValidWriter()
        invariant w == old(w).(data := Splice(start, at, CharBytes(str[..i])))
        decreases len - i
      {
        StoreChar(start, at, i, str[..i], s[i]);
        i := i + 1;
        assert str[..i] == str[..i - 1] + [s[i - 1]];
      }
      assert str[..i] == str;
      StoreChar(start, at, i, str, 0);
    }

    // ---------- reading ----------

    /** bio_get; the index of the bytes, or None for NULL. */
    method BioGet(size: u32) returns (p: Option<nat>)
      requires Valid()
      modifies this`data, this`dataAvail, this`flags
      ensures Valid() && ReaderView() == Get(old(ReaderView()), size).0
      ensures flags == old(flags).(overflow := flags.overflow)
      ensures var b := Get(old(ReaderView()), size).1;
        && (p.None? <==> b.None?)
        && (p.Some? ==> p.value + Align4(size) <= buf.Length && buf[p.value..p.value + Align4(size)] == b.value)
    {
      hide Words, Align4;
      var n := Align4(size);
      ghost var m, k := buf[..], dataAvail;
      assert buf[data..data + k] == m[data..data + k];
      if dataAvail < n {
        dataAvail := 0;
        flags := flags.(overflow := true);
        return None;
      }
      p := Some(data);
      SubSlice(m, data, k, n);
      data := data + n;
      dataAvail := dataAvail - n;
      assert buf[p.value..p.value + n] == m[p.value..p.value + n];
      assert buf[data..data + dataAvail] == m[data..data + dataAvail];
    }

    /** bio_get_uint32 */
    method GetUint32() returns (n: u32)
      requires Valid()
      modifies this`data, this`dataAvail, this`flags
      ensures Valid() && (ReaderView(), n) == GetU32(old(ReaderView()))
      ensures flags == old(flags).(overflow := flags.overflow)
    {
      var p := BioGet(4);
      if p.None? {
        return 0;
      }
      return U32At(buf[p.value..p.value + 4], 0);
    }

    /** bio_get, and the characters at the returned pointer. */
    method BioGetChars(size: u32) returns (chars: Option<seq<u16>>)
      requires Valid()
      modifies this`data, this`dataAvail, this`flags
      ensures Valid() && (ReaderView(), chars) == GetChars(old(ReaderView()), size)
      ensures flags == old(flags).(overflow := flags.overflow)
    {
      var p := BioGet(size);
      if p.None? {
        return None;
      }
      var slice := buf[p.value..p.value + Align4(size)];
      return Some(Chars(slice, 0, Min(size, |slice|) / 2));
    }

    /** bio_get_string16: the length, and the characters the returned pointer reaches. */
    method GetStr16() returns (text: Text)
      requires Valid()
      modifies this`data, this`dataAvail, this`flags
      ensures Valid() && (ReaderView(), text) == GetString16(old(ReaderView()))
      ensures flags == old(flags).(overflow := flags.overflow)
    {
      hide Valid, ReaderView, GetU32, GetChars;
      var len := GetUint32();
      var chars := BioGetChars((len + 1) * 2 % WORD);
      return Text(len, chars);
    }

    /** Is this offset in the table? */
    method HasOffset(off: nat) returns (found: bool)
      requires Valid()
      ensures found <==> off in ReaderView().offs
    {
      ghost var os := Words(buf[..], offs, offsAvail);
      var n := 0;
      while n < offsAvail
        invariant n <= offsAvail && forall k | 0 <= k < n :: os[k] != off
      {
        if U32At(buf[..], offs + 4 * n) == off {
          assert os[n] == off;
          return true;
        }
        n := n + 1;
      }
      return false;
    }

    /** _bio_get_obj: the cursor must stand on an offset of the table. */
    method BioGetObj() returns (p: Option<nat>)
      requires Valid()
      modifies this`data, this`dataAvail, this`flags
      ensures Valid() && ReaderView() == GetObj(old(ReaderView())).0
      ensures flags == old(flags).(overflow := flags.overflow)
      ensures var b := GetObj(old(ReaderView())).1;
        && (p.None? <==> b.None?)
        && (p.Some? ==> p.value + OBJ_SIZE <= buf.Length && buf[p.value..p.value + OBJ_SIZE] == b.value)
    {
      hide Words, Get;
      assert Align4(OBJ_SIZE) == OBJ_SIZE;
      var found := HasOffset(data - data0);
      if found {
        p := BioGet(OBJ_SIZE);
        return;
      }
      dataAvail := 0;
      flags := flags.(overflow := true);
      return None;
    }

    /** bio_get_ref */
    method GetReference() returns (handle: u32)
      requires Valid()
      modifies this`data, this`dataAvail, this`flags
      ensures Valid() && (ReaderView(), handle) == GetRef(old(ReaderView()))
      ensures flags == old(flags).(overflow := flags.overflow)
    {
      var p := BioGetObj();
      if p.None? {
        return 0;
      }
      var obj := buf[p.value..p.value + OBJ_SIZE];
      if U32At(obj, 0) == BINDER_TYPE_HANDLE {
        return U32At(obj, 8);
      }
      return 0;
    }
  }

  method Memcpy(buf: array<byte>, p: nat, b: seq<byte>)
    requires p + |b| <= buf.Length
    modifies buf
    ensures buf[..] == Splice(old(buf[..]), p, b)
  {
    forall i | 0 <= i < |b| {
      buf[p + i] := b[i];
    }
  }

  /** The number of characters before the first NUL. */
  method Strlen(s: seq<u16>) returns (len: nat)
    requires 0 in s
    ensures len == |CString(s)|
  {
    len := 0;
    while s[len] != 0
      invariant len <= |CString(s)|
      decreases |s| - len
    {
      len := len + 1;
    }
  }
}
