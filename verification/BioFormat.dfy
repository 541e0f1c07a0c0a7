/**
 What a binder_io holds, seen from outside: a Writer is the message built so far,
 a Reader is what is left to decode. The class BinderIo is proved against these.
 */
module BioFormat {
  import opened Bytes

  const NULL_STRING: u32 := 0xffff_ffff
  const MAX_BIO_SIZE := 0x4000_0000
  const MAX_CHARS := MAX_BIO_SIZE / 2
  const BINDER_TYPE_BINDER: u32 := 0x7362_2a85
  const BINDER_TYPE_HANDLE: u32 := 0x7368_2a85
  const OBJ_FLAGS: u32 := 0x17f
  const OBJ_SIZE := 16

  // ---------- writing ----------

  /**
   data: the bytes between data0 and data; room: the data_avail bytes after them, with
   whatever they happen to contain; offs: the recorded object offsets.
   */
  datatype Writer = Writer(data: seq<byte>, room: seq<byte>, offs: seq<u32>, offsRoom: nat, overflow: bool)

  /** bio_alloc: the cursor moves over the first `Align4(size)` bytes of the room. */
  function Alloc(w: Writer, size: u32): (w': Writer) {
    var n := Align4(size);
    if n > |w.room| then w.(overflow := true)
    else w.(data := w.data + w.room[..n], room := w.room[n..])
  }

  /** Allocate room for the bytes and store them; padding keeps what the room held. */
  function Emit(w: Writer, b: seq<byte>): (w': Writer)
    requires |b| < 0x8000_0000
  {
    var n := Align4(|b|);
    if n > |w.room| then w.(overflow := true)
    else w.(data := w.data + b + w.room[|b|..n], room := w.room[n..])
  }

  /** Allocating and then storing at the allocated place is Emit. */
  lemma AllocStore(w: Writer, b: seq<byte>)
    requires |b| < 0x8000_0000 && Align4(|b|) <= |w.room|
    ensures Alloc(w, |b|).(data := Splice(Alloc(w, |b|).data, |w.data|, b)) == Emit(w, b)
  {
  }

  lemma CharBytesAppend(s: seq<u16>, c: u16)
    ensures CharBytes(s + [c]) == CharBytes(s) + U16Bytes(c)
  {
  }

  function PutU32(w: Writer, n: u32): (w': Writer) { Emit(w, U32Bytes(n)) }

  function ObjBytes(kind: u32, value: u32): (b: seq<byte>)
    ensures |b| == OBJ_SIZE
  {
    U32Bytes(kind) + U32Bytes(OBJ_FLAGS) + U32Bytes(value) + U32Bytes(0)
  }

  /** bio_alloc_obj and the stores: without a free table entry the 16 bytes are spent all the same. */
  function EmitObj(w: Writer, b: seq<byte>): (w': Writer)
    requires |b| == OBJ_SIZE && |w.data| + |w.room| < WORD
  {
    if OBJ_SIZE > |w.room| then w.(overflow := true)
    else if w.offsRoom == 0 then Alloc(w, OBJ_SIZE).(overflow := true)
    else Emit(w, b).(offs := w.offs + [|w.data|], offsRoom := w.offsRoom - 1)
  }

  function PutObj(w: Writer, ptr: u32): (w': Writer)
    requires |w.data| + |w.room| < WORD
  {
    EmitObj(w, ObjBytes(BINDER_TYPE_BINDER, ptr))
  }

  function PutRef(w: Writer, handle: u32): (w': Writer)
    requires |w.data| + |w.room| < WORD
  {
    if handle != 0 then EmitObj(w, ObjBytes(BINDER_TYPE_HANDLE, handle))
    else Emit(w, ObjBytes(BINDER_TYPE_HANDLE, handle))
  }

  /** bio_put_string16 of a string without its terminator. */
  function PutString16(w: Writer, s: seq<u16>): (w': Writer) {
    if |s| >= MAX_CHARS then PutU32(w, NULL_STRING)
    else Emit(PutU32(w, |s|), CharBytes(s + [0]))
  }

  /** A C string: the characters before the first NUL. */
  function CString(str: seq<u16>): (s: seq<u16>)
    ensures s <= str && 0 !in s
    ensures 0 in str ==> |s| < |str| && str[|s|] == 0
    ensures 0 !in str ==> s == str
  {
    if str == [] || str[0] == 0 then [] else [str[0]] + CString(str[1..])
  }

  /** The C string in a buffer is that of the characters before any NUL of it. */
  lemma {:induction false} CStringPrefix(str: seq<u16>, n: nat)
    requires n < |str| && str[n] == 0
    ensures CString(str) == CString(str[..n])
  {
  }

  // ---------- reading ----------

  /** rest: the data_avail bytes from data on; pos: data - data0; offs: the offset table. */
  datatype Reader = Reader(rest: seq<byte>, pos: nat, offs: seq<u32>, overflow: bool)

  /** What bio_get_string16 hands back: the length, and the characters its pointer reaches (None for NULL). */
  datatype Text = Text(len: u32, chars: Option<seq<u16>>)

  function Fail(r: Reader): (v: Reader) { r.(rest := [], overflow := true) }

  function Get(r: Reader, size: u32): (v: (Reader, Option<seq<byte>>)) {
    var n := Align4(size);
    if |r.rest| < n then (Fail(r), None)
    else (r.(rest := r.rest[n..], pos := r.pos + n), Some(r.rest[..n]))
  }

  function GetU32(r: Reader): (v: (Reader, u32)) {
    var (r1, b) := Get(r, 4);
    (r1, if b.Some? then U32At(b.value, 0) else 0)
  }

  /** The characters of the next `size` bytes: a size that wraps to 0 when rounded yields none. */
  function GetChars(r: Reader, size: u32): (v: (Reader, Option<seq<u16>>)) {
    var (r1, b) := Get(r, size);
    (r1, if b.None? then None else Some(Chars(b.value, 0, Min(size, |b.value|) / 2)))
  }

  function GetString16(r: Reader): (v: (Reader, Text)) {
    var (r1, len) := GetU32(r);
    var (r2, chars) := GetChars(r1, (len + 1) * 2 % WORD);
    (r2, Text(len, chars))
  }

  function Min(a: int, b: int): (n: int) { if a < b then a else b }

  function GetObj(r: Reader): (v: (Reader, Option<seq<byte>>)) {
    if r.pos in r.offs then Get(r, OBJ_SIZE) else (Fail(r), None)
  }

  function GetRef(r: Reader): (v: (Reader, u32)) {
    var (r1, b) := GetObj(r);
    (r1, if b.Some? && U32At(b.value, 0) == BINDER_TYPE_HANDLE then U32At(b.value, 8) else 0)
  }
}
