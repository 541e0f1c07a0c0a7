/** What any batch of puts leaves behind, when it fits, and what reading it back gives. */
module Marshalling {
  import opened Bytes
  import opened BioFormat

  /** One bio_put call. Str is a C string (its characters before the NUL), NoStr a null pointer. */
  datatype Item = U32(n: u32) | Str(s: seq<u16>) | NoStr | Ref(handle: u32) | Obj(ptr: u32)

  function Put(w: Writer, item: Item): (w': Writer)
    requires Fits32(w)
  {
    match item
    case U32(n) => PutU32(w, n)
    case Str(s) => PutString16(w, s)
    case NoStr => PutU32(w, NULL_STRING)
    case Ref(h) => PutRef(w, h)
    case Obj(p) => PutObj(w, p)
  }

  /** The data area is smaller than the 32-bit address space. */
  ghost predicate Fits32(w: Writer) { |w.data| + |w.room| < WORD }

  /** Puts in order, `overflow` and all. */
  function PutAll(w: Writer, items: seq<Item>): (w': Writer)
    requires Fits32(w)
    decreases |items|
  {
    if items == [] then w
    else
      PutExtends(w, items[0]);
      PutAll(Put(w, items[0]), items[1..])
  }

  /** bio_init on a buffer: the table takes the first `4 * maxoffs` bytes. */
  function Init(buffer: seq<byte>, maxoffs: nat): (w: Writer)
    requires 4 * maxoffs <= |buffer|
  {
    Writer([], buffer[4 * maxoffs..], [], maxoffs, false)
  }

  // ---------- layout ----------

  ghost predicate IsObject(data: seq<byte>, off: nat) {
    off % 4 == 0 && off + OBJ_SIZE <= |data| && FlatObject(data[off..off + OBJ_SIZE])
  }

  ghost predicate FlatObject(b: seq<byte>) {
    exists kind, value :: b == ObjBytes(kind, value)
  }

  /** Offsets are aligned, ascending, a whole object apart, and each names a stored object. */
  ghost predicate LayoutOk(w: Writer) {
    && |w.data| % 4 == 0
    && (forall i | 0 <= i < |w.offs| :: IsObject(w.data, w.offs[i]))
    && (forall i, j | 0 <= i < j < |w.offs| :: w.offs[i] + OBJ_SIZE <= w.offs[j])
  }

  /** `v` was reached from `w` by puts: nothing stored earlier changed, and no byte or entry was lost. */
  ghost predicate Extends(w: Writer, v: Writer) {
    && w.data <= v.data
    && w.offs <= v.offs
    && |v.data| + |v.room| == |w.data| + |w.room|
    && |v.offs| + v.offsRoom == |w.offs| + w.offsRoom
    && (forall i | |w.offs| <= i < |v.offs| :: |w.data| <= v.offs[i])
    && v.room == w.room[|v.data| - |w.data|..]
    && (w.overflow ==> v.overflow)
  }

  lemma ExtendsTrans(u: Writer, v: Writer, w: Writer)
    requires Extends(u, v) && Extends(v, w)
    ensures Extends(u, w)
  {
  }

  /** More bytes and the same table keep the layout. */
  lemma LayoutKept(w: Writer, v: Writer)
    requires LayoutOk(w) && w.data <= v.data && v.offs == w.offs && |v.data| % 4 == 0
    ensures LayoutOk(v)
  {
  }

  lemma AllocExtends(w: Writer, size: u32)
    requires Fits32(w)
    ensures Extends(w, Alloc(w, size))
    ensures LayoutOk(w) ==> LayoutOk(Alloc(w, size))
  {
    if LayoutOk(w) { LayoutKept(w, Alloc(w, size)); }
  }

  lemma EmitExtends(w: Writer, b: seq<byte>)
    requires Fits32(w) && |b| < 0x8000_0000
    ensures Extends(w, Emit(w, b))
    ensures LayoutOk(w) ==> LayoutOk(Emit(w, b))
  {
    if LayoutOk(w) { LayoutKept(w, Emit(w, b)); }
  }

  lemma EmitObjExtends(w: Writer, b: seq<byte>)
    requires Fits32(w) && |b| == OBJ_SIZE
    ensures Extends(w, EmitObj(w, b))
    ensures LayoutOk(w) && FlatObject(b) ==> LayoutOk(EmitObj(w, b))
  {
    if OBJ_SIZE <= |w.room| && w.offsRoom == 0 {
      AllocExtends(w, OBJ_SIZE);
    } else {
      EmitExtends(w, b);
      if OBJ_SIZE <= |w.room| && LayoutOk(w) && FlatObject(b) {
        ObjectAdded(w, b);
      }
    }
  }

  lemma ObjectAdded(w: Writer, b: seq<byte>)
    requires Fits32(w) && |b| == OBJ_SIZE <= |w.room| && w.offsRoom > 0
    requires LayoutOk(w) && LayoutOk(Emit(w, b)) && FlatObject(b)
    ensures LayoutOk(EmitObj(w, b))
  {
    var v := Emit(w, b);
    assert v.data[|w.data|..|w.data| + OBJ_SIZE] == b;
    assert IsObject(v.data, |w.data|);
  }

  /** One put only appends, and keeps the layout. */
  lemma PutExtends(w: Writer, item: Item)
    requires Fits32(w)
    ensures Extends(w, Put(w, item))
    ensures LayoutOk(w) ==> LayoutOk(Put(w, item))
  {
    match item
    case U32(n) => EmitExtends(w, U32Bytes(n));
    case NoStr => EmitExtends(w, U32Bytes(NULL_STRING));
    case Str(s) =>
      if |s| >= MAX_CHARS {
        EmitExtends(w, U32Bytes(NULL_STRING));
      } else {
        EmitExtends(w, U32Bytes(|s|));
        EmitExtends(PutU32(w, |s|), CharBytes(s + [0]));
        ExtendsTrans(w, PutU32(w, |s|), Put(w, item));
      }
    case Ref(h) =>
      EmitObjExtends(w, ObjBytes(BINDER_TYPE_HANDLE, h));
      EmitExtends(w, ObjBytes(BINDER_TYPE_HANDLE, h));
    case Obj(p) => EmitObjExtends(w, ObjBytes(BINDER_TYPE_BINDER, p));
  }

  /** Every batch of puts, fitting or not, keeps the layout and only ever appends. */
  lemma {:induction false} BatchLayout(w: Writer, items: seq<Item>)
    requires Fits32(w) && LayoutOk(w)
    ensures LayoutOk(PutAll(w, items))
    ensures Extends(w, PutAll(w, items))
    decreases |items|
  {
    if items != [] {
      var v := Put(w, items[0]);
      PutExtends(w, items[0]);
      BatchLayout(v, items[1..]);
      ExtendsTrans(w, v, PutAll(v, items[1..]));
    }
  }

  // ---------- capacity ----------

  function Size(item: Item): (n: nat) {
    match item
    case U32(_) => 4
    case Str(s) => if |s| >= MAX_CHARS then 4 else 4 + Align4(2 * (|s| + 1))
    case NoStr => 4
    case Ref(_) => OBJ_SIZE
    case Obj(_) => OBJ_SIZE
  }

  /** Does the item need an entry in the offset table? */
  predicate Recorded(item: Item) { item.Obj? || (item.Ref? && item.handle != 0) }

  function TotalSize(items: seq<Item>): (n: nat) {
    if items == [] then 0 else Size(items[0]) + TotalSize(items[1..])
  }

  function RecordedCount(items: seq<Item>): (n: nat) {
    if items == [] then 0 else (if Recorded(items[0]) then 1 else 0) + RecordedCount(items[1..])
  }

  lemma EmitCapacity(w: Writer, b: seq<byte>)
    requires |b| < 0x8000_0000 && !w.overflow
    ensures var v := Emit(w, b);
      && (!v.overflow <==> Align4(|b|) <= |w.room|)
      && (!v.overflow ==> |v.room| == |w.room| - Align4(|b|) && v.offsRoom == w.offsRoom)
  {
    hide Align4;
  }

  lemma PutCapacity(w: Writer, item: Item)
    requires Fits32(w) && !w.overflow
    ensures var v := Put(w, item); var need := if Recorded(item) then 1 else 0;
      && (!v.overflow <==> Size(item) <= |w.room| && need <= w.offsRoom)
      && (!v.overflow ==> |v.room| == |w.room| - Size(item) && v.offsRoom == w.offsRoom - need)
  {
    hide Emit, U32Bytes, ObjBytes, CharBytes;
    match item
    case U32(n) => EmitCapacity(w, U32Bytes(n));
    case NoStr => EmitCapacity(w, U32Bytes(NULL_STRING));
    case Str(s) =>
      if |s| >= MAX_CHARS {
        EmitCapacity(w, U32Bytes(NULL_STRING));
      } else {
        EmitCapacity(w, U32Bytes(|s|));
        StringCapacity(w, s);
      }
    case Ref(h) => EmitCapacity(w, ObjBytes(BINDER_TYPE_HANDLE, h));
    case Obj(p) => EmitCapacity(w, ObjBytes(BINDER_TYPE_BINDER, p));
  }

  lemma StringCapacity(w: Writer, s: seq<u16>)
    requires |s| < MAX_CHARS && !w.overflow
    ensures var v := PutString16(w, s); var n := 4 + Align4(2 * (|s| + 1));
      && (!v.overflow <==> n <= |w.room|)
      && (!v.overflow ==> |v.room| == |w.room| - n && v.offsRoom == w.offsRoom)
  {
    EmitCapacity(w, U32Bytes(|s|));
    var u := PutU32(w, |s|);
    hide Align4, U32Bytes, CharBytes;
    if !u.overflow {
      EmitCapacity(u, CharBytes(s + [0]));
    }
  }

  /** A batch overflows exactly when its sizes or its objects exceed what is left. */
  lemma {:induction false} BatchCapacity(w: Writer, items: seq<Item>)
    requires Fits32(w) && !w.overflow
    ensures !PutAll(w, items).overflow <==>
      TotalSize(items) <= |w.room| && RecordedCount(items) <= w.offsRoom
    decreases |items|
  {
    if items != [] {
      var v := Put(w, items[0]);
      PutExtends(w, items[0]);
      PutCapacity(w, items[0]);
      if v.overflow {
        OverflowIsSticky(v, items[1..]);
      } else {
        BatchCapacity(v, items[1..]);
      }
    }
  }

  lemma {:induction false} OverflowIsSticky(w: Writer, items: seq<Item>)
    requires Fits32(w) && w.overflow
    ensures PutAll(w, items).overflow
    decreases |items|
  {
    if items != [] {
      PutExtends(w, items[0]);
      OverflowIsSticky(Put(w, items[0]), items[1..]);
    }
  }

  /** The exact capacity of a buffer prepared by bio_init. */
  lemma InitCapacity(buffer: seq<byte>, maxoffs: nat, items: seq<Item>)
    requires 4 * maxoffs <= |buffer| < WORD
    ensures !PutAll(Init(buffer, maxoffs), items).overflow <==>
      TotalSize(items) <= |buffer| - 4 * maxoffs && RecordedCount(items) <= maxoffs
  {
    BatchCapacity(Init(buffer, maxoffs), items);
  }

  // ---------- round trip ----------

  /** What a getter returns. */
  datatype Value = Num(n: u32) | Txt(text: Text) | RefTo(handle: u32)

  /** The getter that matches a put. */
  function Read(r: Reader, like: Item): (v: (Reader, Value)) {
    match like
    case U32(_) => var (r1, n) := GetU32(r); (r1, Num(n))
    case Str(_) => var (r1, t) := GetString16(r); (r1, Txt(t))
    case NoStr => var (r1, t) := GetString16(r); (r1, Txt(t))
    case Ref(_) => var (r1, h) := GetRef(r); (r1, RefTo(h))
    case Obj(_) => var (r1, h) := GetRef(r); (r1, RefTo(h))
  }

  function ReadAll(r: Reader, items: seq<Item>): (v: (Reader, seq<Value>))
    decreases |items|
  {
    if items == [] then (r, [])
    else
      var (r1, v) := Read(r, items[0]);
      var (r2, vs) := ReadAll(r1, items[1..]);
      (r2, [v] + vs)
  }

  /** A string comes back with its length and terminator; a binder that was not translated reads as handle 0. */
  function Expected(item: Item): (r: Value) {
    match item
    case U32(n) => Num(n)
    case Str(s) => Txt(ExpectedText(s))
    case NoStr => Txt(Text(NULL_STRING, Some([])))
    case Ref(h) => RefTo(h)
    case Obj(_) => RefTo(0)
  }

  function ExpectedText(s: seq<u16>): (r: Text) {
    if |s| >= MAX_CHARS then Text(NULL_STRING, Some([])) else Text(|s|, Some(s + [0]))
  }

  function ExpectedAll(items: seq<Item>): (s: seq<Value>) {
    if items == [] then [] else [Expected(items[0])] + ExpectedAll(items[1..])
  }

  /** A reader of message `f` whose cursor stands at `pos`. */
  function At(f: Writer, pos: nat): (r: Reader)
    requires pos <= |f.data|
  {
    Reader(f.data[pos..], pos, f.offs, false)
  }

  lemma GetU32Stored(r: Reader, n: u32)
    requires U32Bytes(n) <= r.rest
    ensures GetU32(r) == (r.(rest := r.rest[4..], pos := r.pos + 4), n)
  {
  }

  /** The text of an encoded string, whatever its padding. */
  lemma GetStringStored(r: Reader, s: seq<u16>)
    requires |s| < MAX_CHARS
    requires |r.rest| >= 4 + Align4(2 * (|s| + 1))
    requires U32Bytes(|s|) <= r.rest && CharBytes(s + [0]) <= r.rest[4..]
    ensures var n := Align4(2 * (|s| + 1));
      GetString16(r) == (r.(rest := r.rest[4 + n..], pos := r.pos + 4 + n), Text(|s|, Some(s + [0])))
  {
    GetU32Stored(r, |s|);
    var str := s + [0];
    var size := 2 * |str|;
    assert (|s| + 1) * 2 % WORD == size;
    var slice := r.rest[4..][..Align4(size)];
    assert Min(size, |slice|) / 2 == |str|;
    assert slice[0..size] == CharBytes(str);
    CharsStored(slice, 0, str);
    assert r.rest[4..][Align4(size)..] == r.rest[4 + Align4(size)..];
  }

  /** One put, then the rest of the batch: the matching getter at its start returns it and stops at its end. */
  lemma ReadOne(w: Writer, item: Item, f: Writer)
    requires Fits32(w) && item != Ref(0)
    requires !Put(w, item).overflow && Extends(Put(w, item), f)
    ensures Read(At(f, |w.data|), item) == (At(f, |Put(w, item).data|), Expected(item))
  {
    match item
    case U32(n) => ReadWord(w, n, f);
    case NoStr => ReadNull(w, f);
    case Str(s) => if |s| >= MAX_CHARS { ReadNull(w, f); } else { ReadStored(w, s, f); }
    case Ref(h) => ReadObject(w, BINDER_TYPE_HANDLE, h, f);
    case Obj(p) => ReadObject(w, BINDER_TYPE_BINDER, p, f);
  }

  lemma ReadWord(w: Writer, n: u32, f: Writer)
    requires !PutU32(w, n).overflow && PutU32(w, n).data <= f.data
    ensures |PutU32(w, n).data| == |w.data| + 4 <= |f.data|
    ensures GetU32(At(f, |w.data|)) == (At(f, |PutU32(w, n).data|), n)
  {
  }

  lemma ReadNull(w: Writer, f: Writer)
    requires !PutU32(w, NULL_STRING).overflow && PutU32(w, NULL_STRING).data <= f.data
    ensures |PutU32(w, NULL_STRING).data| == |w.data| + 4 <= |f.data|
    ensures GetString16(At(f, |w.data|)) == (At(f, |PutU32(w, NULL_STRING).data|), Text(NULL_STRING, Some([])))
  {
    ReadWord(w, NULL_STRING, f);
    var r := At(f, |w.data| + 4);
    assert r.rest[0..] == r.rest;
  }

  lemma EmittedBytes(w: Writer, b: seq<byte>, f: Writer)
    requires |b| < 0x8000_0000 && !Emit(w, b).overflow && Emit(w, b).data <= f.data
    ensures w.data + b <= f.data && b <= f.data[|w.data|..]
    ensures |Emit(w, b).data| == |w.data| + Align4(|b|)
  {
  }

  lemma ReadStored(w: Writer, s: seq<u16>, f: Writer)
    requires Fits32(w) && |s| < MAX_CHARS && !PutString16(w, s).overflow && PutString16(w, s).data <= f.data
    ensures |PutString16(w, s).data| == |w.data| + 4 + Align4(2 * (|s| + 1)) <= |f.data|
    ensures GetString16(At(f, |w.data|)) == (At(f, |PutString16(w, s).data|), Text(|s|, Some(s + [0])))
  {
    var u := PutU32(w, |s|);
    var b := CharBytes(s + [0]);
    EmittedBytes(u, b, f);
    EmittedBytes(w, U32Bytes(|s|), f);
    var r := At(f, |w.data|);
    assert r.rest[4..] == f.data[|u.data|..];
    GetStringStored(r, s);
    assert r.rest[4 + Align4(|b|)..] == f.data[|w.data| + 4 + Align4(|b|)..];
  }

  lemma ReadObject(w: Writer, kind: u32, value: u32, f: Writer)
    requires Fits32(w) && Extends(EmitObj(w, ObjBytes(kind, value)), f)
    requires !EmitObj(w, ObjBytes(kind, value)).overflow
    ensures |EmitObj(w, ObjBytes(kind, value)).data| == |w.data| + OBJ_SIZE <= |f.data|
    ensures GetRef(At(f, |w.data|))
         == (At(f, |w.data| + OBJ_SIZE), if kind == BINDER_TYPE_HANDLE then value else 0)
  {
    var b := ObjBytes(kind, value);
    EmittedBytes(w, b, f);
    assert f.offs[|w.offs|] == EmitObj(w, b).offs[|w.offs|] == |w.data|;
    ObjectRead(At(f, |w.data|), kind, value);
    assert f.data[|w.data|..][OBJ_SIZE..] == f.data[|w.data| + OBJ_SIZE..];
  }

  lemma ObjectRead(r: Reader, kind: u32, value: u32)
    requires ObjBytes(kind, value) <= r.rest && r.pos in r.offs
    ensures GetRef(r) == (r.(rest := r.rest[OBJ_SIZE..], pos := r.pos + OBJ_SIZE),
                          if kind == BINDER_TYPE_HANDLE then value else 0)
  {
  }

  /** A null reference takes no table entry, so no getter of objects ever accepts it. */
  lemma NullRefUnreadable(w: Writer, f: Writer)
    requires Fits32(w) && LayoutOk(w) && !w.overflow && !PutRef(w, 0).overflow
    requires Extends(PutRef(w, 0), f)
    ensures GetRef(At(f, |w.data|)) == (Fail(At(f, |w.data|)), 0)
  {
  }

  /** No null reference is among them. */
  predicate Readable(items: seq<Item>) { forall i | 0 <= i < |items| :: items[i] != Ref(0) }

  lemma ReadableCons(items: seq<Item>)
    requires items != []
    ensures Readable(items) <==> items[0] != Ref(0) && Readable(items[1..])
  {
    if i :| 0 < i < |items| && items[i] == Ref(0) {
      assert items[1..][i - 1] == Ref(0);
    }
  }

  /** Reading back a batch from the middle: every value in order, all bytes consumed, no failure; else a failure. */
  lemma {:induction false} ReadBack(w: Writer, items: seq<Item>)
    requires Fits32(w) && LayoutOk(w) && !w.overflow && !PutAll(w, items).overflow
    ensures var f := PutAll(w, items); Extends(w, f)
    ensures var f := PutAll(w, items);
      if Readable(items) then ReadAll(At(f, |w.data|), items) == (At(f, |f.data|), ExpectedAll(items))
      else ReadAll(At(f, |w.data|), items).0.overflow
    decreases |items|
  {
    hide LayoutOk, Expected, GetString16, GetU32;
    var f := PutAll(w, items);
    BatchLayout(w, items);
    if items != [] {
      hide Readable;
      var v := Put(w, items[0]);
      PutExtends(w, items[0]);
      if v.overflow { OverflowIsSticky(v, items[1..]); }
      BatchLayout(v, items[1..]);
      ReadableCons(items);
      if items[0] == Ref(0) {
        NullRefUnreadable(w, f);
        FailureIsSticky(Read(At(f, |w.data|), items[0]).0, items[1..]);
      } else {
        ReadOne(w, items[0], f);
        ReadBack(v, items[1..]);
      }
    }
  }

  /** The whole round trip from a clean buffer: it succeeds exactly for batches without a null reference. */
  lemma RoundTrip(buffer: seq<byte>, maxoffs: nat, items: seq<Item>)
    requires 4 * maxoffs <= |buffer| < WORD
    requires !PutAll(Init(buffer, maxoffs), items).overflow
    ensures var f := PutAll(Init(buffer, maxoffs), items);
      var (r, values) := ReadAll(Reader(f.data, 0, f.offs, false), items);
      && (!r.overflow <==> Readable(items))
      && (!r.overflow ==> values == ExpectedAll(items) && r.rest == [] && r.pos == |f.data|)
  {
    var w := Init(buffer, maxoffs);
    ReadBack(w, items);
    var f := PutAll(w, items);
    assert f.data[0..] == f.data;
  }

  // ---------- containment ----------

  /** A reader of `message`: until it fails it stands at `pos` and has the rest before it; then nothing is left. */
  ghost predicate Contained(r: Reader, message: seq<byte>) {
    r.pos <= |message| && (if r.overflow then r.rest == [] else r.rest == message[r.pos..])
  }

  /** The characters behind a returned pointer lie inside the message, between the two cursors. */
  ghost predicate Inside(v: Value, message: seq<byte>, from: nat, to: nat)
    requires from <= to <= |message|
  {
    v.Txt? && v.text.chars.Some? ==>
      var n := |v.text.chars.value|;
      from + 4 + 2 * n <= to && v.text.chars.value == Chars(message, from + 4, n)
  }

  ghost predicate SliceOf(v: Value, message: seq<byte>) {
    v.Txt? && v.text.chars.Some? ==>
      exists i: nat :: i + 2 * |v.text.chars.value| <= |message|
                    && v.text.chars.value == Chars(message, i, |v.text.chars.value|)
  }

  lemma GetContained(r: Reader, size: u32, message: seq<byte>)
    requires Contained(r, message) && !r.overflow
    ensures var (r', b) := Get(r, size);
      && Contained(r', message)
      && if b.None? then r'.overflow && r'.pos == r.pos
         else r'.pos == r.pos + Align4(size) && !r'.overflow && b.value == message[r.pos..r'.pos]
  {
  }

  /** One get on arbitrary bytes: it stays inside the message, and a failure returns 0 or NULL and moves nothing. */
  lemma ReadContained(r: Reader, like: Item, message: seq<byte>)
    requires Contained(r, message)
    ensures var (r', v) := Read(r, like);
      && Contained(r', message)
      && r.pos <= r'.pos && (r'.pos == r.pos || !r.overflow)
      && Inside(v, message, r.pos, r'.pos)
      && (r.overflow ==> r' == r && IsZero(v))
  {
    if !r.overflow {
      GetContained(r, 4, message);
      GetContained(r, OBJ_SIZE, message);
      if like.Str? || like.NoStr? {
        TextContained(r, message);
      }
    }
  }

  lemma BodyContained(r: Reader, size: u32, message: seq<byte>)
    requires Contained(r, message) && !r.overflow
    ensures var (r', chars) := GetChars(r, size);
      && Contained(r', message) && r.pos <= r'.pos
      && (chars.Some? ==> var n := |chars.value|;
          r.pos + 2 * n <= r'.pos && chars.value == Chars(message, r.pos, n))
  {
  }

  lemma TextContained(r: Reader, message: seq<byte>)
    requires Contained(r, message) && !r.overflow
    ensures var (r', t) := GetString16(r);
      Contained(r', message) && r.pos <= r'.pos && Inside(Txt(t), message, r.pos, r'.pos)
  {
    GetContained(r, 4, message);
    var (r1, len) := GetU32(r);
    if !r1.overflow {
      assert r1.pos == r.pos + 4;
      BodyContained(r1, (len + 1) * 2 % WORD, message);
      hide GetChars, Chars, GetU32;
    }
  }

  predicate IsZero(v: Value) { v == Num(0) || v == RefTo(0) || v == Txt(Text(0, None)) }

  /** Once a get has failed, every later one fails, and leaves the cursor where it was. */
  lemma {:induction false} FailureIsSticky(r: Reader, items: seq<Item>)
    requires r.overflow && r.rest == []
    ensures var (r', values) := ReadAll(r, items);
      r' == r && forall i | 0 <= i < |values| :: IsZero(values[i])
    decreases |items|
  {
    if items != [] {
      FailureIsSticky(r, items[1..]);
    }
  }

  /** Any sequence of gets on any message: the cursor stays inside it, and so does every returned slice. */
  lemma {:induction false} GetsContained(r: Reader, items: seq<Item>, message: seq<byte>)
    requires Contained(r, message)
    ensures var (r', values) := ReadAll(r, items);
      && Contained(r', message)
      && r.pos <= r'.pos
      && |values| == |items|
      && (forall i | 0 <= i < |values| :: SliceOf(values[i], message))
    decreases |items|
  {
    if items != [] {
      ReadContained(r, items[0], message);
      GetsContained(Read(r, items[0]).0, items[1..], message);
    }
  }
}
