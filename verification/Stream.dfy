/** The driver's command stream: 32-bit words, read by binder_parse. */
module Stream {
  import opened Bytes

  /** The code of a command without an argument in the ioctl group 'r'. */
  function Io(nr: nat): (code: u32)
    requires nr < 0x100
  {
    0x7200 + nr
  }

  /** The code of a command that reads `size` bytes. */
  function Ior(nr: nat, size: nat): (code: u32)
    requires nr < 0x100 && size < 0x4000
  {
    0x8000_0000 + 0x1_0000 * size + 0x7200 + nr
  }

  const TXN_WORDS := 10
  const BR_TRANSACTION := Ior(2, 40)
  const BR_REPLY := Ior(3, 40)
  const BR_DEAD_REPLY := Io(5)
  const BR_TRANSACTION_COMPLETE := Io(6)
  const BR_INCREFS := Ior(7, 8)
  const BR_ACQUIRE := Ior(8, 8)
  const BR_RELEASE := Ior(9, 8)
  const BR_DECREFS := Ior(10, 8)
  const BR_NOOP := Io(12)
  const BR_SPAWN_LOOPER := Io(13)
  const BR_DEAD_BINDER := Ior(15, 4)
  const BR_FAILED_REPLY := Io(17)

  /** struct binder_transaction_data, word by word; buffer and offsets are relative to the mapping. */
  datatype Txn = Txn(target: u32, cookie: u32, code: u32, flags: u32, senderPid: u32, senderEuid: u32,
                     dataSize: u32, offsetsSize: u32, buffer: u32, offsets: u32)

  datatype RefOp = IncRefs | AcquireRef | ReleaseRef | DecRefs

  datatype Cmd =
    | Noop
    | TransactionComplete
    | Refs(op: RefOp, ptr: u32, cookie: u32)
    | SpawnLooper
    | Transaction(txn: Txn)
    | Reply(txn: Txn)
    | DeadBinder(cookie: u32)
    | FailedReply
    | DeadReply

  /**
   Where a stream stops: at its end, inside a transaction or reply payload, at an unknown command,
   or at a BR_DEAD_BINDER whose cookie is missing.
   */
  datatype End = Finished | Short | Unknown | Dangling

  datatype Decoded = Decoded(cmds: seq<Cmd>, end: End)

  function TxnWords(t: Txn): (ws: seq<u32>)
    ensures |ws| == TXN_WORDS
  {
    [t.target, t.cookie, t.code, t.flags, t.senderPid, t.senderEuid, t.dataSize, t.offsetsSize, t.buffer, t.offsets]
  }

  function TxnAt(ws: seq<u32>): (r: Txn)
    requires |ws| >= TXN_WORDS
  {
    Txn(ws[0], ws[1], ws[2], ws[3], ws[4], ws[5], ws[6], ws[7], ws[8], ws[9])
  }

  function OpWord(op: RefOp): (n: u32) {
    match op
    case IncRefs => BR_INCREFS
    case AcquireRef => BR_ACQUIRE
    case ReleaseRef => BR_RELEASE
    case DecRefs => BR_DECREFS
  }

  function CmdWords(c: Cmd): (ws: seq<u32>)
    ensures |ws| > 0
  {
    match c
    case Noop => [BR_NOOP]
    case TransactionComplete => [BR_TRANSACTION_COMPLETE]
    case Refs(op, ptr, cookie) => [OpWord(op), ptr, cookie]
    case SpawnLooper => [BR_SPAWN_LOOPER]
    case Transaction(t) => [BR_TRANSACTION] + TxnWords(t)
    case Reply(t) => [BR_REPLY] + TxnWords(t)
    case DeadBinder(cookie) => [BR_DEAD_BINDER, cookie]
    case FailedReply => [BR_FAILED_REPLY]
    case DeadReply => [BR_DEAD_REPLY]
  }

  function Encode(cmds: seq<Cmd>): (s: seq<u32>) {
    if cmds == [] then [] else CmdWords(cmds[0]) + Encode(cmds[1..])
  }

  /** What one command word and what follows it amount to: a command and its size, or the end. */
  datatype Head = Head(cmd: Cmd, size: nat) | Stop(end: End)

  function RefHead(op: RefOp, ws: seq<u32>): (r: Head)
    requires ws != []
  {
    if |ws| >= 3 then Head(Refs(op, ws[1], ws[2]), 3) else Stop(Finished)
  }

  function DecodeHead(ws: seq<u32>): (h: Head)
    requires ws != []
    ensures h.Head? ==> 0 < h.size <= |ws|
  {
    var w := ws[0];
    if w == BR_NOOP then Head(Noop, 1)
    else if w == BR_TRANSACTION_COMPLETE then Head(TransactionComplete, 1)
    else if w == BR_INCREFS then RefHead(IncRefs, ws)
    else if w == BR_ACQUIRE then RefHead(AcquireRef, ws)
    else if w == BR_RELEASE then RefHead(ReleaseRef, ws)
    else if w == BR_DECREFS then RefHead(DecRefs, ws)
    else if w == BR_SPAWN_LOOPER then Head(SpawnLooper, 1)
    else if w == BR_TRANSACTION then
      if |ws| - 1 < TXN_WORDS then Stop(Short) else Head(Transaction(TxnAt(ws[1..])), 1 + TXN_WORDS)
    else if w == BR_REPLY then
      if |ws| - 1 < TXN_WORDS then Stop(Short) else Head(Reply(TxnAt(ws[1..])), 1 + TXN_WORDS)
    else if w == BR_DEAD_BINDER then
      if |ws| < 2 then Stop(Dangling) else Head(DeadBinder(ws[1]), 2)
    else if w == BR_FAILED_REPLY then Head(FailedReply, 1)
    else if w == BR_DEAD_REPLY then Head(DeadReply, 1)
    else Stop(Unknown)
  }

  /** The commands of a stream up to where it stops. */
  function Decode(ws: seq<u32>): (r: Decoded)
    decreases |ws|
  {
    if ws == [] then Decoded([], Finished)
    else
      var h := DecodeHead(ws);
      if h.Stop? then Decoded([], h.end)
      else
        var rest := Decode(ws[h.size..]);
        Decoded([h.cmd] + rest.cmds, rest.end)
  }

  lemma TxnRoundTrip(t: Txn, tail: seq<u32>)
    ensures TxnAt(TxnWords(t) + tail) == t
  {
  }

  lemma HeadOfTxn(w: u32, t: Txn, tail: seq<u32>)
    ensures var ws := [w] + TxnWords(t) + tail; ws[0] == w && |ws| > TXN_WORDS && TxnAt(ws[1..]) == t
  {
    hide TxnWords, TxnAt;
    assert ([w] + TxnWords(t) + tail)[1..] == TxnWords(t) + tail;
    TxnRoundTrip(t, tail);
  }

  lemma HeadOfCmd(c: Cmd, tail: seq<u32>)
    ensures DecodeHead(CmdWords(c) + tail) == Head(c, |CmdWords(c)|)
  {
    hide TxnWords, TxnAt;
    match c
    case Transaction(t) => HeadOfTxn(BR_TRANSACTION, t, tail);
    case Reply(t) => HeadOfTxn(BR_REPLY, t, tail);
    case _ =>
  }

  lemma DecodeCmd(c: Cmd, tail: seq<u32>)
    ensures Decode(CmdWords(c) + tail) == Decoded([c] + Decode(tail).cmds, Decode(tail).end)
  {
    HeadOfCmd(c, tail);
    hide DecodeHead, CmdWords;
    assert (CmdWords(c) + tail)[|CmdWords(c)|..] == tail;
    assert CmdWords(c) + tail != [];
  }

  /** Decoding an encoded list followed by anything gives the list, then whatever the rest decodes to. */
  lemma {:induction false} DecodeEncode(cmds: seq<Cmd>, tail: seq<u32>)
    ensures Decode(Encode(cmds) + tail) == Decoded(cmds + Decode(tail).cmds, Decode(tail).end)
  {
    hide DecodeHead, CmdWords;
    var d := Decode(tail).cmds;
    if cmds == [] {
      assert Encode(cmds) + tail == tail;
      assert cmds + d == d;
    } else {
      var rest := Encode(cmds[1..]) + tail;
      assert Encode(cmds) + tail == CmdWords(cmds[0]) + rest;
      DecodeCmd(cmds[0], rest);
      DecodeEncode(cmds[1..], tail);
      assert [cmds[0]] + (cmds[1..] + d) == cmds + d;
    }
  }

  /** A transaction or reply whose payload is cut off. */
  lemma CutIsShort(c: Cmd, n: nat)
    requires (c.Transaction? || c.Reply?) && n < TXN_WORDS
    ensures Decode(CmdWords(c)[..1 + n]) == Decoded([], Short)
  {
  }

  /** A reference command without its two words, or a death notice without its cookie. */
  lemma CutRefs(op: RefOp, args: seq<u32>)
    requires |args| < 2
    ensures Decode([OpWord(op)] + args) == Decoded([], Finished)
    ensures Decode([BR_DEAD_BINDER]) == Decoded([], Dangling)
  {
  }

  /**
   A whole stream decodes to its commands; a cut payload, or an unknown word, stops right after them; a cut
   reference command is skipped as if it were whole.
   */
  lemma StreamEnds(cmds: seq<Cmd>, cut: seq<u32>, c: Cmd, n: nat, op: RefOp, args: seq<u32>)
    requires (c.Transaction? || c.Reply?) && n < TXN_WORDS && |args| < 2
    ensures Decode(Encode(cmds)) == Decoded(cmds, Finished)
    ensures Decode(Encode(cmds) + CmdWords(c)[..1 + n]) == Decoded(cmds, Short)
    ensures Decode(Encode(cmds) + ([OpWord(op)] + args)) == Decoded(cmds, Finished)
    ensures Decode(Encode(cmds) + [BR_DEAD_BINDER]) == Decoded(cmds, Dangling)
    ensures cut != [] && DecodeHead(cut) == Stop(Unknown) ==>
      Decode(Encode(cmds) + cut) == Decoded(cmds, Unknown)
  {
    assert Encode(cmds) + [] == Encode(cmds) && cmds + [] == cmds;
    CutIsShort(c, n);
    CutRefs(op, args);
    hide DecodeHead, CmdWords, Encode, OpWord;
    DecodeEncode(cmds, []);
    DecodeEncode(cmds, CmdWords(c)[..1 + n]);
    DecodeEncode(cmds, [OpWord(op)] + args);
    DecodeEncode(cmds, [BR_DEAD_BINDER]);
    DecodeEncode(cmds, cut);
  }

  /** A word that no command of the driver's has. */
  lemma UnknownWords(w: u32, rest: seq<u32>)
    ensures DecodeHead([w] + rest) == Stop(Unknown) <==> w !in {
      0x8028_7202, 0x8028_7203, 0x7205, 0x7206, 0x8008_7207, 0x8008_7208, 0x8008_7209, 0x8008_720a, 0x720c, 0x720d,
      0x8004_720f, 0x7211}
  {
  }

  // ---------- what binder_parse returns ----------

  predicate IsStatus(c: Cmd) { c.Reply? || c.FailedReply? || c.DeadReply? }

  /** The status after these commands: 0 for a reply, -1 for a failed or dead one; otherwise it stays. */
  function StatusFrom(r: int, cmds: seq<Cmd>): (n: int)
    decreases |cmds|
  {
    if cmds == [] then r else StatusFrom(StatusAfter(r, cmds[0]), cmds[1..])
  }

  function StatusAfter(r: int, c: Cmd): (n: int) {
    if c.Reply? then 0 else if c.FailedReply? || c.DeadReply? then -1 else r
  }

  /** What binder_parse returns on this stream. */
  function ParseResult(words: seq<u32>): (n: int) {
    var d := Decode(words);
    if d.end == Finished then StatusFrom(1, d.cmds) else -1
  }

  /** The last status command of the stream decides; without one nothing changes. */
  lemma {:induction false} LastStatusDecides(r: int, cmds: seq<Cmd>, last: int)
    requires -1 <= last < |cmds|
    requires last >= 0 ==> IsStatus(cmds[last])
    requires forall j | last < j < |cmds| :: !IsStatus(cmds[j])
    ensures StatusFrom(r, cmds) == if last < 0 then r else if cmds[last].Reply? then 0 else -1
    decreases |cmds|
  {
    if cmds != [] {
      LastStatusDecides(StatusAfter(r, cmds[0]), cmds[1..], if last < 0 then -1 else last - 1);
    }
  }

  /** The stream leaves a call undecided: it is whole, and has no status. */
  predicate Undecided(words: seq<u32>) {
    Decode(words).end == Finished && forall i | 0 <= i < |Decode(words).cmds| :: !IsStatus(Decode(words).cmds[i])
  }

  /** The last status among the commands is a reply. */
  predicate EndsInReply(cmds: seq<Cmd>) {
    exists i | 0 <= i < |cmds| && cmds[i].Reply? :: forall j | i < j < |cmds| :: !IsStatus(cmds[j])
  }

  /** The position of the last status; -1 without any. */
  function LastStatus(cmds: seq<Cmd>): (last: int)
    ensures -1 <= last < |cmds| && (last >= 0 ==> IsStatus(cmds[last]))
    ensures forall j | last < j < |cmds| :: !IsStatus(cmds[j])
  {
    if cmds == [] then -1
    else
      var n := |cmds| - 1;
      if IsStatus(cmds[n]) then n else LastStatus(cmds[..n])
  }

  /** What binder_parse returns on a stream, told from its commands. */
  lemma ResultOfStream(words: seq<u32>)
    ensures var replied := Decode(words).end == Finished && EndsInReply(Decode(words).cmds);
      ParseResult(words) == if Undecided(words) then 1 else if replied then 0 else -1
    ensures Undecided(words) ==> !EndsInReply(Decode(words).cmds)
  {
    var cmds := Decode(words).cmds;
    hide Decode;
    LastStatusDecides(1, cmds, LastStatus(cmds));
  }

  /** The reply that fills the caller's binder_io. */
  function FirstReply(cmds: seq<Cmd>): (t: Option<Txn>) {
    if cmds == [] then None else if cmds[0].Reply? then Some(cmds[0].txn) else FirstReply(cmds[1..])
  }

  lemma {:induction false} FirstReplyIsFirst(cmds: seq<Cmd>)
    ensures var t := FirstReply(cmds);
      if t.None? then forall i | 0 <= i < |cmds| :: !cmds[i].Reply?
      else exists i | 0 <= i < |cmds| && cmds[i] == Reply(t.value) :: forall j | 0 <= j < i :: !cmds[j].Reply?
  {
    if cmds != [] && !cmds[0].Reply? {
      FirstReplyIsFirst(cmds[1..]);
      var t := FirstReply(cmds);
      if t.Some? {
        var i :| 0 <= i < |cmds| - 1 && cmds[1..][i] == Reply(t.value) && forall j | 0 <= j < i :: !cmds[1..][j].Reply?;
        assert cmds[i + 1] == Reply(t.value);
        assert forall j | 0 < j < i + 1 :: cmds[j] == cmds[1..][j - 1];
      }
    }
  }
}
