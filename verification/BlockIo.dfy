/** Requests on a RAM disk, segment by segment, and the flat store they amount to. */
module BlockIo {
  import opened Bytes

  const SECTOR := 512
  const EIO := 5

  /** A request: the start sector, the direction, and the contents of its segments. */
  datatype Io = Io(sector: nat, write: bool, bufs: seq<seq<byte>>)

  function Start(r: Io): (n: nat) { r.sector * SECTOR }

  function Flatten(bufs: seq<seq<byte>>): (s: seq<byte>) {
    if bufs == [] then [] else bufs[0] + Flatten(bufs[1..])
  }

  function Size(bufs: seq<seq<byte>>): (n: nat) { |Flatten(bufs)| }

  predicate InRange(r: Io, size: nat) { Start(r) + Size(r.bufs) <= size }

  predicate AllInRange(rs: seq<Io>, size: nat) {
    forall i | 0 <= i < |rs| :: InRange(rs[i], size)
  }

  /** memcpy of one segment, and what the segment holds afterwards. */
  function CopySegment(d: seq<byte>, pos: nat, buf: seq<byte>, write: bool): (r: (seq<byte>, seq<byte>))
    requires pos + |buf| <= |d|
    ensures |r.0| == |d| && |r.1| == |buf|
  {
    if write then (Splice(d, pos, buf), buf) else (d, d[pos..pos + |buf|])
  }

  /** The segments one after the other, with a moving position. */
  function Transfer(d: seq<byte>, pos: nat, bufs: seq<seq<byte>>, write: bool): (r: (seq<byte>, seq<seq<byte>>))
    requires pos + Size(bufs) <= |d|
    ensures |r.0| == |d| && |r.1| == |bufs|
    decreases |bufs|
  {
    if bufs == [] then (d, [])
    else
      var (d1, b1) := CopySegment(d, pos, bufs[0], write);
      var (d2, bs) := Transfer(d1, pos + |bufs[0]|, bufs[1..], write);
      (d2, [b1] + bs)
  }

  /** One request after the other. */
  function RunQueue(d: seq<byte>, rs: seq<Io>): (x: (seq<byte>, seq<seq<seq<byte>>>))
    requires AllInRange(rs, |d|)
    ensures |x.0| == |d| && |x.1| == |rs|
    decreases |rs|
  {
    if rs == [] then (d, [])
    else
      assert InRange(rs[0], |d|);
      var (d1, b) := Transfer(d, Start(rs[0]), rs[0].bufs, rs[0].write);
      var (d2, bs) := RunQueue(d1, rs[1..]);
      (d2, [b] + bs)
  }

  // ---------- the flat store ----------

  /** However it is split, a write stores its bytes at its place, and a read delivers the bytes from there. */
  lemma {:induction false} TransferIsFlat(d: seq<byte>, pos: nat, bufs: seq<seq<byte>>, write: bool)
    requires pos + Size(bufs) <= |d|
    ensures var (d', bufs') := Transfer(d, pos, bufs, write);
      if write then d' == Splice(d, pos, Flatten(bufs)) && bufs' == bufs
      else d' == d && Flatten(bufs') == d[pos..pos + Size(bufs)]
    decreases |bufs|
  {
    if bufs != [] {
      var n := |bufs[0]|;
      var (d1, b1) := CopySegment(d, pos, bufs[0], write);
      TransferIsFlat(d1, pos + n, bufs[1..], write);
      if write {
        SpliceTwice(d, pos, bufs[0], Flatten(bufs[1..]));
      } else {
        var bs := Transfer(d, pos + n, bufs[1..], write).1;
        assert ([b1] + bs)[1..] == bs;
        assert d[pos..pos + n] + d[pos + n..pos + Size(bufs)] == d[pos..pos + Size(bufs)];
      }
    }
  }

  predicate Covers(r: Io, b: nat) { r.write && Start(r) <= b < Start(r) + Size(r.bufs) }

  /** The byte that the last write covering `b` put there; the initial one if there was none. */
  function LastWritten(d: seq<byte>, rs: seq<Io>, b: nat): (r: byte)
    requires b < |d|
  {
    if rs == [] then d[b]
    else
      var r := rs[|rs| - 1];
      if Covers(r, b) then Flatten(r.bufs)[b - Start(r)] else LastWritten(d, rs[..|rs| - 1], b)
  }

  lemma {:induction false} RunQueueSnoc(d: seq<byte>, rs: seq<Io>, r: Io)
    requires AllInRange(rs, |d|)
    requires InRange(r, |d|)
    ensures AllInRange(rs + [r], |d|)
    ensures var (d1, bs) := RunQueue(d, rs);
      var (d2, b) := Transfer(d1, Start(r), r.bufs, r.write);
      RunQueue(d, rs + [r]) == (d2, bs + [b])
    decreases |rs|
  {
    hide Transfer;
    if rs == [] {
      var (d2, b) := Transfer(d, Start(r), r.bufs, r.write);
      assert rs + [r] == [r] && [r][1..] == [];
      assert RunQueue(d, rs) == (d, []) && RunQueue(d2, []) == (d2, []);
      assert [] + [b] == [b] == [b] + [];
    } else {
      assert InRange(rs[0], |d|);
      var (d1, b1) := Transfer(d, Start(rs[0]), rs[0].bufs, rs[0].write);
      assert (rs + [r])[1..] == rs[1..] + [r];
      RunQueueSnoc(d1, rs[1..], r);
      var (d2, bs) := RunQueue(d1, rs[1..]);
      var (d3, b) := Transfer(d2, Start(r), r.bufs, r.write);
      assert [b1] + (bs + [b]) == ([b1] + bs) + [b];
    }
  }

  /** Over any run of requests every byte of the disk is the last one written to it. */
  lemma {:induction false} DiskIsLastWritten(d: seq<byte>, rs: seq<Io>, b: nat)
    requires AllInRange(rs, |d|) && b < |d|
    ensures RunQueue(d, rs).0[b] == LastWritten(d, rs, b)
    decreases |rs|
  {
    if rs != [] {
      var init, r := rs[..|rs| - 1], rs[|rs| - 1];
      assert rs == init + [r];
      DiskIsLastWritten(d, init, b);
      RunQueueSnoc(d, init, r);
      TransferIsFlat(RunQueue(d, init).0, Start(r), r.bufs, r.write);
    }
  }

  /** A read in the middle of a run returns, byte by byte, what was last written before it. */
  lemma {:induction false} ReadsSeeLastWrites(d: seq<byte>, rs: seq<Io>, j: nat, k: nat)
    requires AllInRange(rs, |d|)
    requires j < |rs| && !rs[j].write && k < Size(rs[j].bufs)
    ensures var got := Flatten(RunQueue(d, rs).1[j]);
      k < |got| && got[k] == LastWritten(d, rs[..j], Start(rs[j]) + k)
    decreases |rs|
  {
    var init, r := rs[..|rs| - 1], rs[|rs| - 1];
    assert rs == init + [r];
    RunQueueSnoc(d, init, r);
    if j == |rs| - 1 {
      TransferIsFlat(RunQueue(d, init).0, Start(r), r.bufs, r.write);
      DiskIsLastWritten(d, init, Start(r) + k);
    } else {
      assert init[..j] == rs[..j] && init[j] == rs[j];
      ReadsSeeLastWrites(d, init, j, k);
    }
  }

  // ---------- sampleblk_request ----------

  /** The request loop with its range check; `rv` lives outside the loop and is only set where shown. */
  function SampleRun(d: seq<byte>, rs: seq<Io>, rv: int): (x: (seq<byte>, seq<seq<seq<byte>>>, seq<int>))
    ensures |x.0| == |d| && |x.1| == |rs| && |x.2| == |rs|
    decreases |rs|
  {
    if rs == [] then (d, [], [])
    else
      var r := rs[0];
      var (d1, b, rv1) := SampleOne(d, r, rv);
      var (d2, bs, rvs) := SampleRun(d1, rs[1..], rv1);
      (d2, [b] + bs, [rv1] + rvs)
  }

  function SampleOne(d: seq<byte>, r: Io, rv: int): (x: (seq<byte>, seq<seq<byte>>, int))
    ensures |x.0| == |d|
  {
    if !InRange(r, |d|) then (d, r.bufs, -EIO)
    else
      var (d1, b) := Transfer(d, Start(r), r.bufs, r.write);
      (d1, b, if r.bufs == [] then rv else 0)
  }

  /** The requests that pass the range check. */
  function Accepted(rs: seq<Io>, size: nat): (s: seq<Io>) {
    if rs == [] then []
    else (if InRange(rs[0], size) then [rs[0]] else []) + Accepted(rs[1..], size)
  }

  lemma {:induction false} AcceptedInRange(rs: seq<Io>, size: nat)
    ensures AllInRange(Accepted(rs, size), size)
  {
    if rs != [] {
      AcceptedInRange(rs[1..], size);
    }
  }

  lemma AcceptedCons(rs: seq<Io>, size: nat)
    requires rs != []
    ensures InRange(rs[0], size) ==> Accepted(rs, size) == [rs[0]] + Accepted(rs[1..], size)
    ensures InRange(rs[0], size) ==> Accepted(rs, size)[1..] == Accepted(rs[1..], size)
    ensures !InRange(rs[0], size) ==> Accepted(rs, size) == Accepted(rs[1..], size)
  {
  }

  /** Requests beyond the end change nothing: the disk is what the accepted ones alone make of it. */
  lemma {:induction false} RejectedChangeNothing(d: seq<byte>, rs: seq<Io>, rv: int)
    ensures AllInRange(Accepted(rs, |d|), |d|)
    ensures SampleRun(d, rs, rv).0 == RunQueue(d, Accepted(rs, |d|)).0
    ensures forall i | 0 <= i < |rs| && !InRange(rs[i], |d|) ::
      SampleRun(d, rs, rv).1[i] == rs[i].bufs && SampleRun(d, rs, rv).2[i] == -EIO
    decreases |rs|
  {
    AcceptedInRange(rs, |d|);
    if rs != [] {
      AcceptedCons(rs, |d|);
      hide Transfer, InRange, Accepted;
      var (d1, b, rv1) := SampleOne(d, rs[0], rv);
      RejectedChangeNothing(d1, rs[1..], rv1);
    }
  }

  /** Serving this request sets the status: it is rejected, or it has a segment. */
  predicate SetsStatus(r: Io, size: nat) { !InRange(r, size) || r.bufs != [] }

  /** The last request up to the `i`-th that sets the status; -1 if there is none. */
  function Setter(rs: seq<Io>, size: nat, i: nat): (j: int)
    requires i < |rs|
    ensures -1 <= j <= i && (j >= 0 ==> SetsStatus(rs[j], size))
    ensures forall k | j < k <= i :: !SetsStatus(rs[k], size)
  {
    if SetsStatus(rs[i], size) then i else if i == 0 then -1 else Setter(rs, size, i - 1)
  }

  /** What the variable `rv` of the loop holds after the `i`-th request, told from the requests. */
  function StatusAt(rs: seq<Io>, size: nat, rv: int, i: nat): (v: int)
    requires i < |rs|
  {
    var j := Setter(rs, size, i);
    if j < 0 then rv else if InRange(rs[j], size) then 0 else -EIO
  }

  lemma {:induction false} SetterTail(rs: seq<Io>, size: nat, i: nat)
    requires 0 < i < |rs|
    ensures var j := Setter(rs[1..], size, i - 1);
      Setter(rs, size, i) == if j >= 0 then j + 1 else if SetsStatus(rs[0], size) then 0 else -1
  {
    if i > 1 {
      SetterTail(rs, size, i - 1);
    }
  }

  /** Every request completes with what the last one that set the status left: its own range check may be long past. */
  lemma {:induction false} StatusOfRequest(d: seq<byte>, rs: seq<Io>, rv: int, i: nat)
    requires i < |rs|
    ensures SampleRun(d, rs, rv).2[i] == StatusAt(rs, |d|, rv, i)
    decreases |rs|
  {
    hide Transfer;
    var (d1, b, rv1) := SampleOne(d, rs[0], rv);
    if i > 0 {
      StatusOfRequest(d1, rs[1..], rv1, i - 1);
      SetterTail(rs, |d|, i);
    }
  }

  /** So an empty request after one beyond the end is reported as failed. */
  lemma StaleStatus(d: seq<byte>, beyond: Io, rv: int)
    requires !InRange(beyond, |d|)
    ensures var empty := Io(0, false, []);
      InRange(empty, |d|) && SampleRun(d, [beyond, empty], rv).2[1] == -EIO
  {
  }

  // ---------- ramhd_make_request ----------

  /** One bio: the status is that of its own range check. */
  function BioOne(d: seq<byte>, r: Io): (x: (seq<byte>, seq<seq<byte>>, int))
    ensures |x.0| == |d|
  {
    if !InRange(r, |d|) then (d, r.bufs, -EIO)
    else
      var (d1, b) := Transfer(d, Start(r), r.bufs, r.write);
      (d1, b, 0)
  }

  function BioRun(d: seq<byte>, rs: seq<Io>): (x: (seq<byte>, seq<seq<seq<byte>>>, seq<int>))
    ensures |x.0| == |d| && |x.1| == |rs| && |x.2| == |rs|
    decreases |rs|
  {
    if rs == [] then (d, [], [])
    else
      var (d1, b, e) := BioOne(d, rs[0]);
      var (d2, bs, es) := BioRun(d1, rs[1..]);
      (d2, [b] + bs, [e] + es)
  }

  /** The bytes in these segments. */
  function TotalLength(bufs: seq<seq<byte>>): (n: nat) {
    if bufs == [] then 0 else |bufs[0]| + TotalLength(bufs[1..])
  }

  lemma {:induction false} TotalIsSize(bufs: seq<seq<byte>>)
    ensures Size(bufs) == TotalLength(bufs)
  {
    if bufs != [] {
      TotalIsSize(bufs[1..]);
    }
  }

  /**
   One request with a range check, byte by byte: it is accepted exactly when its sectors of 512 bytes end inside
   the disk, the last byte included; then a write puts the byte `k` of its segments at `k` behind the start, a read
   gets it from there, and no other byte of the disk changes. Otherwise the status is -5 and nothing changes.
   */
  lemma RequestBytes(d: seq<byte>, r: Io, b: nat)
    requires b < |d|
    ensures var start, n := 512 * r.sector, TotalLength(r.bufs);
      var (d', bufs, status) := BioOne(d, r);
      if start + n > |d| then d' == d && bufs == r.bufs && status == -5
      else
        && status == 0 && |Flatten(r.bufs)| == |Flatten(bufs)| == n
        && d'[b] == (if r.write && start <= b < start + n then Flatten(r.bufs)[b - start] else d[b])
        && (r.write ==> bufs == r.bufs)
        && (!r.write && start <= b < start + n ==> Flatten(bufs)[b - start] == d[b])
  {
    hide Transfer;
    TotalIsSize(r.bufs);
    if InRange(r, |d|) {
      TransferIsFlat(d, Start(r), r.bufs, r.write);
    }
  }

  /** The status left over from earlier requests happens to be the right one. */
  predicate StatusFits(rs: seq<Io>, size: nat, rv: int, i: nat)
    requires i < |rs|
  {
    InRange(rs[i], size) && rs[i].bufs == [] ==> StatusAt(rs, size, rv, i) == 0
  }

  /** The two checked loops do the same to disk and segments, whatever the requests. */
  lemma {:induction false} CheckedLoopsAgree(d: seq<byte>, rs: seq<Io>, rv: int)
    ensures SampleRun(d, rs, rv).0 == BioRun(d, rs).0 && SampleRun(d, rs, rv).1 == BioRun(d, rs).1
    ensures forall i | 0 <= i < |rs| :: BioRun(d, rs).2[i] == if InRange(rs[i], |d|) then 0 else -EIO
    decreases |rs|
  {
    hide Transfer;
    if rs != [] {
      CheckedLoopsAgree(BioOne(d, rs[0]).0, rs[1..], SampleOne(d, rs[0], rv).2);
    }
  }

  /** The loop without a range check agrees with them when every request is in range. */
  lemma {:induction false} UncheckedLoopAgrees(d: seq<byte>, rs: seq<Io>)
    requires AllInRange(rs, |d|)
    ensures BioRun(d, rs).0 == RunQueue(d, rs).0 && BioRun(d, rs).1 == RunQueue(d, rs).1
    decreases |rs|
  {
    hide Transfer;
    if rs != [] {
      UncheckedLoopAgrees(BioOne(d, rs[0]).0, rs[1..]);
    }
  }

  /**
   They also report the same statuses exactly when no request without segments meets a leftover failure,
   so in particular when all requests are in range.
   */
  lemma DriversAgree(d: seq<byte>, rs: seq<Io>, rv: int)
    ensures SampleRun(d, rs, rv) == BioRun(d, rs) <==> forall i | 0 <= i < |rs| :: StatusFits(rs, |d|, rv, i)
    ensures AllInRange(rs, |d|) ==> BioRun(d, rs).0 == RunQueue(d, rs).0 && BioRun(d, rs).1 == RunQueue(d, rs).1
    ensures AllInRange(rs, |d|) && rv == 0 ==> SampleRun(d, rs, rv) == BioRun(d, rs)
  {
    hide SampleRun, BioRun, RunQueue, InRange;
    CheckedLoopsAgree(d, rs, rv);
    if AllInRange(rs, |d|) {
      UncheckedLoopAgrees(d, rs);
    }
    var x, y := SampleRun(d, rs, rv), BioRun(d, rs);
    forall i | 0 <= i < |rs|
      ensures x.2[i] == y.2[i] <==> StatusFits(rs, |d|, rv, i)
    {
      StatusOfRequest(d, rs, rv, i);
    }
    if forall i | 0 <= i < |rs| :: StatusFits(rs, |d|, rv, i) {
      assert x.2 == y.2;
    }
  }
}
