/** The three RAM disk drivers over real memory; each is proved to do what BlockIo says. */
module RamDisk {
  import opened Bytes
  import opened BlockIo

  /** A request of the block layer: its segments are pieces of memory. */
  datatype Request = Request(sector: nat, write: bool, segs: seq<array<byte>>)

  ghost function Contents(segs: seq<array<byte>>): (bufs: seq<seq<byte>>)
    reads segs
    ensures |bufs| == |segs| && forall k | 0 <= k < |segs| :: bufs[k] == segs[k][..]
  {
    if segs == [] then [] else [segs[0][..]] + Contents(segs[1..])
  }

  ghost function View(r: Request): (v: Io)
    reads r.segs
  {
    Io(r.sector, r.write, Contents(r.segs))
  }

  ghost function Memory(queue: seq<Request>): (r: set<array<byte>>) {
    set r, a | r in queue && a in r.segs :: a
  }

  ghost function AllContents(queue: seq<Request>): (bufs: seq<seq<seq<byte>>>)
    reads Memory(queue)
    ensures |bufs| == |queue| && forall k | 0 <= k < |queue| :: bufs[k] == Contents(queue[k].segs)
  {
    if queue == [] then [] else
      assert Memory(queue[1..]) <= Memory(queue);
      assert queue[0] in queue && forall a | a in queue[0].segs :: a in Memory(queue);
      [Contents(queue[0].segs)] + AllContents(queue[1..])
  }

  ghost function Views(queue: seq<Request>): (rs: seq<Io>)
    reads Memory(queue)
    ensures |rs| == |queue| && forall k | 0 <= k < |queue| :: rs[k] == View(queue[k])
  {
    var bufs := AllContents(queue);
    seq(|queue|, k requires 0 <= k < |queue| => Io(queue[k].sector, queue[k].write, bufs[k]))
  }

  /** blk_rq_bytes */
  function Length(segs: seq<array<byte>>): (n: nat) {
    if segs == [] then 0 else segs[0].Length + Length(segs[1..])
  }

  lemma {:induction false} LengthIsSize(segs: seq<array<byte>>, bufs: seq<seq<byte>>)
    requires |bufs| == |segs| && forall k | 0 <= k < |segs| :: |bufs[k]| == segs[k].Length
    ensures Length(segs) == Size(bufs)
  {
    if segs != [] {
      LengthIsSize(segs[1..], bufs[1..]);
    }
  }

  /** No segment lies in the disk, and a read fills separate ones; a write may name the same memory more than once. */
  ghost predicate Separate(disk: array<byte>, segs: seq<array<byte>>, write: bool) {
    disk !in segs && (!write ==> forall i, j | 0 <= i < j < |segs| :: segs[i] != segs[j])
  }

  /** What a read fills belongs to no other request of the queue. */
  ghost predicate AllSeparate(disk: array<byte>, queue: seq<Request>) {
    && (forall j | 0 <= j < |queue| :: Separate(disk, queue[j].segs, queue[j].write))
    && (forall j, k, a | 0 <= j < |queue| && 0 <= k < |queue| && j != k && !queue[j].write && a in queue[j].segs ::
          a !in queue[k].segs)
  }

  method Memcpy(dst: array<byte>, to: nat, src: array<byte>, from: nat, n: nat)
    requires to + n <= dst.Length && from + n <= src.Length && dst != src
    modifies dst
    ensures dst[..] == Splice(old(dst[..]), to, src[from..from + n])
  {
    forall k | 0 <= k < n {
      dst[to + k] := src[from + k];
    }
  }

  /** sampleblk_handle_io, and the two memcpys of the other drivers. */
  method HandleIo(disk: array<byte>, pos: nat, buffer: array<byte>, write: bool) returns (rv: int)
    requires disk != buffer && pos + buffer.Length <= disk.Length
    modifies disk, buffer
    ensures rv == 0 && (disk[..], buffer[..]) == CopySegment(old(disk[..]), pos, old(buffer[..]), write)
    ensures write ==> buffer[..] == old(buffer[..])
  {
    var size := buffer.Length;
    if write {
      Memcpy(disk, pos, buffer, 0, size);
      assert buffer[0..size] == buffer[..];
    } else {
      ghost var want := disk[..][pos..pos + size];
      assert disk[pos..pos + size] == want;
      Memcpy(buffer, 0, disk, pos, size);
      assert buffer[..] == want;
    }
    return 0;
  }

  /** Serving `bufs` from `i` on ends with this disk and these segments. */
  ghost predicate Left(d: seq<byte>, pos: nat, bufs: seq<seq<byte>>, i: nat, write: bool,
                       x: (seq<byte>, seq<seq<byte>>))
  {
    && i <= |bufs| == |x.1| && pos + Size(bufs[i..]) <= |d|
    && Transfer(d, pos, bufs[i..], write) == (x.0, x.1[i..])
  }

  lemma LeftStart(d: seq<byte>, pos: nat, bufs: seq<seq<byte>>, write: bool)
    requires pos + Size(bufs) <= |d|
    ensures Left(d, pos, bufs, 0, write, Transfer(d, pos, bufs, write))
  {
  }

  lemma LeftStep(d: seq<byte>, pos: nat, bufs: seq<seq<byte>>, i: nat, write: bool, x: (seq<byte>, seq<seq<byte>>))
    requires Left(d, pos, bufs, i, write, x) && i < |bufs|
    ensures pos + |bufs[i]| <= |d|
    ensures var (d1, b) := CopySegment(d, pos, bufs[i], write);
      Left(d1, pos + |bufs[i]|, bufs, i + 1, write, x) && b == x.1[i]
  {
    assert bufs[i..][1..] == bufs[i + 1..];
    var (d1, b) := CopySegment(d, pos, bufs[i], write);
    var bs := Transfer(d1, pos + |bufs[i]|, bufs[i + 1..], write).1;
    assert x.1[i..] == [b] + bs;
    assert x.1[i..][1..] == x.1[i + 1..] && ([b] + bs)[1..] == bs;
  }

  lemma LeftEnd(d: seq<byte>, pos: nat, bufs: seq<seq<byte>>, write: bool, x: (seq<byte>, seq<seq<byte>>))
    requires Left(d, pos, bufs, |bufs|, write, x)
    ensures d == x.0
  {
  }

  /** The first `i` of `after`, the others of `before`. */
  function Mixed<T>(after: seq<T>, before: seq<T>, i: nat): (m: seq<T>)
    requires i <= |after| == |before|
    ensures |m| == |after|
  {
    after[..i] + before[i..]
  }

  lemma MixedAt<T>(after: seq<T>, before: seq<T>, i: nat)
    requires i <= |after| == |before|
    ensures i < |after| ==> Mixed(after, before, i)[i] == before[i]
    ensures i < |after| ==> Mixed(after, before, i)[i := after[i]] == Mixed(after, before, i + 1)
    ensures Mixed(after, before, 0) == before && Mixed(after, before, |after|) == after
  {
  }

  /** One segment of a request; the other segments stay as they are. */
  method HandleSegment(disk: array<byte>, pos: nat, segs: seq<array<byte>>, i: nat, write: bool) returns (rv: int)
    requires Separate(disk, segs, write) && i < |segs| && pos + segs[i].Length <= disk.Length
    modifies disk, segs[i]
    ensures rv == 0
    ensures var (d, b) := CopySegment(old(disk[..]), pos, old(Contents(segs))[i], write);
      disk[..] == d && Contents(segs) == old(Contents(segs))[i := b]
    ensures write ==> segs[i][..] == old(segs[i][..])
  {
    hide CopySegment;
    rv := HandleIo(disk, pos, segs[i], write);
  }

  /** The segment loop of sampleblk_request and of ramhd_make_request. */
  method ForEachSegment(disk: array<byte>, start: nat, segs: seq<array<byte>>, write: bool, rv0: int) returns (rv: int)
    requires Separate(disk, segs, write) && start + Size(Contents(segs)) <= disk.Length
    modifies disk, segs
    ensures (disk[..], Contents(segs)) == Transfer(old(disk[..]), start, old(Contents(segs)), write)
    ensures write ==> forall a | a in segs :: a[..] == old(a[..])
    ensures rv == if segs == [] then rv0 else 0
  {
    hide Transfer, CopySegment, Size, Left, Mixed, Separate, Contents;
    ghost var b0 := Contents(segs);
    ghost var t := Transfer(disk[..], start, b0, write);
    var pos: nat, i: nat := start, 0;
    rv := rv0;
    LeftStart(disk[..], pos, b0, write);
    MixedAt(t.1, b0, 0);
    while i < |segs|
      invariant i <= |segs| && Left(disk[..], pos, b0, i, write, t)
      invariant Contents(segs) == Mixed(t.1, b0, i)
      invariant write ==> forall a | a in segs :: a[..] == old(a[..])
      invariant rv == if i == 0 then rv0 else 0
    {
      LeftStep(disk[..], pos, b0, i, write, t);
      MixedAt(t.1, b0, i);
      rv := HandleSegment(disk, pos, segs, i, write);
      pos, i := pos + segs[i].Length, i + 1;
    }
    LeftEnd(disk[..], pos, b0, write, t);
  }

  /** ramhd_make_request; the value is what bio_endio gets. */
  method MakeRequest(disk: array<byte>, bio: Request) returns (err: int)
    requires Separate(disk, bio.segs, bio.write)
    modifies disk, bio.segs
    ensures (disk[..], Contents(bio.segs), err) == BioOne(old(disk[..]), old(View(bio)))
  {
    hide Transfer;
    LengthIsSize(bio.segs, Contents(bio.segs));
    if bio.sector * SECTOR + Length(bio.segs) > disk.Length {
      return -EIO;
    }
    err := ForEachSegment(disk, bio.sector * SECTOR, bio.segs, bio.write, 0);
  }

  /** The body of the request loop of sampleblk_request. */
  method SampleblkOne(disk: array<byte>, rq: Request, rv0: int) returns (rv: int)
    requires Separate(disk, rq.segs, rq.write)
    modifies disk, rq.segs
    ensures (disk[..], Contents(rq.segs), rv) == SampleOne(old(disk[..]), old(View(rq)), rv0)
    ensures rq.write ==> forall a | a in rq.segs :: a[..] == old(a[..])
  {
    hide Transfer;
    LengthIsSize(rq.segs, Contents(rq.segs));
    if rq.sector * SECTOR + Length(rq.segs) > disk.Length {
      return -EIO;
    }
    rv := ForEachSegment(disk, rq.sector * SECTOR, rq.segs, rq.write, rv0);
  }

  /** Serving `rs` from `i` on ends with this disk, these segments and these statuses. */
  ghost predicate SampleLeft(d: seq<byte>, rs: seq<Io>, i: nat, rv: int,
                             x: (seq<byte>, seq<seq<seq<byte>>>, seq<int>))
  {
    && i <= |rs| == |x.1| == |x.2|
    && SampleRun(d, rs[i..], rv) == (x.0, x.1[i..], x.2[i..])
  }

  lemma SampleLeftStart(d: seq<byte>, rs: seq<Io>, rv: int)
    ensures SampleLeft(d, rs, 0, rv, SampleRun(d, rs, rv))
  {
  }

  lemma SampleLeftStep(d: seq<byte>, rs: seq<Io>, i: nat, rv: int, x: (seq<byte>, seq<seq<seq<byte>>>, seq<int>))
    requires SampleLeft(d, rs, i, rv, x) && i < |rs|
    ensures var (d1, b, rv1) := SampleOne(d, rs[i], rv);
      SampleLeft(d1, rs, i + 1, rv1, x) && b == x.1[i] && rv1 == x.2[i]
  {
    hide SampleOne;
    assert rs[i..][1..] == rs[i + 1..];
    var (d1, b, rv1) := SampleOne(d, rs[i], rv);
    var (d2, bs, vs) := SampleRun(d1, rs[i + 1..], rv1);
    assert x.1[i..] == [b] + bs && x.2[i..] == [rv1] + vs;
    assert x.1[i..][1..] == x.1[i + 1..] && ([b] + bs)[1..] == bs;
    assert x.2[i..][1..] == x.2[i + 1..] && ([rv1] + vs)[1..] == vs;
  }

  lemma SampleLeftEnd(d: seq<byte>, rs: seq<Io>, rv: int, x: (seq<byte>, seq<seq<seq<byte>>>, seq<int>))
    requires SampleLeft(d, rs, |rs|, rv, x)
    ensures d == x.0
  {
  }

  lemma Apart(disk: array<byte>, queue: seq<Request>, i: nat)
    requires AllSeparate(disk, queue) && i < |queue|
    ensures Separate(disk, queue[i].segs, queue[i].write)
    ensures forall a | a in queue[i].segs :: a in Memory(queue)
    ensures forall k, a | 0 <= k < |queue| && k != i && a in queue[k].segs ::
      a != disk && (a in queue[i].segs ==> queue[i].write)
  {
  }

  /** One request of the queue; the other ones stay as they are. */
  method SampleblkNext(disk: array<byte>, queue: seq<Request>, i: nat, rv0: int) returns (rv: int)
    requires AllSeparate(disk, queue) && i < |queue|
    modifies disk, queue[i].segs
    ensures var (d, b, v) := SampleOne(old(disk[..]), old(View(queue[i])), rv0);
      disk[..] == d && rv == v && AllContents(queue) == old(AllContents(queue))[i := b]
  {
    hide SampleOne, Separate, AllSeparate, AllContents, Contents, Memory;
    Apart(disk, queue, i);
    rv := SampleblkOne(disk, queue[i], rv0);
    forall k | 0 <= k < |queue| && k != i
      ensures Contents(queue[k].segs) == old(Contents(queue[k].segs))
    {
      var segs := queue[k].segs;
      forall m | 0 <= m < |segs|
        ensures segs[m][..] == old(segs[m][..])
      {
        assert segs[m] in queue[k].segs;
        assert segs[m] != disk && (segs[m] in queue[i].segs ==> queue[i].write);
      }
    }
  }

  /** sampleblk_request; `rvs` are the values that blk_end_request_all gets. */
  method SampleblkRequest(disk: array<byte>, queue: seq<Request>) returns (rvs: seq<int>)
    requires AllSeparate(disk, queue)
    modifies disk, Memory(queue)
    ensures (disk[..], AllContents(queue), rvs) == SampleRun(old(disk[..]), old(Views(queue)), 0)
  {
    hide SampleOne, SampleRun, SampleLeft, Mixed, Separate, AllSeparate, Memory, AllContents, Contents, Views;
    ghost var rs, c0 := Views(queue), AllContents(queue);
    ghost var x := SampleRun(disk[..], rs, 0);
    var rv, i: nat := 0, 0;
    rvs := [];
    SampleLeftStart(disk[..], rs, rv);
    MixedAt(x.1, c0, 0);
    while i < |queue|
      invariant i <= |queue|
      invariant SampleLeft(disk[..], rs, i, rv, x)
      invariant AllContents(queue) == Mixed(x.1, c0, i)
      invariant rvs == x.2[..i]
    {
      SampleLeftStep(disk[..], rs, i, rv, x);
      MixedAt(x.1, c0, i);
      Apart(disk, queue, i);
      rv := SampleblkNext(disk, queue, i, rv);
      rvs := rvs + [rv];
      i := i + 1;
    }
    SampleLeftEnd(disk[..], rs, rv, x);
    assert x.2[..|queue|] == x.2;
  }

  // ---------- ramhd_req_func ----------

  /** What its callers guarantee: requests in range, of at least one segment, all segments whole nonempty sectors. */
  ghost predicate Chunked(segs: seq<array<byte>>) {
    segs != [] && forall k | 0 <= k < |segs| :: segs[k].Length > 0 && segs[k].Length % SECTOR == 0
  }

  lemma LengthFrom(segs: seq<array<byte>>, j: nat)
    requires Chunked(segs) && j <= |segs|
    ensures j < |segs| ==> Length(segs[j..]) == segs[j].Length + Length(segs[j + 1..]) && segs[j].Length > 0
    ensures Length(segs[j..]) == 0 <==> j == |segs|
    ensures segs[0..] == segs
  {
  }

  /** Serving `rs` from `i` on ends with this disk and these segments. */
  ghost predicate QueueLeft(d: seq<byte>, rs: seq<Io>, i: nat, x: (seq<byte>, seq<seq<seq<byte>>>)) {
    && i <= |rs| == |x.1| && AllInRange(rs, |d|)
    && AllInRange(rs[i..], |d|) && RunQueue(d, rs[i..]) == (x.0, x.1[i..])
  }

  lemma QueueLeftStart(d: seq<byte>, rs: seq<Io>)
    requires AllInRange(rs, |d|)
    ensures QueueLeft(d, rs, 0, RunQueue(d, rs))
  {
  }

  lemma QueueLeftStep(d: seq<byte>, rs: seq<Io>, i: nat, x: (seq<byte>, seq<seq<seq<byte>>>))
    requires QueueLeft(d, rs, i, x) && i < |rs|
    ensures InRange(rs[i], |d|)
    ensures var (d1, b) := Transfer(d, Start(rs[i]), rs[i].bufs, rs[i].write);
      QueueLeft(d1, rs, i + 1, x) && b == x.1[i]
  {
    hide Transfer;
    assert rs[i..][1..] == rs[i + 1..] && InRange(rs[i], |d|);
    var (d1, b) := Transfer(d, Start(rs[i]), rs[i].bufs, rs[i].write);
    var bs := RunQueue(d1, rs[i + 1..]).1;
    assert x.1[i..] == [b] + bs;
    assert x.1[i..][1..] == x.1[i + 1..] && ([b] + bs)[1..] == bs;
  }

  lemma QueueLeftEnd(d: seq<byte>, rs: seq<Io>, x: (seq<byte>, seq<seq<seq<byte>>>))
    requires QueueLeft(d, rs, |rs|, x)
    ensures d == x.0
  {
  }

  /** One chunk; all other memory stays as it is. */
  method HandleChunk(disk: array<byte>, pos: nat, queue: seq<Request>, i: nat, j: nat)
    requires AllSeparate(disk, queue) && i < |queue| && j < |queue[i].segs|
    requires pos + queue[i].segs[j].Length <= disk.Length
    modifies disk, queue[i].segs
    ensures var (d, b) := CopySegment(old(disk[..]), pos, old(Contents(queue[i].segs))[j], queue[i].write);
      && disk[..] == d
      && AllContents(queue) == old(AllContents(queue))[i := old(Contents(queue[i].segs))[j := b]]
  {
    hide CopySegment, Separate, AllSeparate, AllContents, Contents, Memory;
    Apart(disk, queue, i);
    var rv := HandleSegment(disk, pos, queue[i].segs, j, queue[i].write);
    forall k | 0 <= k < |queue| && k != i
      ensures Contents(queue[k].segs) == old(Contents(queue[k].segs))
    {
      var segs := queue[k].segs;
      forall m | 0 <= m < |segs|
        ensures segs[m][..] == old(segs[m][..])
      {
        assert segs[m] in queue[k].segs;
        assert segs[m] != disk && (segs[m] in queue[i].segs ==> queue[i].write);
      }
    }
  }

  /** What the segments of the requests hold. */
  function Bufs(rs: seq<Io>): (bufs: seq<seq<seq<byte>>>)
    ensures |bufs| == |rs| && forall k | 0 <= k < |rs| :: bufs[k] == rs[k].bufs
  {
    seq(|rs|, k requires 0 <= k < |rs| => rs[k].bufs)
  }

  /** Where ramhd_req_func is between two chunks: request `i`, segment `j`, sector cursor, bytes left of the request. */
  datatype Cursor = Cursor(i: nat, j: nat, pos: nat, left: nat)

  /** The requests before `i` are served, request `i` up to segment `j`; it will leave the disk as `mid`. */
  ghost predicate Serving(d: seq<byte>, all: seq<seq<seq<byte>>>, segs: seq<array<byte>>, rs: seq<Io>,
                          c: Cursor, mid: seq<byte>, x: (seq<byte>, seq<seq<seq<byte>>>))
  {
    && c.i < |rs| == |x.1| && |segs| == |rs[c.i].bufs| == |x.1[c.i]| && Chunked(segs)
    && c.j < |segs| && c.left == Length(segs[c.j..])
    && Left(d, c.pos * SECTOR, rs[c.i].bufs, c.j, rs[c.i].write, (mid, x.1[c.i]))
    && QueueLeft(mid, rs, c.i + 1, x)
    && all == Mixed(x.1, Bufs(rs), c.i)[c.i := Mixed(x.1[c.i], rs[c.i].bufs, c.j)]
  }

  /** Taking the next request off the queue. */
  lemma Fetched(d: seq<byte>, all: seq<seq<seq<byte>>>, r: Request, rs: seq<Io>, i: nat,
                x: (seq<byte>, seq<seq<seq<byte>>>))
    returns (mid: seq<byte>)
    requires QueueLeft(d, rs, i, x) && i < |rs| && all == Mixed(x.1, Bufs(rs), i)
    requires Chunked(r.segs) && r.sector == rs[i].sector && |rs[i].bufs| == |r.segs|
    ensures r.segs != [] && Serving(d, all, r.segs, rs, Cursor(i, 0, r.sector, Length(r.segs)), mid, x)
  {
    QueueLeftStep(d, rs, i, x);
    LeftStart(d, Start(rs[i]), rs[i].bufs, rs[i].write);
    mid := Transfer(d, Start(rs[i]), rs[i].bufs, rs[i].write).0;
    LengthFrom(r.segs, 0);
    MixedAt(x.1, Bufs(rs), i);
    MixedAt(x.1[i], rs[i].bufs, 0);
    assert all[i := rs[i].bufs] == all;
  }

  /** Copying one chunk and advancing over it. */
  lemma ChunkDone(d: seq<byte>, all: seq<seq<seq<byte>>>, segs: seq<array<byte>>, rs: seq<Io>,
                  c: Cursor, mid: seq<byte>, x: (seq<byte>, seq<seq<seq<byte>>>))
    requires Serving(d, all, segs, rs, c, mid, x) && segs[c.j].Length == |rs[c.i].bufs[c.j]|
    ensures 0 < segs[c.j].Length <= c.left && c.pos * SECTOR + segs[c.j].Length <= |d|
    ensures all[c.i][c.j] == rs[c.i].bufs[c.j] && |all| == |rs|
    ensures var (d1, b) := CopySegment(d, c.pos * SECTOR, rs[c.i].bufs[c.j], rs[c.i].write);
      var all1, left1 := all[c.i := all[c.i][c.j := b]], c.left - segs[c.j].Length;
      var c1 := Cursor(c.i, c.j + 1, c.pos + segs[c.j].Length / SECTOR, left1);
      if left1 == 0 then QueueLeft(d1, rs, c.i + 1, x) && all1 == Mixed(x.1, Bufs(rs), c.i + 1)
      else c.j + 1 < |segs| && Serving(d1, all1, segs, rs, c1, mid, x)
  {
    hide CopySegment, Left, QueueLeft, Mixed, Bufs;
    var r, start, size := rs[c.i], c.pos * SECTOR, segs[c.j].Length;
    LeftStep(d, start, r.bufs, c.j, r.write, (mid, x.1[c.i]));
    LengthFrom(segs, c.j);
    LengthFrom(segs, c.j + 1);
    MixedAt(x.1, Bufs(rs), c.i);
    MixedAt(x.1[c.i], r.bufs, c.j);
    MixedAt(x.1[c.i], r.bufs, c.j + 1);
    if c.j + 1 == |segs| {
      LeftEnd(CopySegment(d, start, r.bufs[c.j], r.write).0, start + size, r.bufs, r.write, (mid, x.1[c.i]));
    }
  }

  /** ramhd_req_func: one chunk at a time; `pos` and `left` are the sector cursor and the bytes left of the request. */
  method RamhdReqFunc(disk: array<byte>, queue: seq<Request>)
    requires AllSeparate(disk, queue) && AllInRange(Views(queue), disk.Length)
    requires forall k | 0 <= k < |queue| :: Chunked(queue[k].segs)
    modifies disk, Memory(queue)
    ensures (disk[..], AllContents(queue)) == RunQueue(old(disk[..]), old(Views(queue)))
  {
    hide RunQueue, QueueLeft, Mixed, Serving, CopySegment;
    hide Separate, AllSeparate, Memory, AllContents, Contents, Views, Bufs, Chunked, AllInRange, Length, Size;
    ghost var rs := Views(queue);
    ghost var x := RunQueue(disk[..], rs);
    ghost var mid := disk[..];
    QueueLeftStart(mid, rs);
    MixedAt(x.1, Bufs(rs), 0);
    assert AllContents(queue) == Bufs(rs);
    var i: nat, j: nat, pos: nat, left: nat := 0, 0, 0, 0;
    if i < |queue| {
      pos, left := queue[i].sector, Length(queue[i].segs);
      mid := Fetched(disk[..], AllContents(queue), queue[i], rs, i, x);
    }
    while i < |queue|
      invariant i <= |queue|
      invariant i < |queue| ==> j < |queue[i].segs|
      invariant i < |queue| ==>
        Serving(disk[..], AllContents(queue), queue[i].segs, rs, Cursor(i, j, pos, left), mid, x)
      invariant i == |queue| ==> QueueLeft(disk[..], rs, i, x) && AllContents(queue) == Mixed(x.1, Bufs(rs), i)
      decreases |queue| - i, left
    {
      var size := queue[i].segs[j].Length;
      ChunkDone(disk[..], AllContents(queue), queue[i].segs, rs, Cursor(i, j, pos, left), mid, x);
      Apart(disk, queue, i);
      HandleChunk(disk, pos * SECTOR, queue, i, j);
      pos, left, j := pos + size / SECTOR, left - size, j + 1;
      if left == 0 {
        i := i + 1;
        if i < |queue| {
          pos, left, j := queue[i].sector, Length(queue[i].segs), 0;
          mid := Fetched(disk[..], AllContents(queue), queue[i], rs, i, x);
        }
      }
    }
    QueueLeftEnd(disk[..], rs, x);
    MixedAt(x.1, Bufs(rs), i);
  }
}
