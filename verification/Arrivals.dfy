/** What the read ioctls of a loop deliver, and what a loop that parses each of them serves. */
module Arrivals {
  import opened Bytes
  import opened Registry
  import opened Stream
  import opened Dispatch

  const READBUF_WORDS := 32

  /** One return of the read ioctl: the mapped memory as the driver left it, and the words read. */
  datatype Arrival = Arrival(mem: seq<byte>, words: seq<u32>)

  /** What such a loop serves: it stops after a stream with a status, or one it cannot read to its end. */
  function Served(arrivals: seq<Arrival>): (ds: seq<Delivery>) {
    if arrivals == [] then []
    else
      var a := arrivals[0];
      Tag(a.mem, Decode(a.words).cmds) + (if ParseResult(a.words) > 0 then Served(arrivals[1..]) else [])
  }

  /** All commands of these arrivals, each with the memory it came with. */
  function Everything(arrivals: seq<Arrival>): (ds: seq<Delivery>) {
    if arrivals == [] then []
    else Tag(arrivals[0].mem, Decode(arrivals[0].words).cmds) + Everything(arrivals[1..])
  }

  /** The loop serves everything up to the first arrival that does not leave it undecided, that one included. */
  lemma {:induction false} ServedIsPrefix(arrivals: seq<Arrival>, n: nat)
    requires n <= |arrivals| && forall i | 0 <= i < n - 1 :: Undecided(arrivals[i].words)
    requires n == |arrivals| || (n > 0 && !Undecided(arrivals[n - 1].words))
    ensures Served(arrivals) == Everything(arrivals[..n])
    decreases n
  {
    hide Decode, ParseResult, Undecided, EndsInReply, Tag;
    if n > 0 {
      var a := arrivals[0];
      ResultOfStream(a.words);
      assert arrivals[..n][1..] == arrivals[1..][..n - 1];
      var ds := Tag(a.mem, Decode(a.words).cmds);
      if Undecided(a.words) {
        ServedIsPrefix(arrivals[1..], n - 1);
      } else {
        assert arrivals[1..][..0] == [] && Everything([]) == [];
      }
    }
  }

  /** It fits the mapping and the read buffer, and does not end within a death notice. */
  predicate ArrivalOk(a: Arrival, mapped: nat) {
    |a.mem| == mapped && |a.words| <= READBUF_WORDS && Decode(a.words).end != Dangling
  }

  /** The read ioctl fills the mapped memory and the read buffer. */
  method Deliver(mapped: array<byte>, readbuf: array<u32>, a: Arrival)
    requires |a.mem| == mapped.Length && |a.words| <= readbuf.Length
    modifies mapped, readbuf
    ensures mapped[..] == a.mem && readbuf[..|a.words|] == a.words
  {
    forall k | 0 <= k < |a.mem| {
      mapped[k] := a.mem[k];
    }
    forall k | 0 <= k < |a.words| {
      readbuf[k] := a.words[k];
    }
  }

  /** Serving the arrivals from `i` on comes to what serving all of them came to. */
  ghost predicate ToServe(env: Env, served: bool, s0: State, all: seq<Arrival>, s: State, i: nat)
    requires i <= |all|
  {
    Run(env, served, s, Served(all[i..])) == Run(env, served, s0, Served(all))
  }

  lemma ServedStep(all: seq<Arrival>, i: nat)
    requires i < |all|
    ensures var ds := Tag(all[i].mem, Decode(all[i].words).cmds);
      Served(all[i..]) == ds + (if ParseResult(all[i].words) > 0 then Served(all[i + 1..]) else [])
  {
    hide Decode, ParseResult, Tag;
    assert all[i..][1..] == all[i + 1..];
  }

  lemma ToServeStart(env: Env, served: bool, s0: State, all: seq<Arrival>)
    ensures ToServe(env, served, s0, all, s0, 0)
  {
    assert all[0..] == all;
  }

  lemma ToServeStep(env: Env, served: bool, s0: State, all: seq<Arrival>, s: State, i: nat)
    requires i < |all| && ToServe(env, served, s0, all, s, i)
    ensures var s1 := Run(env, served, s, Tag(all[i].mem, Decode(all[i].words).cmds));
      if ParseResult(all[i].words) > 0 then ToServe(env, served, s0, all, s1, i + 1)
      else s1 == Run(env, served, s0, Served(all))
  {
    hide Run, Decode, ParseResult, Tag, Served;
    ServedStep(all, i);
    var ds := Tag(all[i].mem, Decode(all[i].words).cmds);
    assert ds + [] == ds;
    RunSplit(env, served, s, ds, Served(all[i + 1..]));
  }

  lemma ServedAll(env: Env, served: bool, s0: State, all: seq<Arrival>, s: State)
    requires ToServe(env, served, s0, all, s, |all|)
    ensures s == Run(env, served, s0, Served(all))
  {
    hide Decode, ParseResult, Tag;
    assert Served(all[|all|..]) == [];
  }
}
