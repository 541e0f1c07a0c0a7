/** What clients can conclude from the requests, deaths and replies they have seen. */
module History {
  import opened Bytes
  import opened BioFormat
  import opened Registry
  import opened EndToEnd

  /** An event with its response; a death has none and carries a placeholder. */
  datatype Seen = Seen(event: Event, response: Response)

  function Respond(a: Abs, e: Event): (r: Seen) {
    var (a', r) := AbsStep(a, e);
    Seen(e, if r == [] then Status(0) else r[0])
  }

  /** The record of a run. */
  function Record(a: Abs, evs: seq<Event>): (s: seq<Seen>)
    decreases |evs|
  {
    if evs == [] then [] else [Respond(a, evs[0])] + Record(AbsStep(a, evs[0]).0, evs[1..])
  }

  /** A registration of this name that was answered with 0. */
  predicate Registers(x: Seen, name: Name) {
    x.event.Call? && x.event.req.AddSvc? && x.event.req.name == name && x.response == Status(0)
  }

  /** The handle of the last successful registration, unless the service has died since. */
  function LastHandle(seen: seq<Seen>, name: Name): (n: u32) {
    if seen == [] then 0
    else
      var x := seen[|seen| - 1];
      if Registers(x, name) then x.event.req.handle
      else if x.event == Died(name) then 0
      else LastHandle(seen[..|seen| - 1], name)
  }

  /** Does the registration let isolated processes in? Its last word must be there and not be 0. */
  predicate Opens(req: Request) {
    req.AddSvc? && match req.allow case Some(word) => word > 0 case None => false
  }

  /** What the first successful registration of the name said about isolated processes. */
  function FirstAllowed(seen: seq<Seen>, name: Name): (o: Option<bool>) {
    if seen == [] then None
    else if Registers(seen[0], name) then Some(Opens(seen[0].event.req))
    else FirstAllowed(seen[1..], name)
  }

  /** The names in the order of their first successful registration, the newest first. */
  function Registered(seen: seq<Seen>): (s: seq<Name>) {
    if seen == [] then []
    else
      var x := seen[|seen| - 1];
      var names := Registered(seen[..|seen| - 1]);
      if x.event.Call? && x.event.req.AddSvc? && Registers(x, x.event.req.name) && x.event.req.name !in names
      then [x.event.req.name] + names else names
  }

  /** One name's part of Explains. */
  ghost predicate ExplainsName(a: Abs, seen: seq<Seen>, n: Name) {
    && (n in a.table <==> FirstAllowed(seen, n).Some?)
    && (n in a.table ==> a.table[n] == Svc(LastHandle(seen, n), FirstAllowed(seen, n).value))
    && (n !in a.table ==> LastHandle(seen, n) == 0)
  }

  /** The order lists the names of the table, each once. */
  ghost predicate Ordered(a: Abs) {
    && (forall n: Name :: n in a.table <==> n in a.order)
    && (forall i, j | 0 <= i < j < |a.order| :: a.order[i] != a.order[j])
  }

  /** The table is what the record says, name by name. */
  ghost predicate Explains(a: Abs, seen: seq<Seen>) {
    && (forall n: Name :: ExplainsName(a, seen, n))
    && Ordered(a)
    && a.order == Registered(seen)
  }

  lemma {:induction false} FirstAllowedAppend(seen: seq<Seen>, x: Seen, name: Name)
    ensures FirstAllowed(seen + [x], name)
         == if FirstAllowed(seen, name).Some? then FirstAllowed(seen, name)
            else if Registers(x, name) then Some(Opens(x.event.req)) else None
  {
    if seen == [] {
      assert seen + [x] == [x];
    } else {
      assert (seen + [x])[1..] == seen[1..] + [x];
      FirstAllowedAppend(seen[1..], x, name);
    }
  }

  lemma LastHandleAppend(seen: seq<Seen>, x: Seen, name: Name)
    ensures LastHandle(seen + [x], name)
         == if Registers(x, name) then x.event.req.handle
            else if x.event == Died(name) then 0 else LastHandle(seen, name)
  {
  }

  lemma StepExplainsName(a: Abs, seen: seq<Seen>, e: Event, n: Name)
    requires ExplainsName(a, seen, n)
    ensures ExplainsName(AbsStep(a, e).0, seen + [Respond(a, e)], n)
  {
    FirstAllowedAppend(seen, Respond(a, e), n);
    LastHandleAppend(seen, Respond(a, e), n);
    hide FirstAllowed, LastHandle;
  }

  lemma StepOrdered(a: Abs, e: Event)
    requires Ordered(a)
    ensures Ordered(AbsStep(a, e).0)
  {
    hide TableLookup, CString;
  }

  lemma StepRegistered(a: Abs, seen: seq<Seen>, e: Event)
    requires Ordered(a) && a.order == Registered(seen)
    ensures AbsStep(a, e).0.order == Registered(seen + [Respond(a, e)])
  {
    hide TableLookup, CString;
    var x := Respond(a, e);
    assert (seen + [x])[..|seen|] == seen && (seen + [x])[|seen|] == x;
  }

  lemma StepExplains(a: Abs, seen: seq<Seen>, e: Event)
    requires Explains(a, seen)
    ensures Explains(AbsStep(a, e).0, seen + [Respond(a, e)])
  {
    hide ExplainsName, Ordered, Registered, AbsStep, Respond;
    StepOrdered(a, e);
    StepRegistered(a, seen, e);
    forall n: Name
      ensures ExplainsName(AbsStep(a, e).0, seen + [Respond(a, e)], n)
    {
      StepExplainsName(a, seen, e, n);
    }
  }

  lemma {:induction false} RunExplains(a: Abs, seen: seq<Seen>, evs: seq<Event>)
    requires Explains(a, seen)
    ensures Explains(AbsRun(a, evs).0, seen + Record(a, evs))
    decreases |evs|
  {
    if evs == [] {
      assert seen + [] == seen;
    } else {
      StepExplains(a, seen, evs[0]);
      RunExplains(AbsStep(a, evs[0]).0, seen + [Respond(a, evs[0])], evs[1..]);
      assert seen + [Respond(a, evs[0])] + Record(AbsStep(a, evs[0]).0, evs[1..]) == seen + Record(a, evs);
    }
  }

  /**
   After any run a lookup is answered with the handle of the last successful registration if the service has
   not died since, else with 0; but a process among the last 1000 of its user's 100000 uids gets 0 unless the
   first registration of the name let such processes in, whatever later ones said. Nothing changes.
   */
  lemma LookupHistory(evs: seq<Event>, name: Name, check: bool, user: nat, app: nat, memory: bool)
    requires app < 100000 && user * 100000 + app < 0x1_0000_0000
    ensures var seen := Record(EMPTY, evs); var a := AbsRun(EMPTY, evs).0;
      Serve1(a, FindSvc(name, check), user * 100000 + app, memory) == (a, Found(
        if app >= 99000 && FirstAllowed(seen, name) != Some(true) then 0 else LastHandle(seen, name)))
  {
    IsolatedIsLastThousand(user, app);
    RunExplains(EMPTY, [], evs);
    assert [] + Record(EMPTY, evs) == Record(EMPTY, evs);
    assert ExplainsName(AbsRun(EMPTY, evs).0, Record(EMPTY, evs), name);
    hide Isolated;
  }

  /**
   After any run a registration is accepted exactly with a handle that is not 0, a name of 1 to 127 characters,
   and memory for it if the name is new.
   */
  lemma RegistrationHistory(evs: seq<Event>, name: Name, handle: u32, allow: Option<u32>, uid: u32, memory: bool)
    ensures var seen := Record(EMPTY, evs); var a := AbsRun(EMPTY, evs).0;
      Serve1(a, AddSvc(name, handle, allow), uid, memory).1 == Status(
        if handle != 0 && 1 <= |name| <= 127 && (FirstAllowed(seen, name).Some? || memory) then 0 else -1)
  {
    RunExplains(EMPTY, [], evs);
    assert [] + Record(EMPTY, evs) == Record(EMPTY, evs);
    assert ExplainsName(AbsRun(EMPTY, evs).0, Record(EMPTY, evs), name);
  }

  /** The order of the table after a run: the names registered, each once. */
  lemma OrderIsRegistered(evs: seq<Event>)
    ensures var seen := Record(EMPTY, evs); var a := AbsRun(EMPTY, evs).0;
      && a.order == Registered(seen) && Ordered(a)
      && forall n: Name :: n in Registered(seen) <==> FirstAllowed(seen, n).Some?
  {
    var seen, a := Record(EMPTY, evs), AbsRun(EMPTY, evs).0;
    assert Explains(EMPTY, []);
    hide AbsRun, Record;
    RunExplains(EMPTY, [], evs);
    assert [] + seen == seen;
    forall n: Name
      ensures n in Registered(seen) <==> FirstAllowed(seen, n).Some?
    {
      assert ExplainsName(a, seen, n);
    }
  }

  /**
   Asking for index 0, 1, 2, ... walks the names registered so far, each once, the newest first,
   the dead included, until -1. Counted from the end an index keeps its name in every later run.
   */
  lemma ListingHistory(evs: seq<Event>, later: seq<Event>, k: u32, uid: u32, memory: bool)
    ensures var names := Registered(Record(EMPTY, evs)); var a := AbsRun(EMPTY, evs).0;
      && Serve1(a, ListSvc(k), uid, memory) == (a,
           if k >= |names| then Status(-1)
           else Listed(if |CString(names[k])| <= 117 then Some(CString(names[k])) else None))
      && (forall i, j | 0 <= i < j < |names| :: names[i] != names[j])
      && (forall n: Name :: n in names <==> FirstAllowed(Record(EMPTY, evs), n).Some?)
      && var grown := AbsRun(a, later).0.order;
         |names| <= |grown| && grown[|grown| - |names|..] == names
  {
    hide FirstAllowed, Registered, AbsRun, Record, CString;
    OrderIsRegistered(evs);
    OrderGrows(AbsRun(EMPTY, evs).0, later);
  }

  lemma {:induction false} OrderGrows(a: Abs, evs: seq<Event>)
    ensures var grown := AbsRun(a, evs).0.order;
      |a.order| <= |grown| && grown[|grown| - |a.order|..] == a.order
    decreases |evs|
  {
    if evs != [] {
      var b := AbsStep(a, evs[0]).0;
      OrderGrows(b, evs[1..]);
      var grown := AbsRun(b, evs[1..]).0.order;
      assert b.order[|b.order| - |a.order|..] == a.order;
      assert grown[|grown| - |b.order|..][|b.order| - |a.order|..] == grown[|grown| - |a.order|..];
    }
  }
}
