/** Which addresses are lifted: the functions of the images, and whatever the jump tables of a lifted function lead to. */
module LiftLoop {
  import opened Wrappers
  import opened JumpTables
  import Ordering

  // What the lifter makes of an address: whether it lifts at all, and the program counters its tail jumps store.
  datatype Code = Code(lifts: nat -> bool, stored: nat -> seq<Pc>)

  predicate Lifts(code: Code, address: nat) {
    code.lifts(address)
  }

  // A jump table of the function lifted at an address leads to a target.
  ghost predicate LeadsTo(code: Code, starts: set<nat>, address: nat, target: nat) {
    exists pc, owner, next :: pc in code.stored(address) && IsOwner(starts, address, owner) && IsNext(starts, owner, next)
      && target in Resolved(pc, owner, next)
  }

  method Targets(code: Code, starts: set<nat>, address: nat, owner: nat) returns (targets: set<nat>)
    requires IsOwner(starts, address, owner)
    ensures forall t :: t in targets <==> LeadsTo(code, starts, address, t)
  {
    hide IsOwner, IsNext, Resolved;
    targets := {};
    var next := NextFunction(starts, owner);
    var stored := code.stored(address);
    for k := 0 to |stored|
      invariant forall t :: t in targets <==> exists pc :: pc in stored[..k] && t in Resolved(pc, owner, next)
    {
      assert stored[..k + 1] == stored[..k] + [stored[k]];
      ghost var before := targets;
      targets := Resolve(stored[k], owner, next, targets);
      forall t | t in targets
        ensures exists pc :: pc in stored[..k + 1] && t in Resolved(pc, owner, next)
      {
        if t in before {
          var pc :| pc in stored[..k] && t in Resolved(pc, owner, next);
          assert pc in stored[..k + 1];
        } else {
          assert stored[k] in stored[..k + 1];
        }
      }
    }
    assert stored[..|stored|] == stored;
    forall t
      ensures t in targets <==> LeadsTo(code, starts, address, t)
    {
      if LeadsTo(code, starts, address, t) {
        var pc, o, n :| pc in stored && IsOwner(starts, address, o) && IsNext(starts, o, n) && t in Resolved(pc, o, n);
        OwnerIsOne(starts, address, o, owner);
        NextIsOne(starts, owner, n, next);
      }
    }
  }

  // --- the closure ---

  ghost predicate Step(code: Code, starts: set<nat>, address: nat, target: nat) {
    Lifts(code, address) && LeadsTo(code, starts, address, target)
  }

  // From a function of the images, each address one the function lifted at the one before leads to.
  ghost predicate Route(code: Code, starts: set<nat>, route: seq<nat>) {
    && route != [] && route[0] in starts
    && forall i: nat, j: nat :: j == i + 1 < |route| ==> Step(code, starts, route[i], route[j])
  }

  ghost predicate Reached(code: Code, starts: set<nat>, address: nat) {
    exists route :: Route(code, starts, route) && route[|route| - 1] == address
  }

  lemma StartsReached(code: Code, starts: set<nat>, s: nat)
    requires s in starts
    ensures Reached(code, starts, s)
  {
    assert Route(code, starts, [s]);
  }

  lemma ReachedMore(code: Code, starts: set<nat>, address: nat, target: nat)
    requires Reached(code, starts, address) && Lifts(code, address) && LeadsTo(code, starts, address, target)
    ensures Reached(code, starts, target)
  {
    assert Step(code, starts, address, target);
    hide LeadsTo, Step;
    var route :| Route(code, starts, route) && route[|route| - 1] == address;
    var more := route + [target];
    forall i: nat, j: nat | j == i + 1 < |more|
      ensures Step(code, starts, more[i], more[j])
    {
      if j < |route| {
        assert route[i] == more[i] && route[j] == more[j];
      }
    }
    assert Route(code, starts, more);
  }

  lemma RoutePrefix(code: Code, starts: set<nat>, route: seq<nat>)
    requires Route(code, starts, route) && |route| > 1
    ensures Route(code, starts, route[..|route| - 1])
    ensures Step(code, starts, route[|route| - 2], route[|route| - 1])
  {
    hide Step;
    var before := route[..|route| - 1];
    forall i: nat, j: nat | j == i + 1 < |before|
      ensures Step(code, starts, before[i], before[j])
    {
      assert route[i] == before[i] && route[j] == before[j];
    }
  }

  ghost predicate Closed(code: Code, starts: set<nat>, done: set<nat>, all: set<nat>) {
    forall a, t :: a in done && Lifts(code, a) && LeadsTo(code, starts, a, t) ==> t in all
  }

  // Every set that holds the functions of the images and is closed holds whatever a route leads to.
  lemma {:induction false} ClosedHoldsRoutes(code: Code, starts: set<nat>, all: set<nat>, route: seq<nat>)
    requires starts <= all && Closed(code, starts, all, all) && Route(code, starts, route)
    ensures route[|route| - 1] in all
    decreases |route|
  {
    var n := |route| - 1;
    if n > 0 {
      RoutePrefix(code, starts, route);
      ClosedHoldsRoutes(code, starts, all, route[..n]);
      assert Step(code, starts, route[n - 1], route[n]);
    }
  }

  // Inside a function of the images; and if it is not its start, at a word.
  ghost predicate Inside(starts: set<nat>, address: nat) {
    address in starts
    || (address % 4 == 0 && exists owner, next ::
          owner in starts && IsOwner(starts, address, owner) && IsNext(starts, owner, next) && owner <= address < next)
  }

  ghost predicate AllInside(starts: set<nat>, all: set<nat>) {
    forall a :: a in all ==> Inside(starts, a)
  }

  lemma InsideOwner(starts: set<nat>, address: nat) returns (owner: nat)
    requires Inside(starts, address)
    ensures owner in starts && IsOwner(starts, address, owner)
  {
    if address in starts {
      owner := address;
    } else {
      var o, next :| o in starts && IsOwner(starts, address, o) && IsNext(starts, o, next) && o <= address < next;
      owner := o;
    }
  }

  // A jump table leads from inside a function of the images to a word of the same one.
  lemma TargetInside(code: Code, starts: set<nat>, address: nat, target: nat, owner: nat)
    requires Inside(starts, address) && LeadsTo(code, starts, address, target) && IsOwner(starts, address, owner)
    ensures Inside(starts, target) && IsOwner(starts, target, owner)
  {
    hide IsOwner, IsNext, Resolved;
    var pc, o, next :| pc in code.stored(address) && IsOwner(starts, address, o) && IsNext(starts, o, next)
      && target in Resolved(pc, o, next);
    var own := InsideOwner(starts, address);
    OwnerIsOne(starts, address, o, owner);
    OwnerIsOne(starts, address, o, own);
    TargetsInside(pc, owner, next, target);
    TargetKeepsOwner(starts, address, owner, next, target);
  }

  // Above every function of the images and its range.
  lemma Top(starts: set<nat>) returns (top: nat)
    ensures forall a: nat :: Inside(starts, a) ==> a < top
  {
    var greatest: nat := 0;
    var rest := starts;
    while rest != {}
      invariant rest <= starts && forall s :: s in starts && s !in rest ==> s <= greatest
      decreases |rest|
    {
      var s :| s in rest;
      rest := rest - {s};
      greatest := if s > greatest then s else greatest;
    }
    top := greatest + SPAN;
  }

  ghost predicate Distinct(log: seq<nat>) {
    forall i, j :: 0 <= i < j < |log| ==> log[i] != log[j]
  }

  ghost predicate Lists(log: seq<nat>, all: set<nat>) {
    Distinct(log) && forall a :: a in log <==> a in all
  }

  lemma ListsMore(log: seq<nat>, all: set<nat>, address: nat)
    requires Lists(log, all) && address !in all
    ensures Lists(log + [address], all + {address})
  {
    assert forall i :: 0 <= i < |log| ==> log[i] in log;
  }

  // The members that lift, and those that do not.
  ghost function Lifted(code: Code, all: set<nat>): set<nat> {
    set a | a in all && Lifts(code, a)
  }

  ghost function Failed(code: Code, all: set<nat>): set<nat> {
    set a | a in all && !Lifts(code, a)
  }

  // What the tables of some members lead to outside all.
  ghost predicate Leads(code: Code, starts: set<nat>, from: set<nat>, all: set<nat>, target: nat) {
    target !in all && exists a :: a in from && Lifts(code, a) && LeadsTo(code, starts, a, target)
  }

  ghost predicate Found(code: Code, starts: set<nat>, from: set<nat>, all: set<nat>, found: set<nat>) {
    forall t :: t in found <==> Leads(code, starts, from, all, t)
  }

  class Lifter {
    // The addresses that are functions, the functions lifted, and every address lifting was tried at.
    var functions: set<nat>
    var lifted: set<nat>
    var failures: nat
    var tableTargets: nat
    ghost var log: seq<nat>

    constructor (starts: set<nat>)
      ensures functions == starts && lifted == {} && failures == 0 && tableTargets == 0 && log == []
    {
      functions, lifted, failures, tableTargets, log := starts, {}, 0, 0, [];
    }

    // One round over the addresses still to lift, least first.
    method Round(code: Code, starts: set<nat>, pending: set<nat>, ghost done: set<nat>) returns (discovered: set<nat>)
      requires Parted(functions, pending, done) && Counted(code, done, Tally(lifted, failures, log))
      modifies this`lifted, this`failures, this`log
      ensures Found(code, starts, pending, functions, discovered)
      ensures Counted(code, functions, Tally(lifted, failures, log))
    {
      hide LeadsTo, IsOwner, Counted, Found, Lifts, Parted;
      discovered := {};
      var rest := pending;
      ghost var all, tried, passed := functions, done, {};
      NothingFound(code, starts, all);
      Untried(all, pending, done);
      while rest != {}
        invariant functions == all && Parted(pending, rest, passed) && Parted(all, rest, tried)
        invariant Found(code, starts, passed, all, discovered)
        invariant Counted(code, tried, Tally(lifted, failures, log))
        decreases |rest|
      {
        ghost var before := log;
        var address := Ordering.Least(rest);
        Advance(pending, rest, passed, address);
        Advance(all, rest, tried, address);
        LiftedInside(code, tried, Tally(lifted, failures, log), all, address);
        log := log + [address];
        if Lifts(code, address) {
          CountedLifted(code, tried, Tally(lifted, failures, before), address);
          lifted := lifted + {address};
          discovered := Discover(code, starts, address, discovered, passed);
        } else {
          CountedFailed(code, tried, Tally(lifted, failures, before), address);
          FoundSame(code, starts, passed, all, discovered, address);
          failures := failures + 1;
        }
        rest := rest - {address};
        tried, passed := tried + {address}, passed + {address};
      }
      AllTried(pending, passed);
      AllTried(all, tried);
    }

    // What the tables of a lifted function lead to that is no function yet.
    method Discover(code: Code, starts: set<nat>, address: nat, discovered: set<nat>, ghost passed: set<nat>)
      returns (r: set<nat>)
      requires Found(code, starts, passed, functions, discovered) && Lifts(code, address)
      requires lifted <= functions
      ensures Found(code, starts, passed + {address}, functions, r)
    {
      hide LeadsTo, IsOwner, Found;
      var owner := Owner(starts, address);
      var targets := Targets(code, starts, address, owner);
      var unseen := set t | t in targets && t !in functions && t !in lifted;
      FoundMore(code, starts, passed, functions, discovered, address, unseen);
      r := discovered + unseen;
    }

    // Lifts until nothing new is found. `functions` is then the least set that holds the functions of the images and every
    // target of a lifted member; lifting was tried at each of them once.
    method LiftAll(code: Code, starts: set<nat>)
      requires functions == starts && lifted == {} && failures == 0 && tableTargets == 0 && log == []
      modifies this
      ensures forall a :: a in functions <==> Reached(code, starts, a)
      ensures lifted == Lifted(code, functions)
      ensures Lists(log, functions)
      ensures AllInside(starts, functions)
      ensures failures == |Failed(code, functions)| && tableTargets == |functions - starts|
    {
      hide Found, Progress, Counted, Room, Parted, Reached, Lifted, Failed, Lists, AllInside, Inside;
      ghost var top := Top(starts);
      var pending := functions;
      ghost var done := {};
      Initially(code, starts);
      while pending != {}
        invariant Parted(functions, pending, done)
        invariant Progress(code, starts, done, functions, tableTargets)
        invariant Counted(code, done, Tally(lifted, failures, log))
        decreases Room(functions, top), |pending|
      {
        ghost var all := functions;
        var discovered := Round(code, starts, pending, done);
        RoundKeeps(code, starts, done, pending, all, discovered, tableTargets, top);
        tableTargets := tableTargets + |discovered|;
        functions := functions + discovered;
        done := all;
        pending := discovered;
      }
      AllTried(functions, done);
      AtTheEnd(code, starts, functions, tableTargets, Tally(lifted, failures, log));
    }
  }

  datatype Tally = Tally(lifted: set<nat>, failures: nat, log: seq<nat>)

  // Each of some addresses was tried once, and lifted or counted as a failure.
  ghost predicate Counted(code: Code, done: set<nat>, t: Tally) {
    t.lifted == Lifted(code, done) && t.failures == |Failed(code, done)| && Lists(t.log, done)
  }

  lemma CountedLifted(code: Code, done: set<nat>, t: Tally, address: nat)
    requires Counted(code, done, t) && address !in done && Lifts(code, address)
    ensures Counted(code, done + {address}, Tally(t.lifted + {address}, t.failures, t.log + [address]))
  {
    hide Lists;
    ListsMore(t.log, done, address);
    LiftedMore(code, done, address);
  }

  lemma CountedFailed(code: Code, done: set<nat>, t: Tally, address: nat)
    requires Counted(code, done, t) && address !in done && !Lifts(code, address)
    ensures Counted(code, done + {address}, Tally(t.lifted, t.failures + 1, t.log + [address]))
  {
    hide Lists;
    ListsMore(t.log, done, address);
    LiftedMore(code, done, address);
  }

  lemma LiftedInside(code: Code, done: set<nat>, t: Tally, all: set<nat>, address: nat)
    requires Counted(code, done, t) && done <= all && address in all
    ensures t.lifted + {address} <= all
  {
  }

  // What is left of a set, and what is done of it.
  ghost predicate Parted(all: set<nat>, rest: set<nat>, done: set<nat>) {
    rest <= all && done == all - rest
  }

  lemma Untried(all: set<nat>, pending: set<nat>, done: set<nat>)
    requires Parted(all, pending, done)
    ensures Parted(pending, pending, {}) && pending <= all
  {
  }

  lemma AllTried(all: set<nat>, done: set<nat>)
    requires Parted(all, {}, done)
    ensures done == all
  {
  }

  lemma Advance(all: set<nat>, rest: set<nat>, done: set<nat>, address: nat)
    requires Parted(all, rest, done) && address in rest
    ensures address !in done && address in all && done <= all
    ensures Parted(all, rest - {address}, done + {address})
  {
  }

  // The functions so far: those of the images and what the tables of the ones done lead to.
  ghost predicate Progress(code: Code, starts: set<nat>, done: set<nat>, all: set<nat>, tableTargets: nat) {
    && starts <= all && tableTargets == |all - starts|
    && AllInside(starts, all) && AllReached(code, starts, all) && Closed(code, starts, done, all)
  }

  lemma AtTheEnd(code: Code, starts: set<nat>, all: set<nat>, tableTargets: nat, t: Tally)
    requires Progress(code, starts, all, all, tableTargets) && Counted(code, all, t)
    ensures forall a :: a in all <==> Reached(code, starts, a)
    ensures t.lifted == Lifted(code, all) && Lists(t.log, all) && AllInside(starts, all)
    ensures t.failures == |Failed(code, all)| && tableTargets == |all - starts|
  {
    ReachedExactly(code, starts, all);
  }

  ghost predicate AllReached(code: Code, starts: set<nat>, all: set<nat>) {
    forall a :: a in all ==> Reached(code, starts, a)
  }

  ghost function Below(top: nat): (r: set<nat>)
    ensures forall t: nat :: t in r <==> t < top
  {
    if top == 0 then {} else Below(top - 1) + {top - 1}
  }

  ghost function Room(all: set<nat>, top: nat): nat {
    |Below(top) - all|
  }

  lemma RoomShrinks(all: set<nat>, discovered: set<nat>, top: nat)
    requires all !! discovered && forall t :: t in discovered ==> t < top
    ensures Room(all + discovered, top) == Room(all, top) - |discovered|
  {
    assert Below(top) - all == (Below(top) - (all + discovered)) + discovered;
  }

  lemma NothingFound(code: Code, starts: set<nat>, all: set<nat>)
    ensures Found(code, starts, {}, all, {})
  {
  }

  lemma Initially(code: Code, starts: set<nat>)
    ensures Counted(code, {}, Tally({}, 0, [])) && Progress(code, starts, {}, starts, 0) && Parted(starts, starts, {})
  {
    forall a | a in starts
      ensures Reached(code, starts, a)
    {
      StartsReached(code, starts, a);
    }
  }

  lemma LiftedMore(code: Code, done: set<nat>, address: nat)
    requires address !in done
    ensures Lifted(code, done + {address}) == Lifted(code, done) + if Lifts(code, address) then {address} else {}
    ensures |Failed(code, done + {address})| == |Failed(code, done)| + if Lifts(code, address) then 0 else 1
  {
    hide Lifts;
    if Lifts(code, address) {
      assert Lifted(code, done + {address}) == Lifted(code, done) + {address};
      assert Failed(code, done + {address}) == Failed(code, done);
    } else {
      assert Lifted(code, done + {address}) == Lifted(code, done);
      assert Failed(code, done + {address}) == Failed(code, done) + {address};
    }
  }

  lemma FoundSame(code: Code, starts: set<nat>, done: set<nat>, all: set<nat>, found: set<nat>, address: nat)
    requires Found(code, starts, done, all, found) && !Lifts(code, address)
    ensures Found(code, starts, done + {address}, all, found)
  {
    hide LeadsTo;
    forall t
      ensures Leads(code, starts, done, all, t) <==> Leads(code, starts, done + {address}, all, t)
    {
      if a :| t !in all && a in done && Lifts(code, a) && LeadsTo(code, starts, a, t) {
        assert a in done + {address};
      }
    }
  }

  lemma FoundMore(code: Code, starts: set<nat>, done: set<nat>, all: set<nat>, found: set<nat>, address: nat, more: set<nat>)
    requires Found(code, starts, done, all, found) && Lifts(code, address)
    requires forall t :: t in more <==> t !in all && LeadsTo(code, starts, address, t)
    ensures Found(code, starts, done + {address}, all, found + more)
  {
    hide LeadsTo;
    forall t
      ensures t in found + more <==> Leads(code, starts, done + {address}, all, t)
    {
      if t in found {
        var a :| a in done && Lifts(code, a) && LeadsTo(code, starts, a, t);
        assert a in done + {address};
      }
      if t in more {
        assert address in done + {address};
      }
    }
  }

  // What a round keeps.
  lemma RoundKeeps(code: Code, starts: set<nat>, before: set<nat>, pending: set<nat>, all: set<nat>, discovered: set<nat>,
                   tableTargets: nat, top: nat)
    requires Parted(all, pending, before) && Progress(code, starts, before, all, tableTargets)
    requires forall a: nat :: Inside(starts, a) ==> a < top
    requires Found(code, starts, pending, all, discovered)
    ensures Parted(all + discovered, discovered, all) && Room(all + discovered, top) == Room(all, top) - |discovered|
    ensures Progress(code, starts, all, all + discovered, tableTargets + |discovered|)
  {
    hide Inside, LeadsTo, Reached, Room;
    var both := all + discovered;
    forall t | t in discovered
      ensures Inside(starts, t) && Reached(code, starts, t) && t !in all
    {
      FoundInside(code, starts, pending, all, t);
    }
    assert AllInside(starts, both) && AllReached(code, starts, both);
    assert all == before + pending;
    FoundCloses(code, starts, before, pending, all, discovered);
    hide AllInside, AllReached, Closed, Found;
    RoomShrinks(all, discovered, top);
    Grows(starts, all, discovered);
  }

  lemma Grows(starts: set<nat>, all: set<nat>, discovered: set<nat>)
    requires starts <= all && all !! discovered
    ensures Parted(all + discovered, discovered, all) && starts <= all + discovered
    ensures |all + discovered - starts| == |all - starts| + |discovered|
  {
    assert all + discovered - starts == (all - starts) + discovered;
  }

  lemma FoundInside(code: Code, starts: set<nat>, pending: set<nat>, all: set<nat>, t: nat)
    requires Leads(code, starts, pending, all, t) && pending <= all && AllInside(starts, all) && AllReached(code, starts, all)
    ensures Inside(starts, t) && Reached(code, starts, t)
  {
    hide Inside, LeadsTo, Reached;
    var a :| a in pending && Lifts(code, a) && LeadsTo(code, starts, a, t);
    var owner := InsideOwner(starts, a);
    TargetInside(code, starts, a, t, owner);
    ReachedMore(code, starts, a, t);
  }

  lemma FoundCloses(code: Code, starts: set<nat>, before: set<nat>, pending: set<nat>, all: set<nat>, discovered: set<nat>)
    requires all == before + pending && Closed(code, starts, before, all) && Found(code, starts, pending, all, discovered)
    ensures Closed(code, starts, all, all + discovered)
  {
    hide LeadsTo;
    forall a, t | a in all && Lifts(code, a) && LeadsTo(code, starts, a, t)
      ensures t in all + discovered
    {
      if a in pending && t !in all {
        assert Leads(code, starts, pending, all, t);
      }
    }
  }

  // A closed set of reached addresses that holds the functions of the images is all that is reached.
  lemma ReachedExactly(code: Code, starts: set<nat>, all: set<nat>)
    requires starts <= all && Closed(code, starts, all, all) && AllReached(code, starts, all)
    ensures forall a :: a in all <==> Reached(code, starts, a)
  {
    forall a | Reached(code, starts, a)
      ensures a in all
    {
      var route :| Route(code, starts, route) && route[|route| - 1] == a;
      ClosedHoldsRoutes(code, starts, all, route);
    }
  }

  // Whatever is reached has the owner of the function it is reached from.
  lemma {:induction false} RouteKeepsOwner(code: Code, starts: set<nat>, route: seq<nat>)
    requires Route(code, starts, route)
    ensures Inside(starts, route[|route| - 1]) && IsOwner(starts, route[|route| - 1], route[0])
    decreases |route|
  {
    var n := |route| - 1;
    if n > 0 {
      RoutePrefix(code, starts, route);
      RouteKeepsOwner(code, starts, route[..n]);
      assert Step(code, starts, route[n - 1], route[n]);
      TargetInside(code, starts, route[n - 1], route[n], route[0]);
    }
  }
}
