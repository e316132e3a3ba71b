/** The jump tables of a lifted function: the scan of one table up to where its guards or its entries end it, and the function
  * every target belongs to. What the scan evaluates (guards, addresses, entries) is given as functions of the index.
  */
module JumpTables {
  import opened Wrappers
  import Ordering

  const CAP: nat := 4096
  const SPAN: nat := 0x100000

  // A branch on the way to the table's load, as the value of its condition and the way it must go.
  datatype Guard = Guard(value: nat -> Option<nat>, taken: bool)

  // A stored program counter: what has no single load and index, or the table it is computed from. `known` is the greatest
  // index the ranges of the function's values allow, if they say.
  datatype Pc = Other | Table(known: Option<nat>, guards: seq<Guard>, width: nat, address: nat -> Option<nat>,
                              read: nat -> Option<nat>, target: (nat, nat) -> Option<nat>)

  datatype Outcome = Abort | Miss | Hit(target: nat)

  function Limit(t: Pc): nat
    requires t.Table?
  {
    if t.known.Some? && t.known.value + 1 < CAP then t.known.value + 1 else CAP
  }

  // A guard that needs nothing but the index.
  predicate Usable(g: Guard) {
    g.value(0).Some? && g.value(1).Some?
  }

  ghost predicate Admits(t: Pc, i: nat)
    requires t.Table?
  {
    forall g :: g in t.guards && Usable(g) && g.value(i).Some? ==> ((g.value(i).value != 0) == g.taken)
  }

  ghost predicate Guarded(t: Pc)
    requires t.Table?
  {
    exists g :: g in t.guards && Usable(g)
  }

  function Entry(t: Pc, i: nat, start: nat, end: nat): Outcome
    requires t.Table?
  {
    match t.address(i)
    case None => Abort
    case Some(address) =>
      match t.read(address)
      case None => Abort
      case Some(raw) =>
        match t.target(i, raw)
        case None => Miss
        case Some(target) => if start <= target < end && target % 4 == 0 then Hit(target) else Miss
  }

  // The targets of the admitted entries below n.
  ghost function Hits(t: Pc, start: nat, end: nat, n: nat): set<nat>
    requires t.Table?
  {
    if n == 0 then {}
    else
      Hits(t, start, end, n - 1)
      + if Admits(t, n - 1) && Entry(t, n - 1, start, end).Hit? then {Entry(t, n - 1, start, end).target} else {}
  }

  // Where the scan ends early: it left the domain it was in, could not read the table, or met nonsense in a table that
  // nothing bounds.
  ghost predicate Stops(t: Pc, start: nat, end: nat, i: nat)
    requires t.Table?
  {
    if !Admits(t, i) then Hits(t, start, end, i) != {}
    else
      var entry := Entry(t, i, start, end);
      entry.Abort? || (entry.Miss? && Limit(t) == CAP && !Guarded(t))
  }

  ghost function ScanEnd(t: Pc, start: nat, end: nat, i: nat): (n: nat)
    requires t.Table? && i <= Limit(t)
    ensures i <= n <= Limit(t) && forall j :: i <= j < n ==> !Stops(t, start, end, j)
    ensures n < Limit(t) ==> Stops(t, start, end, n)
    decreases Limit(t) - i
  {
    if i == Limit(t) || Stops(t, start, end, i) then i else ScanEnd(t, start, end, i + 1)
  }

  ghost function Resolved(t: Pc, start: nat, end: nat): set<nat> {
    if t.Other? || t.width == 0 || t.width > 8 then {} else Hits(t, start, end, ScanEnd(t, start, end, 0))
  }

  ghost predicate AreUsable(t: Pc, guards: seq<Guard>)
    requires t.Table?
  {
    forall g :: g in guards <==> g in t.guards && Usable(g)
  }

  method UsableGuards(t: Pc) returns (guards: seq<Guard>)
    requires t.Table?
    ensures AreUsable(t, guards) && (guards == [] <==> !Guarded(t))
  {
    guards := [];
    for k := 0 to |t.guards|
      invariant forall g :: g in guards <==> g in t.guards[..k] && Usable(g)
    {
      assert t.guards[..k + 1] == t.guards[..k] + [t.guards[k]];
      if t.guards[k].value(0).Some? && t.guards[k].value(1).Some? {
        guards := guards + [t.guards[k]];
      }
    }
    assert t.guards[..|t.guards|] == t.guards;
    if guards != [] {
      assert guards[0] in guards;
    }
  }

  method InDomain(t: Pc, guards: seq<Guard>, i: nat) returns (r: bool)
    requires t.Table? && AreUsable(t, guards)
    ensures r <==> Admits(t, i)
  {
    for k := 0 to |guards|
      invariant forall g :: g in guards[..k] && g.value(i).Some? ==> ((g.value(i).value != 0) == g.taken)
    {
      var value := guards[k].value(i);
      if value.Some? && (value.value != 0) != guards[k].taken {
        assert guards[k] in guards;
        return false;
      }
      assert guards[..k + 1] == guards[..k] + [guards[k]];
    }
    assert guards[..|guards|] == guards;
    return true;
  }

  lemma ScanStep(t: Pc, start: nat, end: nat, i: nat)
    requires t.Table? && i < Limit(t)
    ensures ScanEnd(t, start, end, i) == if Stops(t, start, end, i) then i else ScanEnd(t, start, end, i + 1)
    ensures Hits(t, start, end, i + 1) == Hits(t, start, end, i) +
            if Admits(t, i) && Entry(t, i, start, end).Hit? then {Entry(t, i, start, end).target} else {}
  {
    hide Admits, Entry, Stops;
  }

  lemma Begins(t: Pc, start: nat, end: nat)
    requires t.Table?
    ensures Hits(t, start, end, 0) == {}
    ensures ScanEnd(t, start, end, Limit(t)) == Limit(t)
  {
  }

  // Adds a table's targets.
  method Resolve(pc: Pc, start: nat, end: nat, targets0: set<nat>) returns (targets: set<nat>)
    ensures targets == targets0 + Resolved(pc, start, end)
  {
    hide Admits, Guarded, Hits, ScanEnd, Entry, AreUsable;
    targets := targets0;
    if pc.Other? {
      return;
    }
    var limit: nat := CAP;
    if pc.known.Some? && pc.known.value + 1 < limit {
      limit := pc.known.value + 1;
    }
    var guards := UsableGuards(pc);
    if pc.width == 0 || pc.width > 8 {
      return;
    }
    Begins(pc, start, end);
    var accepted := false;
    var i := 0;
    while i < limit
      invariant i <= limit && ScanEnd(pc, start, end, 0) == ScanEnd(pc, start, end, i)
      invariant targets == targets0 + Hits(pc, start, end, i)
      invariant accepted <==> Hits(pc, start, end, i) != {}
    {
      ScanStep(pc, start, end, i);
      var inDomain := InDomain(pc, guards, i);
      if !inDomain {
        if accepted {
          return;
        }
        i := i + 1;
        continue;
      }
      var entry := ReadEntry(pc, i, start, end);
      match entry {
        case Abort =>
          return;
        case Miss =>
          if limit == CAP && guards == [] {
            return;
          }
        case Hit(target) =>
          targets := targets + {target};
          accepted := true;
      }
      i := i + 1;
    }
  }

  method ReadEntry(pc: Pc, i: nat, start: nat, end: nat) returns (entry: Outcome)
    requires pc.Table?
    ensures entry == Entry(pc, i, start, end)
  {
    var address := pc.address(i);
    if address.None? {
      return Abort;
    }
    var raw := pc.read(address.value);
    if raw.None? {
      return Abort;
    }
    var target := pc.target(i, raw.value);
    if target.None? || target.value < start || target.value >= end || target.value % 4 != 0 {
      return Miss;
    }
    return Hit(target.value);
  }

  // --- what the scan finds ---

  lemma {:induction false} HitsAre(t: Pc, start: nat, end: nat, n: nat, target: nat)
    requires t.Table?
    ensures target in Hits(t, start, end, n) <==> exists i: nat :: i < n && Admits(t, i) && Entry(t, i, start, end) == Hit(target)
    decreases n
  {
    if n > 0 {
      HitsAre(t, start, end, n - 1, target);
      if Admits(t, n - 1) && Entry(t, n - 1, start, end) == Hit(target) {
        assert target in Hits(t, start, end, n);
      }
    }
  }

  // Every guard that needs the index alone goes the way to the load.
  ghost predicate Passes(t: Pc, i: nat)
    requires t.Table?
  {
    forall g :: g in t.guards && g.value(0).Some? && g.value(1).Some? ==>
      match g.value(i)
      case None => true
      case Some(v) => if g.taken then v != 0 else v == 0
  }

  // Entry i can be read, and gives a word of the function.
  predicate ReadsAt(t: Pc, i: nat)
    requires t.Table?
  {
    t.address(i).Some? && t.read(t.address(i).value).Some?
  }

  predicate GivesAt(t: Pc, start: nat, end: nat, i: nat, target: nat)
    requires t.Table?
  {
    && ReadsAt(t, i) && t.target(i, t.read(t.address(i).value).value) == Some(target)
    && start <= target < end && target % 4 == 0
  }

  // Something bounds the table: its guards, or a known range of the index within the cap.
  ghost predicate IsBounded(t: Pc)
    requires t.Table?
  {
    || (t.known.Some? && t.known.value < 4095)
    || exists g :: g in t.guards && g.value(0).Some? && g.value(1).Some?
  }

  // The scan goes on past index j: outside the guards' domain as long as nothing has been found, inside it past what can be read
  // and gives a word of the function, or past any that can be read if something bounds the table.
  ghost predicate GoesPast(t: Pc, start: nat, end: nat, j: nat)
    requires t.Table?
  {
    if Passes(t, j) then ReadsAt(t, j) && (IsBounded(t) || exists target :: GivesAt(t, start, end, j, target))
    else forall k: nat, target :: k < j && Passes(t, k) ==> !GivesAt(t, start, end, k, target)
  }

  // The scan gets to index i and takes its entry.
  ghost predicate TakesAt(t: Pc, start: nat, end: nat, i: nat, target: nat)
    requires t.Table?
  {
    && i < 4096 && (t.known.Some? ==> i <= t.known.value) && Passes(t, i) && GivesAt(t, start, end, i, target)
    && forall j: nat :: j < i ==> GoesPast(t, start, end, j)
  }

  // The targets of a table are those of the entries the scan gets to.
  lemma ResolvedIs(t: Pc, start: nat, end: nat, target: nat)
    ensures target in Resolved(t, start, end) <==>
            t.Table? && 1 <= t.width <= 8 && exists i: nat :: TakesAt(t, start, end, i, target)
  {
    if t.Table? {
      var n := ScanEnd(t, start, end, 0);
      HitsAre(t, start, end, n, target);
      forall i: nat ensures Admits(t, i) <==> Passes(t, i) {
        AdmitsIs(t, i);
      }
      forall i: nat, found: nat ensures Entry(t, i, start, end) == Hit(found) <==> GivesAt(t, start, end, i, found) {
        EntryIs(t, start, end, i, found);
      }
      hide Entry, GivesAt, Passes, Admits;
      forall j: nat ensures Stops(t, start, end, j) <==> !GoesPast(t, start, end, j) {
        StopsIs(t, start, end, j);
      }
      hide Stops, GoesPast, Hits;
      if target in Hits(t, start, end, n) {
        var i: nat :| i < n && Admits(t, i) && Entry(t, i, start, end) == Hit(target);
        assert TakesAt(t, start, end, i, target);
      }
      if i: nat :| TakesAt(t, start, end, i, target) {
        assert !Stops(t, start, end, i) by {
          EntryIs(t, start, end, i, target);
          AdmitsIs(t, i);
          HitGoesOn(t, start, end, i);
        }
        assert i < Limit(t);
        assert i < n;
      }
    }
  }

  lemma AdmitsIs(t: Pc, i: nat)
    requires t.Table?
    ensures Admits(t, i) <==> Passes(t, i)
    ensures IsBounded(t) <==> Guarded(t) || Limit(t) < CAP
  {
  }

  lemma EntryIs(t: Pc, start: nat, end: nat, i: nat, target: nat)
    requires t.Table?
    ensures Entry(t, i, start, end) == Hit(target) <==> GivesAt(t, start, end, i, target)
    ensures Entry(t, i, start, end).Abort? <==> !ReadsAt(t, i)
  {
  }

  lemma HitGoesOn(t: Pc, start: nat, end: nat, i: nat)
    requires t.Table? && Admits(t, i) && Entry(t, i, start, end).Hit?
    ensures !Stops(t, start, end, i)
  {
  }

  lemma StopsIs(t: Pc, start: nat, end: nat, j: nat)
    requires t.Table?
    ensures Stops(t, start, end, j) <==> !GoesPast(t, start, end, j)
  {
    AdmitsIs(t, j);
    EntryIs(t, start, end, j, 0);
    forall k: nat, target: nat
      ensures Admits(t, k) <==> Passes(t, k)
      ensures Entry(t, k, start, end) == Hit(target) <==> GivesAt(t, start, end, k, target)
    {
      AdmitsIs(t, k);
      EntryIs(t, start, end, k, target);
    }
    forall target: nat ensures target in Hits(t, start, end, j) <==>
                          exists k: nat :: k < j && Admits(t, k) && Entry(t, k, start, end) == Hit(target) {
      HitsAre(t, start, end, j, target);
    }
    hide Entry, Admits, Passes, GivesAt, Hits, ReadsAt, IsBounded, Guarded;
    if Hits(t, start, end, j) != {} {
      var found :| found in Hits(t, start, end, j);
    }
    var entry := Entry(t, j, start, end);
    if entry.Hit? {
      assert GivesAt(t, start, end, j, entry.target);
    }
  }

  // Every target is a word of its own function.
  lemma TargetsInside(t: Pc, start: nat, end: nat, target: nat)
    requires target in Resolved(t, start, end)
    ensures start <= target < end && target % 4 == 0
  {
    HitsAre(t, start, end, ScanEnd(t, start, end, 0), target);
  }

  // The guards admit one interval.
  ghost predicate OneInterval(t: Pc)
    requires t.Table?
  {
    forall i: nat, j: nat, k: nat :: i <= j <= k && Admits(t, i) && Admits(t, k) ==> Admits(t, j)
  }

  ghost predicate Readable(t: Pc, start: nat, end: nat)
    requires t.Table?
  {
    forall i: nat :: i < Limit(t) && Admits(t, i) ==> !Entry(t, i, start, end).Abort?
  }

  // Where the guards admit one interval, the table can be read and something bounds it, stopping early finds what reading
  // every admitted entry would.
  lemma EarlyStopIsFullScan(t: Pc, start: nat, end: nat)
    requires t.Table? && OneInterval(t) && Readable(t, start, end) && (Guarded(t) || Limit(t) < CAP)
    ensures Hits(t, start, end, ScanEnd(t, start, end, 0)) == Hits(t, start, end, Limit(t))
  {
    hide Admits, Guarded;
    var n := ScanEnd(t, start, end, 0);
    forall target
      ensures target in Hits(t, start, end, n) <==> target in Hits(t, start, end, Limit(t))
    {
      HitsAre(t, start, end, n, target);
      HitsAre(t, start, end, Limit(t), target);
      if i: nat :| i < Limit(t) && Admits(t, i) && Entry(t, i, start, end) == Hit(target) {
        if i >= n {
          // Stopped at n, outside the domain after a hit inside it, and yet admitted again at i.
          var hit :| hit in Hits(t, start, end, n);
          HitsAre(t, start, end, n, hit);
        }
      }
    }
  }

  // --- which function an address belongs to ---

  ghost predicate IsOwner(starts: set<nat>, address: nat, owner: nat) {
    if exists s :: s in starts && s <= address then
      owner in starts && owner <= address && forall s :: s in starts && s <= address ==> s <= owner
    else owner == address
  }

  ghost predicate IsNext(starts: set<nat>, address: nat, next: nat) {
    if exists s :: s in starts && s > address then
      next in starts && next > address && forall s :: s in starts && s > address ==> next <= s
    else next == address + 0x100000
  }

  method NextFunction(starts: set<nat>, start: nat) returns (next: nat)
    ensures IsNext(starts, start, next)
  {
    var above := set s | s in starts && s > start;
    assert forall s :: s in starts && s > start ==> s in above;
    if above == {} {
      return start + SPAN;
    }
    next := Ordering.Least(above);
    assert next in starts && next > start;
  }

  method Owner(starts: set<nat>, address: nat) returns (owner: nat)
    ensures IsOwner(starts, address, owner)
  {
    var below := set s | s in starts && s <= address;
    assert forall s :: s in starts && s <= address ==> s in below;
    if below == {} {
      return address;
    }
    var sorted := Ordering.Sorted(below);
    assert forall s :: s in starts && s <= address ==> s in sorted;
    assert forall s :: s in sorted ==> s in below;
    owner := sorted[|sorted| - 1];
    assert owner in sorted;
  }

  lemma OwnerIsOne(starts: set<nat>, address: nat, a: nat, b: nat)
    requires IsOwner(starts, address, a) && IsOwner(starts, address, b)
    ensures a == b
  {
  }

  lemma NextIsOne(starts: set<nat>, address: nat, a: nat, b: nat)
    requires IsNext(starts, address, a) && IsNext(starts, address, b)
    ensures a == b
  {
  }

  // A target inside the function that owns an address has the same owner.
  lemma TargetKeepsOwner(starts: set<nat>, address: nat, owner: nat, next: nat, target: nat)
    requires IsOwner(starts, address, owner) && owner in starts && IsNext(starts, owner, next) && owner <= target < next
    ensures IsOwner(starts, target, owner)
  {
  }
}
