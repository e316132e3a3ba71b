/** The tables of Swift classes that keep the guest's layout: each is built a host class, once and after its superclasses, and
  * the two tables that pair them invert each other over every run.
  */
module SwiftClasses {
  import opened Wrappers

  // The part of a guest class object and its class_ro_t that the tables depend on. `isa` and `superclass` are 0 for none.
  datatype GuestClass = GuestClass(isa: nat, superclass: nat, ro: Option<GuestRo>)

  datatype GuestRo = GuestRo(meta: bool, name: Option<string>)

  // A host class: its metaclass, and its superclass (0 for none).
  datatype HostClass = HostClass(meta: nat, superclass: nat)

  type Memory = map<nat, GuestClass>

  predicate IsClass(guest: Memory, g: nat) {
    g in guest && guest[g].ro.Some? && !guest[g].ro.value.meta
  }

  // What set-up makes of the static list: each class, and its metaclass, mapped to the class of the pair.
  function Owners(guest: Memory, list: seq<nat>): map<nat, nat> {
    if list == [] then map[] else WithPair(guest, Owners(guest, list[..|list| - 1]), list[|list| - 1])
  }

  function WithPair(guest: Memory, owners: map<nat, nat>, g: nat): map<nat, nat> {
    if !IsClass(guest, g) then owners
    else if guest[g].isa == 0 then owners[g := g]
    else owners[g := g][guest[g].isa := g]
  }

  // No metaclass belongs to two classes or is a class, and 0 is no class.
  ghost predicate Unshared(guest: Memory) {
    && 0 !in guest
    && (forall g :: IsClass(guest, g) && guest[g].isa != 0 ==> !IsClass(guest, guest[g].isa))
    && (forall g, h :: IsClass(guest, g) && IsClass(guest, h) && guest[g].isa != 0 && guest[g].isa == guest[h].isa ==> g == h)
  }

  // Every entry maps a class or its metaclass to the class, and both of a pair are there together.
  ghost predicate PairMap(guest: Memory, owners: map<nat, nat>) {
    forall x :: x in owners ==> Paired(guest, owners, x)
  }

  ghost predicate Paired(guest: Memory, owners: map<nat, nat>, x: nat)
    requires x in owners
  {
    && IsClass(guest, owners[x]) && owners[x] in owners && owners[owners[x]] == owners[x]
    && (x == owners[x] || x == guest[owners[x]].isa != 0)
    && (guest[owners[x]].isa != 0 ==> guest[owners[x]].isa in owners && owners[guest[owners[x]].isa] == owners[x])
  }

  lemma WithPairKeeps(guest: Memory, owners: map<nat, nat>, g: nat)
    requires Unshared(guest) && PairMap(guest, owners)
    ensures PairMap(guest, WithPair(guest, owners, g))
  {
    if IsClass(guest, g) {
      var after := WithPair(guest, owners, g);
      forall x | x in after ensures Paired(guest, after, x) {
        if x in owners && x != g && x != guest[g].isa {
          assert Paired(guest, owners, x);
          KeepsOne(guest, owners, g, x);
        }
      }
    }
  }

  lemma KeepsOne(guest: Memory, owners: map<nat, nat>, g: nat, x: nat)
    requires Unshared(guest) && IsClass(guest, g) && x in owners && Paired(guest, owners, x) && x != g && x != guest[g].isa
    ensures Paired(guest, WithPair(guest, owners, g), x)
  {
    var o := owners[x];
    assert o != guest[g].isa;
    assert guest[o].isa != 0 ==> guest[o].isa != g && (guest[o].isa == guest[g].isa ==> o == g);
  }

  lemma {:induction false} OwnersPair(guest: Memory, list: seq<nat>)
    requires Unshared(guest)
    ensures PairMap(guest, Owners(guest, list))
  {
    if list != [] {
      OwnersPair(guest, list[..|list| - 1]);
      WithPairKeeps(guest, Owners(guest, list[..|list| - 1]), list[|list| - 1]);
    }
  }

  // `x` is a class of the list that is no metaclass, or the metaclass of one.
  ghost predicate Listed(guest: Memory, list: seq<nat>, x: nat) {
    exists i :: 0 <= i < |list| && ListedAt(guest, list, i, x)
  }

  predicate ListedAt(guest: Memory, list: seq<nat>, i: nat, x: nat)
    requires i < |list|
  {
    && list[i] in guest && guest[list[i]].ro.Some? && !guest[list[i]].ro.value.meta
    && (x == list[i] || (x == guest[list[i]].isa && x != 0))
  }

  // Those and no others are what set-up enters.
  lemma {:induction false} OwnersAre(guest: Memory, list: seq<nat>, x: nat)
    ensures x in Owners(guest, list) <==> Listed(guest, list, x)
  {
    if list != [] {
      var n := |list| - 1;
      OwnersAre(guest, list[..n], x);
      assert forall i :: 0 <= i < n ==> (ListedAt(guest, list[..n], i, x) <==> ListedAt(guest, list, i, x));
      assert x in Owners(guest, list) <==> x in Owners(guest, list[..n]) || ListedAt(guest, list, n, x);
    }
  }

  lemma PairAbsent(guest: Memory, owners: map<nat, nat>, g: nat)
    requires Unshared(guest) && PairMap(guest, owners) && IsClass(guest, g) && g !in owners
    ensures guest[g].isa !in owners
  {
  }

  // The superclass chains through static classes end: `rank` falls along them.
  ghost predicate Acyclic(guest: Memory, owners: map<nat, nat>, rank: map<nat, nat>) {
    && (forall g :: IsClass(guest, g) ==> g in rank)
    && (forall g :: IsClass(guest, g) && guest[g].superclass in owners ==>
          owners[guest[g].superclass] in rank && rank[owners[guest[g].superclass]] < rank[g])
  }

  lemma {:induction false} SomeBound(s: set<nat>) returns (m: nat)
    ensures forall x :: x in s ==> x <= m
    decreases |s|
  {
    if s == {} {
      m := 0;
    } else {
      var y :| y in s;
      var rest := SomeBound(s - {y});
      m := if y > rest then y else rest;
      assert forall x :: x in s ==> x == y || x in s - {y};
    }
  }

  // The host-to-guest table inverts the guest-to-host table on `stands`, the classes built and their metaclasses.
  ghost predicate Inverse(stands: set<nat>, stubs: set<nat>, guestToHost: map<nat, nat>, hostToGuest: map<nat, nat>) {
    && (forall x :: x in stands ==> x in guestToHost && guestToHost[x] in hostToGuest && hostToGuest[guestToHost[x]] == x)
    && (forall h :: h in hostToGuest ==>
          hostToGuest[h] in stands && hostToGuest[h] in guestToHost && guestToHost[hostToGuest[h]] == h)
    && (forall x :: x in guestToHost <==> x in stands || x in stubs)
    && (forall x :: x in stubs ==> x !in stands)
  }

  // The shadow of a class and of its metaclass are a host class and its metaclass; no host class has a guest's address.
  ghost predicate HostPairs(guest: Memory, stands: map<nat, nat>, guestToHost: map<nat, nat>, hostToGuest: map<nat, nat>,
                            hosts: map<nat, HostClass>)
  {
    && (forall g :: g in stands && stands[g] == g ==>
          g in guest && g in guestToHost && guestToHost[g] in hosts
          && (guest[g].isa != 0 ==> guest[g].isa in guestToHost && guestToHost[guest[g].isa] == hosts[guestToHost[g]].meta))
    && (forall h :: h in hosts || h in hostToGuest ==> h !in guest && h != 0)
  }

  // Each class is built once.
  ghost predicate BuiltOnce(stands: map<nat, nat>, built: seq<nat>) {
    && (forall i, j :: 0 <= i < j < |built| ==> built[i] != built[j])
    && (forall g :: g in built <==> g in stands && stands[g] == g)
  }

  // A static class or metaclass is unbuilt exactly until it has a shadow, and no stub is one.
  ghost predicate StaticsWait(guest: Memory, pairs: map<nat, nat>, started: bool, unbuilt: map<nat, nat>, stands: map<nat, nat>,
                              stubs: set<nat>)
  {
    && (started ==> forall x :: x in unbuilt <==> x in pairs && x !in stands)
    && (forall x :: x in unbuilt ==> x in pairs && unbuilt[x] == pairs[x])
    && (forall x :: x in stubs ==> x !in pairs && forall g :: IsClass(guest, g) ==> guest[g].isa != x)
  }

  // What the tables answer may be added to but never changes; only classes of `allowed` and static classes gain a shadow,
  // and each of a rank below `bound`.
  datatype Snapshot = Snapshot(guestToHost: map<nat, nat>, stands: map<nat, nat>, stubs: set<nat>, built: seq<nat>)

  ghost predicate Growth(a: Snapshot, b: Snapshot, rank: map<nat, nat>, pairs: map<nat, nat>, bound: nat, allowed: set<nat>) {
    && b.stubs == a.stubs && a.built <= b.built && a.stands.Keys <= b.stands.Keys
    && (forall x :: x in a.guestToHost ==> x in b.guestToHost && b.guestToHost[x] == a.guestToHost[x])
    && (forall x :: x in b.stands && x !in a.stands ==>
          b.stands[x] in rank && rank[b.stands[x]] < bound && (b.stands[x] in allowed || x in pairs))
  }

  lemma GrowthThenPair(guest: Memory, a: Snapshot, b: Snapshot, c: Snapshot, rank: map<nat, nat>, pairs: map<nat, nat>,
                       bound: nat, g: nat)
    requires Growth(a, b, rank, pairs, bound, {}) && g in rank && bound <= rank[g] + 1
    requires Unshared(guest) && PairMap(guest, b.stands) && IsClass(guest, g) && g !in b.stands && g !in b.built
    requires c.stubs == b.stubs && c.built == b.built + [g] && c.stands == WithPair(guest, b.stands, g)
    requires forall x :: x in b.guestToHost ==> x in c.guestToHost && c.guestToHost[x] == b.guestToHost[x]
    ensures Growth(a, c, rank, pairs, rank[g] + 1, {g})
    ensures g !in a.built && g in c.stands
  {
    NewPair(guest, b.stands, g);
  }

  // A class above those that gained a shadow gained none.
  lemma StillAbsent(guest: Memory, a: Snapshot, b: Snapshot, rank: map<nat, nat>, pairs: map<nat, nat>, bound: nat, g: nat,
                    hostToGuest: map<nat, nat>)
    requires Growth(a, b, rank, pairs, bound, {}) && g in rank && bound <= rank[g] && IsClass(guest, g) && Unshared(guest)
    requires g !in a.guestToHost && g !in a.stands && g !in a.stubs
    requires Inverse(b.stands.Keys, b.stubs, b.guestToHost, hostToGuest) && PairMap(guest, b.stands)
    ensures g !in b.guestToHost && g !in b.stands
  {
  }

  lemma MoreHosts(guest: Memory, stands: map<nat, nat>, guestToHost: map<nat, nat>, hostToGuest: map<nat, nat>,
                  hosts: map<nat, HostClass>, shadow: nat, meta: nat, superclass: nat)
    requires HostPairs(guest, stands, guestToHost, hostToGuest, hosts)
    requires shadow !in hosts && meta !in hosts && shadow !in guest && meta !in guest && shadow != 0 && meta != 0
    ensures HostPairs(guest, stands, guestToHost, hostToGuest,
                      hosts[shadow := HostClass(meta, superclass)][meta := HostClass(0, 0)])
  {
  }

  // Everything the tables hold.
  datatype State = State(started: bool, active: bool, guestToHost: map<nat, nat>, hostToGuest: map<nat, nat>,
                         unbuilt: map<nat, nat>, stands: map<nat, nat>, built: seq<nat>, stubs: set<nat>,
                         hosts: map<nat, HostClass>)

  ghost predicate ValidState(guest: Memory, pairs: map<nat, nat>, rank: map<nat, nat>, statics: seq<nat>, t: State) {
    && Unshared(guest) && Acyclic(guest, pairs, rank)
    && PairMap(guest, t.stands) && Inverse(t.stands.Keys, t.stubs, t.guestToHost, t.hostToGuest)
    && HostPairs(guest, t.stands, t.guestToHost, t.hostToGuest, t.hosts)
    && BuiltOnce(t.stands, t.built)
    && StaticsWait(guest, pairs, t.started, t.unbuilt, t.stands, t.stubs)
    && (!t.active ==> t.stands == map[] && t.stubs == {} && t.unbuilt == map[])
    && (!t.started ==> !t.active) && (t.started && statics != [] ==> t.active)
  }

  lemma StartedIsValid(guest: Memory, pairs: map<nat, nat>, rank: map<nat, nat>, statics: seq<nat>, t: State)
    requires ValidState(guest, pairs, rank, statics, t) && !t.started && (statics == [] ==> pairs == map[])
    ensures ValidState(guest, pairs, rank, statics, t.(started := true, unbuilt := pairs, active := statics != []))
  {
  }

  // The state with a new pair entered.
  ghost function Entering(guest: Memory, t: State, g: nat, shadow: nat, meta: nat): State
    requires g in guest
  {
    t.(active := true, guestToHost := Entered(guest, t.guestToHost, g, shadow, meta),
       hostToGuest := EnteredBack(guest, t.hostToGuest, g, shadow, meta),
       unbuilt := t.unbuilt - {g, guest[g].isa}, stands := WithPair(guest, t.stands, g), built := t.built + [g])
  }

  lemma EnteringIsValid(guest: Memory, pairs: map<nat, nat>, rank: map<nat, nat>, statics: seq<nat>, t: State, g: nat,
                        shadow: nat, meta: nat)
    requires ValidState(guest, pairs, rank, statics, t) && t.started && IsClass(guest, g) && g !in t.guestToHost && 0 !in pairs
    requires shadow != meta && shadow in t.hosts && meta in t.hosts && t.hosts[shadow].meta == meta
    requires shadow !in t.hostToGuest && meta !in t.hostToGuest
    ensures ValidState(guest, pairs, rank, statics, Entering(guest, t, g, shadow, meta))
    ensures Entering(guest, t, g, shadow, meta).guestToHost[g] == shadow && g !in t.stands && PairMap(guest, t.stands)
    ensures guest[g].isa != g && 0 !in t.unbuilt && g !in t.built
    ensures forall x :: x in t.guestToHost ==>
      x in Entered(guest, t.guestToHost, g, shadow, meta) && Entered(guest, t.guestToHost, g, shadow, meta)[x] == t.guestToHost[x]
  {
    NotYetEntered(guest, pairs, rank, statics, t, g);
    hide PairMap, Unshared, Acyclic, Inverse, HostPairs, BuiltOnce, StaticsWait, WithPair;
    WithPairKeeps(guest, t.stands, g);
    EnterInverse(guest, t.stands, t.stubs, t.guestToHost, t.hostToGuest, g, shadow, meta);
    EnterHostPairs(guest, t.stands, t.stubs, t.guestToHost, t.hostToGuest, t.hosts, g, shadow, meta);
    EnterWaits(guest, pairs, t.unbuilt, t.stands, t.stubs, g);
    EnterBuilt(guest, t.stands, t.built, g);
  }

  lemma NotYetEntered(guest: Memory, pairs: map<nat, nat>, rank: map<nat, nat>, statics: seq<nat>, t: State, g: nat)
    requires ValidState(guest, pairs, rank, statics, t) && IsClass(guest, g) && g !in t.guestToHost && 0 !in pairs
    ensures g !in t.stands && guest[g].isa !in t.stubs && guest[g].isa != g && 0 !in t.unbuilt && g !in t.built
    ensures forall x :: x in t.stands ==> x in t.guestToHost
  {
  }

  lemma StubIsValid(guest: Memory, pairs: map<nat, nat>, rank: map<nat, nat>, statics: seq<nat>, t: State, stub: nat, shadow: nat)
    requires ValidState(guest, pairs, rank, statics, t) && t.active && stub !in t.guestToHost && stub !in pairs
    requires forall c :: IsClass(guest, c) ==> guest[c].isa != stub
    ensures ValidState(guest, pairs, rank, statics,
                       t.(guestToHost := t.guestToHost[stub := shadow], stubs := t.stubs + {stub}))
  {
    hide Unshared, Acyclic, PairMap, BuiltOnce, Inverse, HostPairs, StaticsWait;
    StubInverse(t.stands.Keys, t.stubs, t.guestToHost, t.hostToGuest, stub, shadow);
    StubHostPairs(guest, t.stands, t.guestToHost, t.hostToGuest, t.hosts, stub, shadow);
    StubWaits(guest, pairs, t.started, t.unbuilt, t.stands, t.stubs, stub);
  }

  lemma StubInverse(stands: set<nat>, stubs: set<nat>, guestToHost: map<nat, nat>, hostToGuest: map<nat, nat>, stub: nat,
                    shadow: nat)
    requires Inverse(stands, stubs, guestToHost, hostToGuest) && stub !in guestToHost
    ensures Inverse(stands, stubs + {stub}, guestToHost[stub := shadow], hostToGuest)
  {
  }

  lemma StubHostPairs(guest: Memory, stands: map<nat, nat>, guestToHost: map<nat, nat>, hostToGuest: map<nat, nat>,
                      hosts: map<nat, HostClass>, stub: nat, shadow: nat)
    requires HostPairs(guest, stands, guestToHost, hostToGuest, hosts) && stub !in guestToHost
    ensures HostPairs(guest, stands, guestToHost[stub := shadow], hostToGuest, hosts)
  {
  }

  lemma StubWaits(guest: Memory, pairs: map<nat, nat>, started: bool, unbuilt: map<nat, nat>, stands: map<nat, nat>,
                  stubs: set<nat>,
                  stub: nat)
    requires StaticsWait(guest, pairs, started, unbuilt, stands, stubs) && stub !in pairs
    requires forall c :: IsClass(guest, c) ==> guest[c].isa != stub
    ensures StaticsWait(guest, pairs, started, unbuilt, stands, stubs + {stub})
  {
  }

  function Entered(guest: Memory, table: map<nat, nat>, g: nat, shadow: nat, meta: nat): map<nat, nat> {
    if g in guest && guest[g].isa != 0 then table[g := shadow][guest[g].isa := meta] else table[g := shadow]
  }

  function EnteredBack(guest: Memory, table: map<nat, nat>, g: nat, shadow: nat, meta: nat): map<nat, nat> {
    if g in guest && guest[g].isa != 0 then table[shadow := g][meta := guest[g].isa] else table[shadow := g]
  }

  lemma EnterOne(stands: set<nat>, stubs: set<nat>, guestToHost: map<nat, nat>, hostToGuest: map<nat, nat>, x: nat, h: nat)
    requires Inverse(stands, stubs, guestToHost, hostToGuest) && x !in guestToHost && h !in hostToGuest
    ensures Inverse(stands + {x}, stubs, guestToHost[x := h], hostToGuest[h := x])
  {
  }

  lemma EnterInverse(guest: Memory, stands: map<nat, nat>, stubs: set<nat>, guestToHost: map<nat, nat>,
                     hostToGuest: map<nat, nat>,
                     g: nat, shadow: nat, meta: nat)
    requires Unshared(guest) && PairMap(guest, stands) && Inverse(stands.Keys, stubs, guestToHost, hostToGuest)
    requires IsClass(guest, g) && g !in guestToHost && guest[g].isa !in stubs
    requires shadow != meta && shadow !in hostToGuest && meta !in hostToGuest
    ensures Inverse(WithPair(guest, stands, g).Keys, stubs, Entered(guest, guestToHost, g, shadow, meta),
                    EnteredBack(guest, hostToGuest, g, shadow, meta))
    ensures forall x :: x in guestToHost ==>
      x in Entered(guest, guestToHost, g, shadow, meta) && Entered(guest, guestToHost, g, shadow, meta)[x] == guestToHost[x]
  {
    NewPair(guest, stands, g);
    var isa := guest[g].isa;
    assert isa !in guestToHost;
    hide Inverse;
    EnterOne(stands.Keys, stubs, guestToHost, hostToGuest, g, shadow);
    if isa != 0 {
      EnterOne(stands.Keys + {g}, stubs, guestToHost[g := shadow], hostToGuest[shadow := g], isa, meta);
      assert WithPair(guest, stands, g).Keys == stands.Keys + {g} + {isa};
    } else {
      assert WithPair(guest, stands, g).Keys == stands.Keys + {g};
    }
  }

  lemma NewPair(guest: Memory, stands: map<nat, nat>, g: nat)
    requires Unshared(guest) && PairMap(guest, stands) && IsClass(guest, g) && g !in stands
    ensures guest[g].isa !in stands && guest[g].isa != g
    ensures forall x :: x in stands ==> x in WithPair(guest, stands, g) && WithPair(guest, stands, g)[x] == stands[x]
    ensures forall x :: x in WithPair(guest, stands, g) ==>
      x in stands || ((x == g || x == guest[g].isa != 0) && WithPair(guest, stands, g)[x] == g)
    ensures g in WithPair(guest, stands, g) && (guest[g].isa != 0 ==> guest[g].isa in WithPair(guest, stands, g))
  {
    PairAbsent(guest, stands, g);
  }

  lemma EnterHostPairs(guest: Memory, stands: map<nat, nat>, stubs: set<nat>, guestToHost: map<nat, nat>,
                       hostToGuest: map<nat, nat>, hosts: map<nat, HostClass>, g: nat, shadow: nat, meta: nat)
    requires Unshared(guest) && PairMap(guest, stands) && HostPairs(guest, stands, guestToHost, hostToGuest, hosts)
    requires IsClass(guest, g) && g !in stands && (forall x :: x in stands ==> x in guestToHost)
    requires shadow in hosts && meta in hosts && hosts[shadow].meta == meta
    ensures HostPairs(guest, WithPair(guest, stands, g), Entered(guest, guestToHost, g, shadow, meta),
                      EnteredBack(guest, hostToGuest, g, shadow, meta), hosts)
  {
    NewPair(guest, stands, g);
    hide WithPair, PairMap;
    var after, more := Entered(guest, guestToHost, g, shadow, meta), WithPair(guest, stands, g);
    forall c | c in more && more[c] == c
      ensures c in guest && c in after && after[c] in hosts
      ensures guest[c].isa != 0 ==> guest[c].isa in after && after[guest[c].isa] == hosts[after[c]].meta
    {
      if c in stands {
        ClassApart(guest, stands, g, c);
      }
    }
  }

  lemma ClassApart(guest: Memory, stands: map<nat, nat>, g: nat, c: nat)
    requires Unshared(guest) && PairMap(guest, stands) && IsClass(guest, g) && g !in stands && c in stands && stands[c] == c
    ensures c in guest && c != g && c != guest[g].isa
    ensures guest[c].isa != 0 ==> guest[c].isa != g && guest[c].isa != guest[g].isa
  {
    PairAbsent(guest, stands, g);
    assert Paired(guest, stands, c);
  }

  lemma EnterWaits(guest: Memory, pairs: map<nat, nat>, unbuilt: map<nat, nat>, stands: map<nat, nat>, stubs: set<nat>, g: nat)
    requires Unshared(guest) && PairMap(guest, stands) && IsClass(guest, g) && g !in stands && 0 !in pairs
    requires StaticsWait(guest, pairs, true, unbuilt, stands, stubs)
    ensures StaticsWait(guest, pairs, true, unbuilt - {g, guest[g].isa}, WithPair(guest, stands, g), stubs)
  {
    NewPair(guest, stands, g);
  }

  lemma EnterBuilt(guest: Memory, stands: map<nat, nat>, built: seq<nat>, g: nat)
    requires Unshared(guest) && PairMap(guest, stands) && IsClass(guest, g) && g !in stands && BuiltOnce(stands, built)
    ensures BuiltOnce(WithPair(guest, stands, g), built + [g])
  {
    NewPair(guest, stands, g);
  }

  // What there is when a class is asked for: `tabled` are the guest values that a host class stands for.
  datatype Scene = Scene(guest: Memory, rank: map<nat, nat>, active: bool, tabled: set<nat>, unbuilt: map<nat, nat>)
  {
    ghost predicate Waits(x: nat) {
      active && x !in tabled && x in unbuilt
    }

    // The classes a shadow of g has to be made for, superclasses first: g, and the static ones above it still unbuilt.
    ghost function ToBuild(g: nat): seq<nat>
      decreases if g in rank then rank[g] else 0
    {
      if g in tabled then [] else (if IsClass(guest, g) then AboveIt(g) else []) + [g]
    }

    ghost function AboveIt(g: nat): seq<nat>
      requires g in guest
      decreases if g in rank then rank[g] else 0, 0
    {
      var x := guest[g].superclass;
      if x == 0 || !Waits(x) then []
      else if unbuilt[x] in rank && g in rank && rank[unbuilt[x]] < rank[g] then ToBuild(unbuilt[x])
      else []
    }

    // Along superclasses that wait, ranks fall.
    ghost predicate Climbs() {
      forall g :: IsClass(guest, g) && Waits(guest[g].superclass) ==>
        var above := unbuilt[guest[g].superclass];
        above !in tabled && g in rank && above in rank && rank[above] < rank[g]
    }

    ghost predicate TopOf(g: nat) {
      IsClass(guest, g) ==> guest[g].superclass == 0 || !Waits(guest[g].superclass)
    }

    ghost predicate JustBelow(g: nat, above: nat) {
      IsClass(guest, g) && guest[g].superclass != 0 && Waits(guest[g].superclass) && unbuilt[guest[g].superclass] == above
    }

    // What is to be built ends with the class itself; each comes after the class its superclass waits with, and the first has
    // nothing waiting above it.
    lemma {:induction false} ToBuildClimbs(g: nat)
      requires Climbs() && g !in tabled
      ensures var list := ToBuild(g);
              && |list| > 0 && list[|list| - 1] == g && TopOf(list[0])
              && forall j :: 1 <= j < |list| ==> JustBelow(list[j], list[j - 1])
      decreases if g in rank then rank[g] else 0
    {
      if !TopOf(g) {
        var above := unbuilt[guest[g].superclass];
        ToBuildClimbs(above);
        assert ToBuild(g) == ToBuild(above) + [g];
      } else {
        assert ToBuild(g) == [g];
      }
    }

    ghost function ToBuildFor(x: nat): seq<nat> {
      if Waits(x) then ToBuild(unbuilt[x]) else []
    }

    ghost function Pair(g: nat): set<nat> {
      if g in guest && guest[g].isa != 0 then {g, guest[g].isa} else {g}
    }

    // How things stand when a class has been built, and when classes have been, one after the other.
    ghost function With(g: nat): Scene {
      this.(active := true, tabled := tabled + Pair(g), unbuilt := unbuilt - Pair(g))
    }

    ghost function After(list: seq<nat>): Scene {
      if list == [] then this else After(list[..|list| - 1]).With(list[|list| - 1])
    }

    // What is built when values are asked for one after the other.
    ghost function ToBuildForAll(xs: seq<nat>): seq<nat> {
      if xs == [] then []
      else
        var before := ToBuildForAll(xs[..|xs| - 1]);
        before + After(before).ToBuildFor(xs[|xs| - 1])
    }

    lemma AfterMore(list: seq<nat>, g: nat)
      ensures After(list + [g]) == After(list).With(g)
    {
      assert (list + [g])[..|list|] == list;
    }

    lemma {:induction false} AfterBoth(a: seq<nat>, b: seq<nat>)
      ensures After(a + b) == After(a).After(b)
    {
      if b == [] {
        assert a + b == a;
      } else {
        var n := |b| - 1;
        AfterBoth(a, b[..n]);
        assert a + b == a + b[..n] + [b[n]];
        AfterMore(a + b[..n], b[n]);
      }
    }
  }

  class Tables {
    const guest: Memory                        // never written
    const statics: seq<nat>
    const naming: (nat, nat) -> Option<string> // what the guest's class namer, by its address, calls a class
    ghost const rank: map<nat, nat>
    var started: bool
    var active: bool
    var guestToHost: map<nat, nat>
    var hostToGuest: map<nat, nat>
    var unbuilt: map<nat, nat>
    var lazyNamer: nat                         // 0 before the Swift runtime registers one
    var hosts: map<nat, HostClass>             // the host runtime's classes
    var names: set<string>                     // and their names
    ghost var stands: map<nat, nat>            // each guest object with a host object of its own, and the class of its pair
    ghost var built: seq<nat>                  // the classes built, in order
    ghost var stubs: set<nat>                  // addresses that answer for the class built to replace them

    constructor (guest: Memory, statics: seq<nat>, naming: (nat, nat) -> Option<string>, hosts: map<nat, HostClass>,
                 names: set<string>, ghost rank: map<nat, nat>)
      ensures this.guest == guest && this.statics == statics && this.rank == rank && this.hosts == hosts && Untouched()
    {
      this.guest, this.statics, this.naming, this.rank := guest, statics, naming, rank;
      this.hosts, this.names := hosts, names;
      started, active, lazyNamer := false, false, 0;
      guestToHost, hostToGuest, unbuilt := map[], map[], map[];
      stands, built, stubs := map[], [], {};
    }

    ghost predicate Untouched()
      reads this
    {
      && !started && !active && guestToHost == map[] && hostToGuest == map[] && unbuilt == map[]
      && stands == map[] && built == [] && stubs == {}
    }

    lemma StartsValid()
      requires Unshared(guest) && Acyclic(guest, Pairs(), rank) && Untouched()
      requires forall h :: h in hosts ==> h !in guest && h != 0
      ensures Valid()
    {
      hide Unshared, Acyclic, Owners;
    }

    ghost function Pairs(): map<nat, nat> {
      Owners(guest, statics)
    }

    // A class of the static list, or the metaclass of one.
    ghost predicate Static(x: nat) {
      Listed(guest, statics, x)
    }

    lemma PairsAre(x: nat)
      ensures x in Pairs() <==> Static(x)
    {
      OwnersAre(guest, statics, x);
    }

    ghost predicate Valid()
      reads this
    {
      ValidState(guest, Pairs(), rank, statics, Tables())
    }

    ghost function Tables(): State
      reads this
    {
      State(started, active, guestToHost, hostToGuest, unbuilt, stands, built, stubs, hosts)
    }

    // How things stand once the static list is read.
    ghost function Begun(): Scene
      reads this
    {
      if started then Here() else Scene(guest, rank, statics != [], guestToHost.Keys, Pairs())
    }

    // Read the static list, once.
    method Init()
      requires Valid() && StaticsReadable()
      modifies `started, `active, `unbuilt
      ensures Valid() && started && Here() == old(Begun())
      ensures forall x :: x in unbuilt <==> Static(x) && x !in stands
    {
      hide Static;
      if started {
        StaticsWaiting();
        return;
      }
      hide ValidState, Owners;
      var pairs := ReadStatics();
      NoStatics();
      StartedIsValid(guest, Pairs(), rank, statics, Tables());
      assert !active by { NotActive(); }
      started := true;
      unbuilt := pairs;
      if statics != [] {
        active := true;
      }
      StaticsWaiting();
    }

    lemma StaticsWaiting()
      requires Valid() && started
      ensures forall x :: x in unbuilt <==> Static(x) && x !in stands
    {
      hide Static;
      forall x ensures x in Pairs() <==> Static(x) {
        PairsAre(x);
      }
      hide Owners;
    }

    lemma NoStatics()
      ensures statics == [] ==> Pairs() == map[]
    {
    }

    lemma NotActive()
      requires Valid() && !started
      ensures !active
    {
    }

    method ReadStatics() returns (pairs: map<nat, nat>)
      requires StaticsReadable()
      ensures pairs == Pairs()
    {
      pairs := map[];
      for i := 0 to |statics|
        invariant pairs == Owners(guest, statics[..i])
      {
        var listed := statics[i];
        if !guest[listed].ro.value.meta {
          pairs := pairs[listed := listed];
          if guest[listed].isa != 0 {
            pairs := pairs[guest[listed].isa := listed];
          }
        }
        assert statics[..i + 1][..i] == statics[..i];
      }
      assert statics[..|statics|] == statics;
    }

    ghost function Now(): Snapshot
      reads this
    {
      Snapshot(guestToHost, stands, stubs, built)
    }

    twostate predicate Grew(bound: nat, allowed: set<nat>)
      reads this
    {
      Growth(old(Now()), Now(), rank, Pairs(), bound, allowed) && started == old(started) && (old(active) ==> active)
    }

    ghost function RankOf(g: nat): nat {
      if g in rank then rank[g] + 1 else 1
    }

    ghost function PairRank(x: nat): nat {
      if x in Pairs() then RankOf(Pairs()[x]) else 0
    }

    ghost function Here(): Scene
      reads this
    {
      Scene(guest, rank, active, guestToHost.Keys, unbuilt)
    }

    // What a class is called: by its class_ro_t, else by the namer.
    function NameFor(namer: nat, g: nat): Option<string> {
      if g !in guest || guest[g].ro.None? then None
      else if guest[g].ro.value.name.Some? then guest[g].ro.value.name
      else if namer == 0 then None
      else naming(namer, g)
    }

    function NamesOf(namer: nat, list: seq<nat>): set<string> {
      if list == [] then {}
      else
        var last := NameFor(namer, list[|list| - 1]);
        NamesOf(namer, list[..|list| - 1]) + if last.Some? then {last.value} else {}
    }

    // Each of them is a class with a name that none of the host's classes and none before it has.
    ghost predicate CanBuild(namer: nat, list: seq<nat>, names: set<string>) {
      list == [] ||
      var before, g := list[..|list| - 1], list[|list| - 1];
      && CanBuild(namer, before, names) && IsClass(guest, g) && NameFor(namer, g).Some?
      && NameFor(namer, g).value !in names + NamesOf(namer, before)
    }

    lemma OneMoreClass(namer: nat, before: seq<nat>, g: nat, names: set<string>)
      ensures CanBuild(namer, before + [g], names) <==>
              CanBuild(namer, before, names) && IsClass(guest, g) && NameFor(namer, g).Some?
              && NameFor(namer, g).value !in names + NamesOf(namer, before)
      ensures NamesOf(namer, before + [g]) ==
              NamesOf(namer, before) + if NameFor(namer, g).Some? then {NameFor(namer, g).value} else {}
    {
      assert (before + [g])[..|before|] == before;
    }

    lemma NoClasses(namer: nat, names: set<string>)
      ensures CanBuild(namer, [], names) && NamesOf(namer, []) == {}
    {
    }

    // What a class is called, if anything.
    predicate NamedBy(namer: nat, g: nat, name: string) {
      && g in guest && guest[g].ro.Some?
      && match guest[g].ro.value.name
         case Some(own) => name == own
         case None => namer != 0 && naming(namer, g) == Some(name)
    }

    lemma NameIs(namer: nat, g: nat, name: string)
      ensures NameFor(namer, g) == Some(name) <==> NamedBy(namer, g, name)
    {
    }

    lemma {:induction false} NamesAre(namer: nat, list: seq<nat>, name: string)
      ensures name in NamesOf(namer, list) <==> exists i :: 0 <= i < |list| && NamedBy(namer, list[i], name)
    {
      hide NamedBy, NameFor;
      if list != [] {
        var n := |list| - 1;
        NamesAre(namer, list[..n], name);
        NameIs(namer, list[n], name);
      }
    }

    // Class i of a list has a name that is none of `names` and that no class before it in the list has.
    ghost predicate FreelyNamed(namer: nat, list: seq<nat>, names: set<string>, i: nat)
      requires i < |list|
    {
      && list[i] in guest && guest[list[i]].ro.Some? && !guest[list[i]].ro.value.meta
      && exists name ::
           NamedBy(namer, list[i], name) && name !in names && forall j :: 0 <= j < i ==> !NamedBy(namer, list[j], name)
    }

    // A list can be built exactly where each of it is a class with such a name.
    lemma {:induction false} CanBuildIs(namer: nat, list: seq<nat>, names: set<string>)
      ensures CanBuild(namer, list, names) <==> forall i :: 0 <= i < |list| ==> FreelyNamed(namer, list, names, i)
    {
      if list != [] {
        var n := |list| - 1;
        CanBuildIs(namer, list[..n], names);
        forall i | 0 <= i < n ensures FreelyNamed(namer, list[..n], names, i) <==> FreelyNamed(namer, list, names, i) {
          SameName(namer, list, names, i, n);
        }
        LastName(namer, list, names);
        hide FreelyNamed, NameFor, NamesOf, IsClass;
      }
    }

    lemma SameName(namer: nat, list: seq<nat>, names: set<string>, i: nat, n: nat)
      requires i < n <= |list|
      ensures FreelyNamed(namer, list[..n], names, i) <==> FreelyNamed(namer, list, names, i)
    {
      hide NamedBy;
      assert forall j :: 0 <= j < i ==> list[..n][j] == list[j];
    }

    lemma LastName(namer: nat, list: seq<nat>, names: set<string>)
      requires list != []
      ensures var before, g := list[..|list| - 1], list[|list| - 1];
              FreelyNamed(namer, list, names, |list| - 1) <==>
              IsClass(guest, g) && NameFor(namer, g).Some? && NameFor(namer, g).value !in names + NamesOf(namer, before)
    {
      var n := |list| - 1;
      var before, g := list[..n], list[n];
      forall name ensures NamedBy(namer, g, name) <==> NameFor(namer, g) == Some(name) {
        NameIs(namer, g, name);
      }
      if NameFor(namer, g).Some? {
        NamesAre(namer, before, NameFor(namer, g).value);
      }
      hide NamedBy, NameFor, NamesOf;
    }

    // Those classes and no others were built since, in that order, under their names.
    ghost predicate Built(before: seq<nat>, names0: set<string>, list: seq<nat>)
      reads this
    {
      built == before + list && names == names0 + NamesOf(lazyNamer, list)
    }

    lemma NothingAfter()
      ensures Here().After([]) == Here()
    {
    }

    // What stands for a class value in the host.
    function In(x: nat): nat
      reads this
    {
      if x in guestToHost then guestToHost[x] else x
    }

    // What is still to be built above a class.
    ghost function Above(g: nat): seq<nat>
      reads this
    {
      if IsClass(guest, g) && guest[g].superclass != 0 then Here().ToBuildFor(guest[g].superclass) else []
    }

    lemma ToBuildIs(g: nat)
      requires Valid()
      ensures Here().ToBuild(g) == if g in guestToHost then [] else Above(g) + [g]
    {
      if IsClass(guest, g) {
        var x := guest[g].superclass;
        RankFalls(g);
        if Here().Waits(x) {
          Waiting(x);
        }
      }
    }

    lemma HereClimbs()
      requires Valid()
      ensures Here().Climbs()
    {
      forall g | IsClass(guest, g) && Here().Waits(guest[g].superclass)
        ensures var above := unbuilt[guest[g].superclass];
                above !in Here().tabled && g in rank && above in rank && rank[above] < rank[g]
      {
        RankFalls(g);
        Waiting(guest[g].superclass);
      }
    }

    // What stands for a class: built now, after whatever has to be built above it, if it is not in the tables. False where
    // the process stops.
    method BuildShadow(g: nat) returns (shadow: nat, ok: bool)
      requires Valid() && started && (g in guest || g in guestToHost)
      modifies this
      ensures ok ==> Valid() && Grew(RankOf(g), {g}) && g in guestToHost && shadow == guestToHost[g] && active
      ensures ok && old(g in guestToHost) ==> built == old(built)
      ensures ok && old(g !in guestToHost) ==> |built| > 0 && built[|built| - 1] == g && g !in old(built) && g in stands
      ensures ok <==> CanBuild(lazyNamer, old(Here()).ToBuild(g), old(names))
      ensures ok ==> Built(old(built), old(names), old(Here()).ToBuild(g))
      ensures ok ==> Here() == old(Here()).After(old(Here()).ToBuild(g))
      ensures ok && old(g !in guestToHost) && Static(guest[g].superclass) ==> guest[g].superclass in stands
      ensures ok && old(g !in guestToHost) && guest[g].superclass != g && guest[g].superclass != guest[g].isa ==>
        shadow in hosts && hosts[shadow].superclass == if guest[g].superclass == 0 then 0 else In(guest[g].superclass)
      ensures lazyNamer == old(lazyNamer)
      decreases RankOf(g), 0
    {
      hide Valid, ValidState, Growth, Unshared, Acyclic, IsClass, PairMap, WithPair;
      hide Scene.ToBuild, Scene.ToBuildFor, Scene.After, Scene.With, CanBuild, NamesOf, Here;
      hide Static;
      ZeroNotStatic();
      NoGrowth(RankOf(g), {g});
      TabledOrNot(g);
      ghost var above, namer := Above(g), lazyNamer;
      ToBuildIs(g);
      OneMoreClass(namer, above, g, names);
      NoClasses(namer, names);
      NothingAfter();
      Here().AfterMore(above, g);
      if g in guestToHost {
        return guestToHost[g], true;
      }
      if !IsClass(guest, g) {
        return 0, false;
      }
      RankFalls(g);
      var name := guest[g].ro.value.name;
      if name == None {
        if lazyNamer == 0 {
          return 0, false;
        }
        name := naming(lazyNamer, g);
        if name == None {
          return 0, false;
        }
      }
      ghost var start := Now();
      var hostSuper := 0;
      ok := true;
      NoGrowth(PairRank(guest[g].superclass), {});
      if guest[g].superclass != 0 {
        hostSuper, ok := ClassFromGuest(guest[g].superclass);
      }
      if !ok {
        return 0, false;
      }
      ghost var middle := Now();
      Absent(start, g);
      shadow, ok := MakePair(g, hostSuper, name.value);
      if ok {
        Composed(start, middle, g);
      }
    }

    // A host pair under a superclass, unless the host has a class of that name; and the class it is the shadow of.
    method MakePair(g: nat, hostSuper: nat, name: string) returns (shadow: nat, ok: bool)
      requires Valid() && started && IsClass(guest, g) && g !in guestToHost
      modifies `hosts, `names, `guestToHost, `hostToGuest, `unbuilt, `active, `stands, `built
      ensures ok <==> name !in old(names)
      ensures ok ==> Valid() && active && g in guestToHost && guestToHost[g] == shadow
      ensures ok ==> built == old(built) + [g] && names == old(names) + {name}
      ensures ok ==> shadow in hosts && hosts[shadow].superclass == hostSuper
      ensures ok ==> forall x :: x in old(guestToHost) ==> x in guestToHost && guestToHost[x] == old(guestToHost[x])
      ensures ok ==> forall x :: x in guestToHost ==> x in old(guestToHost) || x == g || x == guest[g].isa
      ensures ok ==> stands == WithPair(guest, old(stands), g) && PairMap(guest, old(stands))
      ensures ok ==> g !in old(stands) && g !in old(built) && old(stands.Keys) <= stands.Keys
      ensures ok ==> Here() == old(Here()).With(g)
    {
      hide Valid, IsClass, WithPair, PairMap;
      if name in names {
        return 0, false;
      }
      var meta;
      shadow, meta := AllocateClassPair(hostSuper, name);
      Register(g, shadow, meta);
      StandsGrow(old(stands), g);
      ok := true;
    }

    lemma StandsGrow(before: map<nat, nat>, g: nat)
      ensures before.Keys <= WithPair(guest, before, g).Keys
    {
    }

    lemma ZeroNotStatic()
      requires Valid()
      ensures !Static(0)
    {
      NoZeroPair();
      PairsAre(0);
    }

    lemma NoGrowth(bound: nat, allowed: set<nat>)
      ensures Growth(Now(), Now(), rank, Pairs(), bound, allowed)
    {
    }

    lemma TabledOrNot(g: nat)
      requires Valid()
      ensures g in guestToHost ==> active
      ensures g !in guestToHost ==> g !in stands && g !in stubs
    {
    }

    lemma RankFalls(g: nat)
      requires Valid() && IsClass(guest, g)
      ensures Unshared(guest) && g in guest && guest[g].ro.Some? && g in rank && PairRank(guest[g].superclass) <= rank[g]
    {
      OwnersPair(guest, statics);
    }

    lemma Absent(start: Snapshot, g: nat)
      requires Valid() && IsClass(guest, g) && g in rank && PairRank(guest[g].superclass) <= rank[g]
      requires Growth(start, Now(), rank, Pairs(), PairRank(guest[g].superclass), {})
      requires g !in start.guestToHost && g !in start.stands && g !in start.stubs
      ensures g !in guestToHost
      ensures Growth(start, Now(), rank, Pairs(), rank[g], {})
    {
      assert Growth(start, Now(), rank, Pairs(), rank[g], {});
      StillAbsent(guest, start, Now(), rank, Pairs(), rank[g], g, hostToGuest);
    }

    lemma Composed(start: Snapshot, middle: Snapshot, g: nat)
      requires Unshared(guest) && IsClass(guest, g) && g in rank && Growth(start, middle, rank, Pairs(), rank[g], {})
      requires PairMap(guest, middle.stands) && g !in middle.stands && g !in middle.built
      requires stubs == middle.stubs && built == middle.built + [g] && stands == WithPair(guest, middle.stands, g)
      requires forall x :: x in middle.guestToHost ==> x in guestToHost && guestToHost[x] == middle.guestToHost[x]
      ensures Growth(start, Now(), rank, Pairs(), RankOf(g), {g})
      ensures |built| > 0 && built[|built| - 1] == g && g !in start.built && g in stands
    {
      hide Growth, PairMap, Unshared;
      GrowthThenPair(guest, start, middle, Now(), rank, Pairs(), rank[g], g);
    }

    // Translates a value: a tabled one by the table, a static class or metaclass that waits by building its class first, and
    // everything else to itself.
    method ClassFromGuest(x: nat) returns (host: nat, ok: bool)
      requires Valid()
      modifies this
      ensures ok ==> Valid() && Grew(PairRank(x), {})
      ensures ok && x !in stubs && x !in hostToGuest ==> Out(host) == x
      ensures ok && old(started) && Static(x) ==> x in stands
      ensures ok <==> CanBuild(lazyNamer, old(Here()).ToBuildFor(x), old(names))
      ensures ok ==> Built(old(built), old(names), old(Here()).ToBuildFor(x)) && host == In(x)
      ensures ok ==> Here() == old(Here()).After(old(Here()).ToBuildFor(x))
      ensures lazyNamer == old(lazyNamer)
      decreases PairRank(x), 1
    {
      hide Valid, Growth, IsClass, Scene.ToBuild, Scene.With, CanBuild, NamesOf;
      NoGrowth(PairRank(x), {});
      NothingAfter();
      NoClasses(lazyNamer, names);
      TabledOrNot(x);
      PairsAre(x);
      hide Static;
      if started && x in Pairs() {
        StaticsKnown(x);
      }
      if !active {
        return x, true;
      }
      OutOf(x);
      if x in guestToHost {
        return guestToHost[x], true;
      }
      if x !in unbuilt {
        return x, true;
      }
      var owner := unbuilt[x];
      Waiting(x);
      ghost var start := Now();
      host, ok := BuildShadow(owner);
      if ok {
        Arrived(start, x, owner);
        if owner != x {
          host := hosts[host].meta;
        }
      }
    }

    lemma StaticsKnown(x: nat)
      requires Valid() && started && x in Pairs()
      ensures active && x !in stubs && (x in guestToHost <==> x in stands) && (x !in unbuilt ==> x in stands)
    {
    }

    // What the tables answer for a guest value, the other table undoes.
    lemma OutOf(x: nat)
      requires Valid() && active
      ensures x !in stubs && x in guestToHost ==> Out(guestToHost[x]) == x
      ensures x !in hostToGuest ==> Out(x) == x
    {
    }

    lemma Waiting(x: nat)
      requires Valid() && active && x in unbuilt
      ensures started && x in Pairs() && unbuilt[x] == Pairs()[x] && IsClass(guest, Pairs()[x]) && Pairs()[x] in guest
      ensures Pairs()[x] !in guestToHost && x !in stubs
      ensures x == Pairs()[x] || (x == guest[Pairs()[x]].isa && x != 0)
    {
      OwnersPair(guest, statics);
    }

    lemma Arrived(start: Snapshot, x: nat, owner: nat)
      requires Valid() && active && owner in stands && IsClass(guest, owner) && x in Pairs() && owner == Pairs()[x]
      requires Growth(start, Now(), rank, Pairs(), RankOf(owner), {owner})
      requires x == owner || (x == guest[owner].isa && x != 0)
      ensures Growth(start, Now(), rank, Pairs(), PairRank(x), {})
      ensures owner in guestToHost && guestToHost[owner] in hosts
      ensures x != owner ==> x in guestToHost && guestToHost[x] == hosts[guestToHost[owner]].meta
      ensures x !in stubs ==> x in guestToHost && Out(guestToHost[x]) == x
      ensures x in stands
    {
      OwnersPair(guest, statics);
      OutOf(x);
      forall y | y in stands && stands[y] == owner ensures y in Pairs() {}
    }

    // The guest class a host class stands for, or the class itself.
    function Out(host: nat): nat
      reads this
    {
      if !active then host
      else if host in hostToGuest && hostToGuest[host] != 0 then hostToGuest[host]
      else host
    }

    // objc_allocateClassPair: two host classes at addresses nothing else has.
    method AllocateClassPair(superclass: nat, name: string) returns (shadow: nat, meta: nat)
      requires Valid()
      modifies `hosts, `names
      ensures Valid() && shadow != meta && shadow in hosts && meta in hosts && hosts[shadow] == HostClass(meta, superclass)
      ensures shadow !in hostToGuest && meta !in hostToGuest && names == old(names) + {name}
    {
      hide ValidState;
      shadow := FreshAddress({});
      meta := FreshAddress({shadow});
      var after := hosts[shadow := HostClass(meta, superclass)][meta := HostClass(0, 0)];
      StillValid(after, shadow, meta, superclass);
      hosts := after;
      names := names + {name};
    }

    method FreshAddress(taken: set<nat>) returns (address: nat)
      ensures address > 0 && address !in hosts && address !in guest && address !in hostToGuest && address !in taken
    {
      ghost var bound := SomeBound(hosts.Keys + guest.Keys + hostToGuest.Keys + taken);
      assert bound + 1 > 0 && bound + 1 !in hosts && bound + 1 !in guest && bound + 1 !in hostToGuest && bound + 1 !in taken;
      address :| address > 0 && address !in hosts && address !in guest && address !in hostToGuest && address !in taken;
    }

    lemma StillValid(after: map<nat, HostClass>, shadow: nat, meta: nat, superclass: nat)
      requires Valid() && shadow > 0 && meta > 0 && after == hosts[shadow := HostClass(meta, superclass)][meta := HostClass(0, 0)]
      requires shadow !in hosts && meta !in hosts && shadow !in guest && meta !in guest
      ensures ValidState(guest, Pairs(), rank, statics, Tables().(hosts := after))
    {
      hide Unshared, Acyclic, Inverse, HostPairs, BuiltOnce, StaticsWait;
      MoreHosts(guest, stands, guestToHost, hostToGuest, hosts, shadow, meta, superclass);
    }

    lemma NoZeroPair()
      requires Valid()
      ensures 0 !in Pairs()
    {
      OwnersPair(guest, statics);
    }

    // Enter a new pair in the tables.
    method Register(g: nat, shadow: nat, meta: nat)
      requires Valid() && started && IsClass(guest, g) && g !in guestToHost
      requires shadow != meta && shadow in hosts && meta in hosts && hosts[shadow].meta == meta
      requires shadow !in hostToGuest && meta !in hostToGuest
      modifies `guestToHost, `hostToGuest, `unbuilt, `active, `stands, `built
      ensures Valid() && active && g in guestToHost && guestToHost[g] == shadow && built == old(built) + [g]
      ensures forall x :: x in old(guestToHost) ==> x in guestToHost && guestToHost[x] == old(guestToHost[x])
      ensures forall x :: x in guestToHost ==> x in old(guestToHost) || x == g || x == guest[g].isa
      ensures stands == WithPair(guest, old(stands), g) && PairMap(guest, old(stands)) && g !in old(stands) && g !in old(built)
      ensures Here() == old(Here()).With(g)
    {
      hide ValidState, Owners, WithPair, PairMap;
      NoZeroPair();
      EnteringIsValid(guest, Pairs(), rank, statics, Tables(), g, shadow, meta);
      ghost var entered := Entering(guest, Tables(), g, shadow, meta);
      guestToHost := Entered(guest, guestToHost, g, shadow, meta);
      hostToGuest := EnteredBack(guest, hostToGuest, g, shadow, meta);
      unbuilt := unbuilt - (if guest[g].isa != 0 then {g, guest[g].isa} else {g});
      active := true;
      stands := WithPair(guest, stands, g);
      built := built + [g];
      assert unbuilt == entered.unbuilt;
      assert guestToHost.Keys == old(guestToHost.Keys) + Here().Pair(g);
    }

    // Where a class crosses the bridge in, and out: what goes in comes out again, unless it is a stub or itself a shadow.
    method ClassIn(x: nat) returns (host: nat, ok: bool)
      requires Valid()
      modifies this
      ensures ok ==> Valid() && Grew(PairRank(x), {})
      ensures ok && x !in stubs && x !in hostToGuest ==> Out(host) == x
      ensures ok <==> CanBuild(lazyNamer, old(Here()).ToBuildFor(x), old(names))
      ensures ok ==> Built(old(built), old(names), old(Here()).ToBuildFor(x)) && host == In(x)
      ensures ok && old(started) && Static(x) ==>
        x in stands && host !in guest && host != 0 && Out(host) == x && (IsClass(guest, x) ==> host in hosts)
    {
      hide *;
      host, ok := ClassFromGuest(x);
      if ok && Static(x) && x in stands {
        ShadowOf(x);
      }
    }

    // What stands for a class or metaclass with a shadow is no address of the guest's, and stands for it alone.
    lemma ShadowOf(x: nat)
      requires Valid() && x in stands
      ensures In(x) !in guest && In(x) != 0 && Out(In(x)) == x && (IsClass(guest, x) ==> In(x) in hosts)
    {
      assert Paired(guest, stands, x);
    }

    // The other way, a shadow becomes the built class or metaclass it stands for, and only that one has it for a shadow; any
    // other value is itself.
    method ClassOut(host: nat) returns (x: nat)
      requires Valid()
      ensures host in hostToGuest ==>
        x in stands && In(x) == host && forall y :: y in stands && In(y) == host ==> y == x
      ensures host !in hostToGuest ==> x == host && forall y :: y in stands ==> In(y) != host
      ensures x == Out(host)
    {
      if !active {
        return host;
      }
      return if host in hostToGuest && hostToGuest[host] != 0 then hostToGuest[host] else host;
    }

    // objc_readClassPair. No class, nothing to do but set up; any other is in the tables afterwards.
    method ReadClassPair(g: nat) returns (ok: bool)
      requires Valid() && StaticsReadable() && (g == 0 || g in guest || g in guestToHost)
      modifies this
      ensures ok ==> Valid() && started && (g != 0 ==> g in guestToHost)
      ensures ok <==> g == 0 || CanBuild(lazyNamer, old(Begun()).ToBuild(g), old(names))
      ensures ok && g != 0 ==> Built(old(built), old(names), old(Begun()).ToBuild(g))
    {
      hide Valid, CanBuild, Scene.ToBuild, Begun, Here, Built;
      Init();
      ok := true;
      if g != 0 {
        var _, made := BuildShadow(g);
        ok := made;
      }
    }

    ghost predicate StaticsReadable() {
      forall i :: 0 <= i < |statics| ==> statics[i] in guest && guest[statics[i]].ro.Some?
    }

    // _objc_realizeClassFromSwift. With a stub for `previously`, which has no shadow and is no class's metaclass, the stub's
    // address translates to the class's shadow from then on. No class is refused.
    method Realize(g: nat, previously: nat) returns (ok: bool)
      requires Valid() && StaticsReadable() && (g == 0 || g in guest || g in guestToHost)
      requires previously != 0 && previously != g ==>
        && previously !in guestToHost && previously !in Pairs()
        && forall c :: IsClass(guest, c) ==> guest[c].isa != previously
      modifies this
      ensures ok ==> g != 0 && Valid() && g in guestToHost
      ensures ok <==> g != 0 && CanBuild(lazyNamer, old(Begun()).ToBuild(g), old(names))
      ensures ok ==> Built(old(built), old(names), old(Begun()).ToBuild(g))
      ensures ok && previously != 0 && previously != g ==>
        previously in stubs && guestToHost[previously] == guestToHost[g]
    {
      hide Valid, Growth, CanBuild, Scene.ToBuild, Begun, Here, NamesOf;
      Init();
      if g == 0 {
        return false;
      }
      ghost var start := Now();
      TabledOrNot(previously);
      var shadow;
      shadow, ok := BuildShadow(g);
      if ok && previously != 0 && previously != g {
        StubAbsent(start, g, previously);
        AddStub(previously, shadow);
      }
    }

    lemma StubAbsent(start: Snapshot, g: nat, stub: nat)
      requires Valid() && Growth(start, Now(), rank, Pairs(), RankOf(g), {g})
      requires stub !in start.guestToHost && stub !in start.stubs && stub !in start.stands
      requires stub !in Pairs() && stub != g && forall c :: IsClass(guest, c) ==> guest[c].isa != stub
      ensures stub !in guestToHost
    {
    }

    method AddStub(stub: nat, shadow: nat)
      requires Valid() && active && stub !in guestToHost && stub !in Pairs()
      requires forall c :: IsClass(guest, c) ==> guest[c].isa != stub
      modifies `guestToHost, `stubs
      ensures Valid() && stub in stubs && stub in guestToHost && guestToHost[stub] == shadow
      ensures forall x :: x in old(guestToHost) ==> x in guestToHost && guestToHost[x] == old(guestToHost[x])
    {
      hide ValidState;
      StubIsValid(guest, Pairs(), rank, statics, Tables(), stub, shadow);
      guestToHost := guestToHost[stub := shadow];
      stubs := stubs + {stub};
    }

    // objc_setHook_lazyClassNamer. `previous` is the hook so far, and `none` if there was not any.
    method SetLazyNamer(hook: nat, none: nat) returns (previous: nat)
      requires Valid() && StaticsReadable()
      modifies this
      ensures Valid() && started && Here() == old(Begun())
      ensures lazyNamer == hook && previous == if old(lazyNamer) != 0 then old(lazyNamer) else none
      ensures built == old(built) && names == old(names) && hosts == old(hosts) && guestToHost == old(guestToHost)
      ensures hostToGuest == old(hostToGuest) && stands == old(stands) && stubs == old(stubs)
    {
      hide ValidState, Begun;
      Init();
      previous := if lazyNamer != 0 then lazyNamer else none;
      lazyNamer := hook;
    }

    // Two lists can be built one after the other exactly where the second can be under the names the first leaves.
    lemma {:induction false} CanBuildBoth(namer: nat, a: seq<nat>, b: seq<nat>, names: set<string>)
      ensures CanBuild(namer, a + b, names) <==> CanBuild(namer, a, names) && CanBuild(namer, b, names + NamesOf(namer, a))
      ensures NamesOf(namer, a + b) == NamesOf(namer, a) + NamesOf(namer, b)
      decreases |b|
    {
      hide NameFor, IsClass;
      if b == [] {
        assert a + b == a;
        NoClasses(namer, names + NamesOf(namer, a));
      } else {
        var n := |b| - 1;
        CanBuildBoth(namer, a, b[..n], names);
        assert a + b == a + b[..n] + [b[n]] && b == b[..n] + [b[n]];
        hide CanBuild, NamesOf;
        OneMoreClass(namer, a + b[..n], b[n], names);
        OneMoreClass(namer, b[..n], b[n], names + NamesOf(namer, a));
      }
    }

    // What can be built for all of them can be for the first i.
    lemma {:induction false} CanBuildFirst(scene: Scene, namer: nat, xs: seq<nat>, i: nat, names: set<string>)
      requires i <= |xs| && CanBuild(namer, scene.ToBuildForAll(xs), names)
      ensures CanBuild(namer, scene.ToBuildForAll(xs[..i]), names)
      decreases |xs|
    {
      hide CanBuild, Scene.ToBuildFor, Scene.After;
      if i < |xs| {
        var before := scene.ToBuildForAll(xs[..|xs| - 1]);
        CanBuildBoth(namer, before, scene.After(before).ToBuildFor(xs[|xs| - 1]), names);
        CanBuildFirst(scene, namer, xs[..|xs| - 1], i, names);
        assert xs[..|xs| - 1][..i] == xs[..i];
      } else {
        assert xs[..i] == xs;
      }
    }

    // Translates each value of a list, so that the static classes among them are built, with what they need above them. False
    // where the process stops, at the first of those that cannot be built.
    method RegisterListed(listed: seq<nat>) returns (ok: bool)
      requires Valid() && StaticsReadable()
      modifies this
      ensures ok ==> Valid() && started && forall i :: 0 <= i < |listed| && Static(listed[i]) ==> listed[i] in stands
      ensures ok <==> CanBuild(lazyNamer, old(Begun()).ToBuildForAll(listed), old(names))
      ensures ok ==> Built(old(built), old(names), old(Begun()).ToBuildForAll(listed))
      ensures lazyNamer == old(lazyNamer)
    {
      hide Valid, Static, CanBuild, NamesOf, Begun, Here, Scene.ToBuildFor, Scene.After, Scene.ToBuildForAll;
      ghost var scene, known, names0 := Begun(), built, names;
      Init();
      NothingListed(scene, known);
      for i := 0 to |listed|
        invariant Valid() && started && lazyNamer == old(lazyNamer)
        invariant forall j :: 0 <= j < i && Static(listed[j]) ==> listed[j] in stands
        invariant Here() == scene.After(scene.ToBuildForAll(listed[..i]))
        invariant CanBuild(lazyNamer, scene.ToBuildForAll(listed[..i]), names0)
        invariant Built(known, names0, scene.ToBuildForAll(listed[..i]))
      {
        ghost var before := scene.ToBuildForAll(listed[..i]);
        ghost var more := scene.After(before).ToBuildFor(listed[i]);
        ListedMore(scene, listed, i);
        CanBuildBoth(lazyNamer, before, more, names0);
        scene.AfterBoth(before, more);
        var host, made := ClassFromGuest(listed[i]);
        if !made {
          if CanBuild(lazyNamer, scene.ToBuildForAll(listed), names0) {
            CanBuildFirst(scene, lazyNamer, listed, i + 1, names0);
          }
          return false;
        }
        assert known + before + more == known + (before + more);
      }
      assert listed[..|listed|] == listed;
      ok := true;
    }

    lemma NothingListed(scene: Scene, known: seq<nat>)
      requires Here() == scene
      ensures scene.ToBuildForAll([]) == [] && scene.After([]) == scene && CanBuild(lazyNamer, [], names)
      ensures NamesOf(lazyNamer, []) == {} && known + [] == known
    {
    }

    lemma ListedMore(scene: Scene, listed: seq<nat>, i: nat)
      requires i < |listed|
      ensures var before := scene.ToBuildForAll(listed[..i]);
              scene.ToBuildForAll(listed[..i + 1]) == before + scene.After(before).ToBuildFor(listed[i])
    {
      assert listed[..i + 1][..i] == listed[..i];
    }

    // Each static class or metaclass is in exactly one of the unbuilt and the built table.
    lemma StaticInOne(x: nat)
      requires Valid() && started && Static(x)
      ensures x in unbuilt <==> x !in guestToHost
    {
      PairsAre(x);
    }
  }
}
