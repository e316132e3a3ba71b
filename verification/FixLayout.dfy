/** The load-time slide of guest ivar layouts: every guest class is moved up past its superclass's final instance size,
  * memoised over a class table that may list classes in any order.
  */
module FixLayout {
  import opened Wrappers

  // `offsetVar` is the address of the ivar's offset variable. `size` is what the guest's ivar list gives it; the slide does
  // not read it.
  datatype Ivar = Ivar(offsetVar: nat, guestOffset: nat, size: nat)

  // `superGuest` is 0 when the superclass is not a guest class.
  datatype Layout = Layout(ro: nat, address: nat, superHost: Option<string>, superGuest: nat, start: nat, size: nat,
                           ivars: seq<Ivar>)

  datatype Ro = Ro(instanceStart: nat, instanceSize: nat)

  // `hosts` gives the instance size of each class the host runtime knows.
  datatype Table = Table(layouts: seq<Layout>, hosts: map<string, nat>)
  {
    // The first layout of a class, as the linear search of the table finds it.
    function Find(address: nat, from: nat := 0): (r: Option<nat>)
      requires from <= |layouts|
      ensures r.Some? ==> from <= r.value < |layouts| && layouts[r.value].address == address
      ensures r.Some? ==> forall i :: from <= i < r.value ==> layouts[i].address != address
      ensures r.None? ==> forall i :: from <= i < |layouts| ==> layouts[i].address != address
      decreases |layouts| - from
    {
      if from == |layouts| then None
      else if layouts[from].address == address then Some(from)
      else Find(address, from + 1)
    }

    function GuestSuper(i: nat): (r: Option<nat>)
      requires i < |layouts|
      ensures r.Some? ==> r.value < |layouts|
    {
      if layouts[i].superGuest == 0 then None else Find(layouts[i].superGuest)
    }

    // The superclass chains end: `rank` falls along them.
    ghost predicate Acyclic(rank: seq<nat>) {
      |rank| == |layouts| && forall i :: 0 <= i < |layouts| && GuestSuper(i).Some? ==> rank[GuestSuper(i).value] < rank[i]
    }

    // Each class has its own class_ro_t and each ivar its own offset variable.
    ghost predicate Unshared() {
      && (forall i, j :: 0 <= i < |layouts| && 0 <= j < |layouts| && layouts[i].ro == layouts[j].ro ==> i == j)
      && (forall i, k, m :: 0 <= i < |layouts| && 0 <= k < m < |layouts[i].ivars| ==>
            layouts[i].ivars[k].offsetVar != layouts[i].ivars[m].offsetVar)
      && (forall i, j :: 0 <= i < |layouts| && 0 <= j < |layouts| && i != j ==> Variables(i) !! Variables(j))
    }

    function Variables(i: nat): set<nat>
      requires i < |layouts|
    {
      set k | 0 <= k < |layouts[i].ivars| :: layouts[i].ivars[k].offsetVar
    }

    // The plain recursive definition of the slide.
    ghost function SuperSize(rank: seq<nat>, i: nat): nat
      requires Acyclic(rank) && i < |layouts|
      decreases rank[i]
    {
      if layouts[i].superGuest != 0 then
        match GuestSuper(i)
        case Some(s) => layouts[s].size + ShiftFor(s, SuperSize(rank, s))
        case None => 0
      else if layouts[i].superHost.Some? && layouts[i].superHost.value in hosts then hosts[layouts[i].superHost.value]
      else layouts[i].start
    }

    function ShiftFor(i: nat, superSize: nat): nat
      requires i < |layouts|
    {
      if superSize > layouts[i].start then superSize - layouts[i].start else 0
    }

    ghost function Shift(rank: seq<nat>, i: nat): nat
      requires Acyclic(rank) && i < |layouts|
    {
      ShiftFor(i, SuperSize(rank, i))
    }

    ghost function FinalSize(rank: seq<nat>, i: nat): nat
      requires Acyclic(rank) && i < |layouts|
    {
      layouts[i].size + Shift(rank, i)
    }

    ghost function FinalStart(rank: seq<nat>, i: nat): nat
      requires Acyclic(rank) && i < |layouts|
    {
      layouts[i].start + Shift(rank, i)
    }

    ghost function FinalOffset(rank: seq<nat>, i: nat, k: nat): nat
      requires Acyclic(rank) && i < |layouts| && k < |layouts[i].ivars|
    {
      layouts[i].ivars[k].guestOffset + Shift(rank, i)
    }

    // Every quantity of the slide is below 2^31, so the 32-bit arithmetic of the code is exact.
    ghost predicate Fits(rank: seq<nat>)
      requires Acyclic(rank)
    {
      forall i :: 0 <= i < |layouts| ==>
        && SuperSize(rank, i) < 0x8000_0000 && FinalSize(rank, i) < 0x8000_0000 && FinalStart(rank, i) < 0x8000_0000
        && forall k :: 0 <= k < |layouts[i].ivars| ==> FinalOffset(rank, i, k) < 0x8000_0000
    }

    // Layout j is the first that has this class.
    ghost predicate FirstWith(address: nat, j: nat) {
      j < |layouts| && layouts[j].address == address && forall m :: 0 <= m < j ==> layouts[m].address != address
    }

    // Class i starts where the guest's compiler put it, or where its superclass ends, whichever is further. A guest class ends
    // where its own class_ro_t says, and one the host knows at its size there; any other ends nowhere.
    ghost predicate StartsRight(i: nat, ros: map<nat, Ro>, start: int)
      requires i < |layouts| && forall j :: 0 <= j < |layouts| ==> layouts[j].ro in ros
    {
      var l := layouts[i];
      if l.superGuest != 0 then
        && (forall j: nat :: FirstWith(l.superGuest, j) ==> start == Larger(l.start, ros[layouts[j].ro].instanceSize))
        && ((forall j :: 0 <= j < |layouts| ==> layouts[j].address != l.superGuest) ==> start == l.start)
      else if l.superHost.Some? && l.superHost.value in hosts then start == Larger(l.start, hosts[l.superHost.value])
      else start == l.start
    }

    // So it is for the recursive definition; the instance grows and the ivars move by as much as the start.
    lemma StartsWhereFurther(rank: seq<nat>, ros: map<nat, Ro>, i: nat)
      requires Acyclic(rank) && i < |layouts|
      requires forall j :: 0 <= j < |layouts| ==> layouts[j].ro in ros && ros[layouts[j].ro].instanceSize == FinalSize(rank, j)
      ensures StartsRight(i, ros, FinalStart(rank, i))
      ensures FinalSize(rank, i) - layouts[i].size == FinalStart(rank, i) - layouts[i].start
      ensures forall k :: 0 <= k < |layouts[i].ivars| ==>
        FinalOffset(rank, i, k) - layouts[i].ivars[k].guestOffset == FinalStart(rank, i) - layouts[i].start
    {
      var l := layouts[i];
      if l.superGuest != 0 {
        forall j: nat ensures FirstWith(l.superGuest, j) ==> GuestSuper(i) == Some(j) {
          FoundFirst(l.superGuest, j);
        }
        if forall j :: 0 <= j < |layouts| ==> layouts[j].address != l.superGuest {
          assert GuestSuper(i) == None;
        }
      }
      hide FirstWith, GuestSuper;
    }

    lemma FoundFirst(address: nat, j: nat)
      ensures FirstWith(address, j) <==> Find(address) == Some(j)
    {
    }

    // What the guest's own compiler and the check xlgen makes give: a class's ivars lie from its instanceStart up, and inside
    // the instance to their last byte.
    ghost predicate GuestSound() {
      forall i :: 0 <= i < |layouts| ==>
        layouts[i].start <= layouts[i].size
        && forall k :: 0 <= k < |layouts[i].ivars| ==>
             layouts[i].start <= layouts[i].ivars[k].guestOffset
             && layouts[i].ivars[k].guestOffset + layouts[i].ivars[k].size <= layouts[i].size
    }

    // `a` is n guest superclass steps above `i`.
    ghost predicate Ancestor(i: nat, a: nat, n: nat)
      requires i < |layouts|
      decreases n
    {
      if n == 0 then a == i else GuestSuper(i).Some? && Ancestor(GuestSuper(i).value, a, n - 1)
    }

    // A class starts where its superclass ends or later, whether the superclass is a guest's or the host's.
    lemma StartsPastSuper(rank: seq<nat>, i: nat)
      requires Acyclic(rank) && i < |layouts|
      ensures GuestSuper(i).Some? ==> FinalSize(rank, GuestSuper(i).value) <= FinalStart(rank, i)
      ensures layouts[i].superGuest == 0 && layouts[i].superHost.Some? && layouts[i].superHost.value in hosts ==>
                hosts[layouts[i].superHost.value] <= FinalStart(rank, i)
    {
    }

    lemma {:induction false} StartsPastAncestors(rank: seq<nat>, i: nat, a: nat, n: nat)
      requires Acyclic(rank) && GuestSound() && i < |layouts| && n > 0 && Ancestor(i, a, n)
      ensures a < |layouts| && FinalSize(rank, a) <= FinalStart(rank, i)
      decreases n
    {
      var s := GuestSuper(i).value;
      StartsPastSuper(rank, i);
      if n > 1 {
        StartsPastAncestors(rank, s, a, n - 1);
      }
    }

    // No ivar of a class overlaps one of an ancestor or leaves the instance, and a class's own layout moves as one block,
    // never down.
    lemma IvarsKeepApart(rank: seq<nat>, i: nat, k: nat, a: nat, n: nat, m: nat)
      requires Acyclic(rank) && GuestSound() && i < |layouts| && k < |layouts[i].ivars|
      requires n > 0 && Ancestor(i, a, n) && a < |layouts| && m < |layouts[a].ivars|
      ensures FinalOffset(rank, a, m) + layouts[a].ivars[m].size <= FinalSize(rank, a) <= FinalStart(rank, i)
      ensures FinalStart(rank, i) <= FinalOffset(rank, i, k)
      ensures FinalOffset(rank, i, k) + layouts[i].ivars[k].size <= FinalSize(rank, i)
      ensures FinalSize(rank, i) - FinalStart(rank, i) == layouts[i].size - layouts[i].start
      ensures FinalOffset(rank, i, k) - FinalStart(rank, i) == layouts[i].ivars[k].guestOffset - layouts[i].start
      ensures FinalOffset(rank, i, k) >= layouts[i].ivars[k].guestOffset
    {
      StartsPastAncestors(rank, i, a, n);
    }

    // Each class address has one layout.
    ghost predicate DistinctClasses() {
      forall i, j :: 0 <= i < |layouts| && 0 <= j < |layouts| && layouts[i].address == layouts[j].address ==> i == j
    }
  }

  function Larger(a: int, b: int): int {
    if a < b then b else a
  }

  // The slide of a class does not depend on the order of the table, nor on how the superclass chains are measured.
  lemma {:induction false} OrderIrrelevant(t: Table, u: Table, rank: seq<nat>, other: seq<nat>, i: nat, j: nat)
    requires t.hosts == u.hosts && t.DistinctClasses() && u.DistinctClasses()
    requires forall l :: l in t.layouts <==> l in u.layouts
    requires t.Acyclic(rank) && u.Acyclic(other) && i < |t.layouts| && j < |u.layouts| && t.layouts[i] == u.layouts[j]
    ensures t.Shift(rank, i) == u.Shift(other, j) && t.FinalSize(rank, i) == u.FinalSize(other, j)
    decreases rank[i]
  {
    SameSuper(t, u, i, j);
    if t.GuestSuper(i).Some? {
      OrderIrrelevant(t, u, rank, other, t.GuestSuper(i).value, u.GuestSuper(j).value);
    }
  }

  lemma SameSuper(t: Table, u: Table, i: nat, j: nat)
    requires t.DistinctClasses() && u.DistinctClasses() && forall l :: l in t.layouts <==> l in u.layouts
    requires i < |t.layouts| && j < |u.layouts| && t.layouts[i] == u.layouts[j]
    ensures t.GuestSuper(i).Some? <==> u.GuestSuper(j).Some?
    ensures t.GuestSuper(i).Some? ==> t.layouts[t.GuestSuper(i).value] == u.layouts[u.GuestSuper(j).value]
  {
    if t.GuestSuper(i).Some? {
      assert t.layouts[t.GuestSuper(i).value] in u.layouts;
    }
    if u.GuestSuper(j).Some? {
      assert u.layouts[u.GuestSuper(j).value] in t.layouts;
    }
  }

  // The value of a uint32 read as an int32, and back.
  function AsInt32(u: int): int {
    var w := u % 0x1_0000_0000;
    if w < 0x8000_0000 then w else w - 0x1_0000_0000
  }

  function AsUint32(i: int): nat {
    i % 0x1_0000_0000
  }

  lemma Small(u: nat)
    requires u < 0x8000_0000
    ensures AsInt32(u) == u && AsUint32(u) == u
  {
  }

  class Runtime {
    const table: Table
    const readOnly: set<nat>          // offset variables whose memory cannot be written, or not be queried
    ghost const rank: seq<nat>
    ghost const initial: map<nat, int>
    ghost const initialRos: map<nat, Ro>
    var fixed: set<nat>               // the class_ro_t of every class begun
    var ros: map<nat, Ro>
    var offsets: map<nat, int>        // the offset variables

    constructor (table: Table, readOnly: set<nat>, ros: map<nat, Ro>, offsets: map<nat, int>, ghost rank: seq<nat>)
      ensures this.table == table && this.readOnly == readOnly && this.rank == rank && initial == offsets && initialRos == ros
      ensures fixed == {} && this.ros == ros && this.offsets == offsets
    {
      this.table, this.readOnly, this.rank, this.initial, initialRos := table, readOnly, rank, offsets, ros;
      fixed, this.ros, this.offsets := {}, ros, offsets;
    }

    ghost predicate Ready() {
      table.Acyclic(rank) && table.Unshared() && table.Fits(rank)
    }

    ghost predicate HasMemory()
      reads this
    {
      forall i :: 0 <= i < |table.layouts| ==>
        table.layouts[i].ro in ros
        && forall k :: 0 <= k < |table.layouts[i].ivars| ==>
             table.layouts[i].ivars[k].offsetVar in offsets && table.layouts[i].ivars[k].offsetVar in initial
    }

    // Class i has the layout of the recursive definition.
    ghost predicate Final(i: nat)
      reads this
      requires Ready() && HasMemory() && i < |table.layouts|
    {
      && ros[table.layouts[i].ro] == Ro(table.FinalStart(rank, i), table.FinalSize(rank, i))
      && forall k :: 0 <= k < |table.layouts[i].ivars| ==>
          offsets[table.layouts[i].ivars[k].offsetVar] == table.FinalOffset(rank, i, k)
    }

    // The layouts in memory: class i starts right by the sizes the others have there, and all of it has moved alike.
    ghost predicate LaidRight(i: nat)
      reads this
      requires HasMemory() && i < |table.layouts|
    {
      var l := table.layouts[i];
      && table.StartsRight(i, ros, ros[l.ro].instanceStart)
      && ros[l.ro].instanceSize - l.size == ros[l.ro].instanceStart - l.start
      && forall k :: 0 <= k < |l.ivars| ==>
           offsets[l.ivars[k].offsetVar] - l.ivars[k].guestOffset == ros[l.ro].instanceStart - l.start
    }

    lemma FinalIsRight(i: nat)
      requires Ready() && HasMemory() && i < |table.layouts| && forall j :: 0 <= j < |table.layouts| ==> Final(j)
      ensures LaidRight(i)
    {
      forall j | 0 <= j < |table.layouts| ensures ros[table.layouts[j].ro].instanceSize == table.FinalSize(rank, j) {
        assert Final(j);
      }
      table.StartsWhereFurther(rank, ros, i);
      assert Final(i);
      hide Final;
    }

    lemma AllRight()
      requires Standing({}) && forall i :: 0 <= i < |table.layouts| ==> table.layouts[i].ro in fixed
      ensures forall i :: 0 <= i < |table.layouts| ==> Final(i) && LaidRight(i)
    {
      hide LaidRight, Final;
      forall i: nat | i < |table.layouts| ensures LaidRight(i) {
        FinalIsRight(i);
      }
    }

    ghost predicate Original(i: nat)
      reads this
      requires HasMemory() && i < |table.layouts|
    {
      forall k :: 0 <= k < |table.layouts[i].ivars| ==>
        offsets[table.layouts[i].ivars[k].offsetVar] == initial[table.layouts[i].ivars[k].offsetVar]
    }

    // The classes of `stack` are begun; every other class begun is finished, and the rest are untouched.
    ghost predicate Standing(stack: set<nat>)
      reads this
    {
      && Ready() && HasMemory()
      && (forall i :: i in stack ==> i < |table.layouts| && table.layouts[i].ro in fixed)
      && (forall i :: 0 <= i < |table.layouts| && table.layouts[i].ro in fixed && i !in stack ==> Final(i))
      && (forall i :: 0 <= i < |table.layouts| && (table.layouts[i].ro !in fixed || i in stack) ==> Original(i))
      && ReadOnlyKept() && Elsewhere()
    }

    // Nothing but the table's own classes and offset variables has changed.
    ghost predicate Elsewhere()
      reads this
    {
      Outside(ros, offsets)
    }

    ghost predicate Outside(ros: map<nat, Ro>, offsets: map<nat, int>) {
      && (forall v :: v in initial && (forall i :: 0 <= i < |table.layouts| ==> v !in table.Variables(i)) ==>
            v in offsets && offsets[v] == initial[v])
      && (forall r :: r in initialRos && (forall i :: 0 <= i < |table.layouts| ==> r != table.layouts[i].ro) ==>
            r in ros && ros[r] == initialRos[r])
    }

    lemma StillOutside(i: nat, ros: map<nat, Ro>, offsets: map<nat, int>, ro: Ro, more: map<nat, int>)
      requires i < |table.layouts| && Outside(ros, offsets) && more.Keys == offsets.Keys
      requires forall v :: v in more && v !in table.Variables(i) ==> more[v] == offsets[v]
      ensures Outside(ros[table.layouts[i].ro := ro], more)
    {
      hide Table.Variables;
    }

    // Some offset variable would have to move although it cannot be written.
    ghost predicate Stuck()
    {
      && table.Acyclic(rank)
      && exists i, k :: 0 <= i < |table.layouts| && 0 <= k < |table.layouts[i].ivars|
                        && table.layouts[i].ivars[k].offsetVar in readOnly && table.layouts[i].ivars[k].offsetVar in initial
                        && initial[table.layouts[i].ivars[k].offsetVar] != table.FinalOffset(rank, i, k)
    }

    ghost function Unbegun(): set<nat>
      reads this
    {
      (set i | 0 <= i < |table.layouts| :: table.layouts[i].ro) - fixed
    }

    // Lay out class i and, before it, its superclasses. False when an offset that must move cannot be written, where the
    // process aborts.
    method FixLayout(i: nat, ghost stack: set<nat>) returns (size: nat, ok: bool)
      requires Standing(stack) && i < |table.layouts|
      requires forall j :: j in stack ==> rank[j] > rank[i]
      modifies this
      ensures !ok ==> Stuck()
      ensures ok ==> Standing(stack) && old(fixed) <= fixed && table.layouts[i].ro in fixed
      ensures ok ==> size == table.FinalSize(rank, i)
      decreases Unbegun(), 0
    {
      hide Outside;
      if table.layouts[i].ro in fixed {
        assert Final(i);
        return ros[table.layouts[i].ro].instanceSize, true;
      }
      Begin(i, stack);
      var superSize;
      superSize, ok := SuperInstanceSize(i, stack + {i});
      if ok {
        assert i !in stack;
        ok := Slide(i, superSize, stack);
      }
      if !ok {
        return 0, false;
      }
      return ros[table.layouts[i].ro].instanceSize, true;
    }

    method Begin(i: nat, ghost stack: set<nat>)
      requires Standing(stack) && i < |table.layouts| && table.layouts[i].ro !in fixed
      modifies `fixed
      ensures Standing(stack + {i}) && fixed == old(fixed) + {table.layouts[i].ro}
      ensures Unbegun() < old(Unbegun())
    {
      hide Outside;
      assert table.layouts[i].ro in Unbegun();
      fixed := fixed + {table.layouts[i].ro};
    }

    // The final instance size of class i's superclass.
    method SuperInstanceSize(i: nat, ghost stack: set<nat>) returns (superSize: nat, ok: bool)
      requires Standing(stack) && i in stack && i < |table.layouts|
      requires forall j :: j in stack ==> rank[j] >= rank[i]
      modifies this
      ensures !ok ==> Stuck()
      ensures ok ==> Standing(stack) && old(fixed) <= fixed
      ensures ok ==> superSize == table.SuperSize(rank, i)
      decreases Unbegun(), 1
    {
      var l := table.layouts[i];
      ok := true;
      if l.superGuest != 0 {
        var s := table.Find(l.superGuest);
        if s == None {
          superSize := 0;
        } else {
          assert table.GuestSuper(i) == s;
          superSize, ok := FixLayout(s.value, stack);
        }
      } else if l.superHost.Some? {
        superSize := if l.superHost.value in table.hosts then table.hosts[l.superHost.value] else l.start;
      } else {
        superSize := l.start;
      }
    }

    method Slide(i: nat, superSize: nat, ghost stack: set<nat>) returns (ok: bool)
      requires Standing(stack + {i}) && i < |table.layouts| && i !in stack && superSize == table.SuperSize(rank, i)
      modifies `ros, `offsets
      ensures !ok ==> Stuck()
      ensures ok ==> Standing(stack) && Final(i)
    {
      ok := StoreLayout(i, superSize);
      if ok {
        forall j | 0 <= j < |table.layouts| && j != i
          ensures table.layouts[j].ro in fixed && j !in stack ==> Final(j)
          ensures table.layouts[j].ro !in fixed || j in stack ==> Original(j)
        {
          assert old(table.layouts[j].ro in fixed && j !in stack + {i} ==> Final(j));
          assert old(table.layouts[j].ro !in fixed || j in stack + {i} ==> Original(j));
        }
      }
    }

    // Store the slid offsets that change, then the class's own extent.
    method StoreLayout(i: nat, superSize: nat) returns (ok: bool)
      requires Ready() && HasMemory() && ReadOnlyKept() && i < |table.layouts| && superSize == table.SuperSize(rank, i)
      modifies `ros, `offsets
      ensures !ok ==> Stuck()
      ensures ok ==> HasMemory() && ReadOnlyKept() && Final(i) && (old(Elsewhere()) ==> Elsewhere())
      ensures ok ==> forall j :: 0 <= j < |table.layouts| && j != i ==>
        && ros[table.layouts[j].ro] == old(ros[table.layouts[j].ro])
        && forall k :: 0 <= k < |table.layouts[j].ivars| ==>
             offsets[table.layouts[j].ivars[k].offsetVar] == old(offsets[table.layouts[j].ivars[k].offsetVar])
    {
      hide AsInt32, AsUint32, Outside;
      var l := table.layouts[i];
      SmallNumbers(i);
      var shift := AsInt32(superSize) - AsInt32(l.start);
      if shift < 0 {
        shift := 0;
      }
      ok := StoreOffsets(i, shift);
      if ok {
        var ro := Ro(AsUint32(AsInt32(l.start) + shift), AsUint32(AsInt32(l.size) + shift));
        if old(Elsewhere()) {
          StillOutside(i, ros, old(offsets), ro, offsets);
        }
        ros := ros[l.ro := ro];
        forall j | 0 <= j < |table.layouts| && j != i
          ensures ros[table.layouts[j].ro] == old(ros[table.layouts[j].ro])
          ensures forall k :: 0 <= k < |table.layouts[j].ivars| ==>
            offsets[table.layouts[j].ivars[k].offsetVar] == old(offsets[table.layouts[j].ivars[k].offsetVar])
        {
          Untouched(i, j);
        }
      }
    }

    // The 32-bit arithmetic on class i's extent is exact.
    lemma SmallNumbers(i: nat)
      requires Ready() && i < |table.layouts|
      ensures AsInt32(table.SuperSize(rank, i)) == table.SuperSize(rank, i)
      ensures AsInt32(table.layouts[i].start) == table.layouts[i].start && AsInt32(table.layouts[i].size) == table.layouts[i].size
      ensures AsUint32(table.FinalStart(rank, i)) == table.FinalStart(rank, i)
      ensures AsUint32(table.FinalSize(rank, i)) == table.FinalSize(rank, i)
    {
      Small(table.SuperSize(rank, i));
      Small(table.layouts[i].start);
      Small(table.layouts[i].size);
      Small(table.FinalStart(rank, i));
      Small(table.FinalSize(rank, i));
    }

    lemma Untouched(i: nat, j: nat)
      requires Ready() && i < |table.layouts| && j < |table.layouts| && i != j
      ensures table.layouts[i].ro != table.layouts[j].ro
      ensures forall k :: 0 <= k < |table.layouts[j].ivars| ==> table.layouts[j].ivars[k].offsetVar !in table.Variables(i)
    {
      forall k | 0 <= k < |table.layouts[j].ivars| ensures table.layouts[j].ivars[k].offsetVar !in table.Variables(i) {
        assert table.layouts[j].ivars[k].offsetVar in table.Variables(j);
      }
    }

    ghost predicate ReadOnlyKept()
      reads this
    {
      forall v :: v in readOnly && v in offsets && v in initial ==> offsets[v] == initial[v]
    }

    method StoreOffsets(i: nat, shift: int) returns (ok: bool)
      requires Ready() && HasMemory() && ReadOnlyKept() && i < |table.layouts| && shift == table.Shift(rank, i)
      modifies `offsets
      ensures !ok ==> Stuck()
      ensures offsets.Keys == old(offsets.Keys) && ReadOnlyKept()
      ensures forall v :: v in offsets && v !in table.Variables(i) ==> offsets[v] == old(offsets[v])
      ensures ok ==> forall k :: 0 <= k < |table.layouts[i].ivars| ==>
        offsets[table.layouts[i].ivars[k].offsetVar] == table.FinalOffset(rank, i, k)
    {
      hide AsInt32;
      var l := table.layouts[i];
      for k := 0 to |l.ivars|
        invariant offsets.Keys == old(offsets.Keys) && ReadOnlyKept()
        invariant forall v :: v in offsets && v !in table.Variables(i) ==> offsets[v] == old(offsets[v])
        invariant forall m :: 0 <= m < k ==> offsets[l.ivars[m].offsetVar] == table.FinalOffset(rank, i, m)
      {
        assert table.FinalOffset(rank, i, k) < 0x8000_0000;
        Small(l.ivars[k].guestOffset);
        var offset := AsInt32(l.ivars[k].guestOffset) + shift;
        var variable := l.ivars[k].offsetVar;
        assert variable in table.Variables(i) && variable in offsets.Keys;
        if offsets[variable] != offset {
          if variable in readOnly {
            assert offsets[variable] == initial[variable];
            return false;
          }
          offsets := offsets[variable := offset];
        }
      }
      ok := true;
    }

    // Every class of the table, in table order.
    method FixLayouts() returns (ok: bool)
      requires Ready() && HasMemory() && initial == offsets && initialRos == ros
      modifies this
      ensures ok <==> !Stuck()
      ensures ok ==> HasMemory() && Elsewhere() && forall i :: 0 <= i < |table.layouts| ==> Final(i) && LaidRight(i)
    {
      hide LaidRight;
      fixed := {};
      var n := 0;
      while n < |table.layouts|
        invariant 0 <= n <= |table.layouts|
        invariant Standing({})
        invariant forall i :: 0 <= i < n ==> table.layouts[i].ro in fixed
      {
        var _, laid := FixLayout(n, {});
        if !laid {
          return false;
        }
        n := n + 1;
      }
      AllRight();
      ok := true;
    }
  }
}
