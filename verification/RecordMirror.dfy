/** The conversion of records between the guest's layout and the host's: the leaves of a record, the packed mirror that puts
  * every one of them where the guest has it, and the trip of a whole record there and back.
  */
module RecordMirror {
  import opened Wrappers
  import opened ScalarBridge

  datatype Field = Field(offset: nat, bitField: bool, t: Type)

  // A union is a record whose fields overlap. The sizes are the guest's; nothing asks for the host's.
  datatype Type = Value(s: Scalar) | Record(fields: seq<Field>, size: nat) | Elements(element: Type, count: nat)

  function Width(s: Scalar): nat {
    match s
    case Integer(_, bits) => Bytes(bits)
    case Floating(bits) => Bytes(bits)
    case _ => 8
  }

  function Size(t: Type): nat {
    match t
    case Value(s) => Width(s)
    case Record(_, size) => size
    case Elements(element, count) => count * Size(element)
  }

  // How a compiler lays out anything but a union.
  ghost predicate WellLaid(t: Type) {
    match t
    case Value(_) => true
    case Record(fields, size) =>
      && (forall i, j :: 0 <= i < j < |fields| ==> fields[i].offset + Size(fields[i].t) <= fields[j].offset)
      && (forall i :: 0 <= i < |fields| ==> fields[i].offset + Size(fields[i].t) <= size && WellLaid(fields[i].t))
    case Elements(element, _) => WellLaid(element)
  }

  // The guest's and the host's declaration of one type: arrays match arrays, scalars scalars.
  ghost predicate Comparable(g: Type, h: Type) {
    match g
    case Value(_) => h.Value?
    case Record(fields, _) =>
      h.Record? ==> forall i :: 0 <= i < |fields| && i < |h.fields| ==> Comparable(fields[i].t, h.fields[i].t)
    case Elements(element, count) => h.Elements? && Comparable(element, h.element)
  }

  // Some scalar lies in the type.
  ghost predicate HasScalar(t: Type) {
    match t
    case Value(_) => true
    case Record(fields, _) => exists i :: 0 <= i < |fields| && HasScalar(fields[i].t)
    case Elements(element, count) => count > 0 && HasScalar(element)
  }

  // Every array of `a` that holds a scalar is no longer than the one of `b` in its place.
  ghost predicate NoLonger(a: Type, b: Type) {
    match a
    case Value(_) => true
    case Record(fields, _) =>
      b.Record? ==> forall i :: 0 <= i < |fields| && i < |b.fields| ==> NoLonger(fields[i].t, b.fields[i].t)
    case Elements(element, count) =>
      count > 0 && HasScalar(element) ==> b.Elements? && count <= b.count && NoLonger(element, b.element)
  }

  // --- leaves ---

  // A scalar of a record, by the fields and elements that lead to it.
  datatype Leaf = Leaf(path: seq<nat>, offset: nat, guest: Scalar, host: Scalar)

  // The leaves of what lies at a path and an offset.
  function At(leaves: seq<Leaf>, path: seq<nat>, base: nat): (r: seq<Leaf>)
    ensures |r| == |leaves|
  {
    seq(|leaves|, i requires 0 <= i < |leaves| =>
      leaves[i].(path := path + leaves[i].path, offset := base + leaves[i].offset))
  }

  ghost function Both(a: Option<seq<Leaf>>, b: Option<seq<Leaf>>): Option<seq<Leaf>> {
    if a.Some? && b.Some? then Some(a.value + b.value) else None
  }

  ghost function Nested(a: Option<seq<Leaf>>, k: nat, base: nat): Option<seq<Leaf>> {
    if a.Some? then Some(At(a.value, [k], base)) else None
  }

  ghost function LeavesOf(g: Type, h: Type): Option<seq<Leaf>>
    requires Comparable(g, h)
    decreases g, 1, 0
  {
    match g
    case Value(s) => if s.Unsupported? then None else Some([Leaf([], 0, s, h.s)])
    case Record(_, _) => if h.Record? then FieldLeaves(g, h, 0) else None
    case Elements(_, _) => ElementLeaves(g, h, 0)
  }

  ghost function FieldLeaves(g: Type, h: Type, i: nat): Option<seq<Leaf>>
    requires Comparable(g, h) && g.Record? && h.Record? && i <= |g.fields|
    decreases g, 0, |g.fields| - i
  {
    if i == |g.fields| then if i == |h.fields| then Some([]) else None
    else if i >= |h.fields| || g.fields[i].bitField then None
    else Both(Nested(LeavesOf(g.fields[i].t, h.fields[i].t), i, g.fields[i].offset), FieldLeaves(g, h, i + 1))
  }

  ghost function ElementLeaves(g: Type, h: Type, i: nat): Option<seq<Leaf>>
    requires Comparable(g, h) && g.Elements? && i <= g.count
    decreases g, 0, g.count - i
  {
    if i == g.count then Some([])
    else Both(Nested(LeavesOf(g.element, h.element), i, i * Size(g.element)), ElementLeaves(g, h, i + 1))
  }

  lemma AtAt(leaves: seq<Leaf>, path: seq<nat>, base: nat, path1: seq<nat>, base1: nat)
    ensures At(At(leaves, path1, base1), path, base) == At(leaves, path + path1, base + base1)
  {
    forall i | 0 <= i < |leaves|
      ensures At(At(leaves, path1, base1), path, base)[i] == At(leaves, path + path1, base + base1)[i]
    {
      assert path + (path1 + leaves[i].path) == path + path1 + leaves[i].path;
    }
  }

  lemma AtBoth(a: seq<Leaf>, b: seq<Leaf>, path: seq<nat>, base: nat)
    ensures At(a + b, path, base) == At(a, path, base) + At(b, path, base)
  {
  }

  // Appends the leaves of a type to `out0`, left to right; false where a field cannot be converted.
  method Leaves(g: Type, h: Type, path: seq<nat>, base: nat, out0: seq<Leaf>) returns (ok: bool, out: seq<Leaf>)
    requires Comparable(g, h)
    ensures ok <==> Taken(g, h)
    ensures ok <==> LeavesOf(g, h).Some?
    ensures ok ==> out == out0 + At(LeavesOf(g, h).value, path, base)
    decreases g, 1
  {
    hide At, Taken;
    LeavesWhereTaken(g, h);
    ok, out := true, out0;
    match g
    case Record(fields, _) =>
      if !h.Record? {
        return false, out;
      }
      var i := 0;
      ghost var done: seq<Leaf> := [];
      Empty(path, base, FieldLeaves(g, h, 0));
      while i < |fields| && i < |h.fields|
        invariant i <= |fields| && i <= |h.fields|
        invariant FieldLeaves(g, h, 0) == Both(Some(done), FieldLeaves(g, h, i))
        invariant out == out0 + At(done, path, base)
      {
        if fields[i].bitField {
          return false, out;
        }
        ok, out := Leaves(fields[i].t, h.fields[i].t, path + [i], base + fields[i].offset, out);
        if !ok {
          return;
        }
        ghost var inner := LeavesOf(fields[i].t, h.fields[i].t).value;
        AtAt(inner, path, base, [i], fields[i].offset);
        AtBoth(done, At(inner, [i], fields[i].offset), path, base);
        BothAgain(done, At(inner, [i], fields[i].offset), FieldLeaves(g, h, i + 1));
        done := done + At(inner, [i], fields[i].offset);
        i := i + 1;
      }
      ok := i == |fields| && i == |h.fields|;
      assert done + [] == done;
    case Elements(element, count) =>
      var i := 0;
      ghost var done: seq<Leaf> := [];
      Empty(path, base, ElementLeaves(g, h, 0));
      while i < count
        invariant i <= count
        invariant ElementLeaves(g, h, 0) == Both(Some(done), ElementLeaves(g, h, i))
        invariant out == out0 + At(done, path, base)
      {
        ok, out := Leaves(element, h.element, path + [i], base + i * Size(element), out);
        if !ok {
          return;
        }
        ghost var inner := LeavesOf(element, h.element).value;
        AtAt(inner, path, base, [i], i * Size(element));
        AtBoth(done, At(inner, [i], i * Size(element)), path, base);
        BothAgain(done, At(inner, [i], i * Size(element)), ElementLeaves(g, h, i + 1));
        done := done + At(inner, [i], i * Size(element));
        i := i + 1;
      }
      ok := true;
      assert done + [] == done;
    case Value(s) =>
      if s.Unsupported? {
        return false, out;
      }
      One(Leaf([], 0, s, h.s), path, base);
      assert path + [] == path;
      out := out + [Leaf(path, base, s, h.s)];
  }

  lemma One(leaf: Leaf, path: seq<nat>, base: nat)
    ensures At([leaf], path, base) == [leaf.(path := path + leaf.path, offset := base + leaf.offset)]
  {
  }

  lemma Empty(path: seq<nat>, base: nat, rest: Option<seq<Leaf>>)
    ensures At([], path, base) == []
    ensures Both(Some([]), rest) == rest
  {
    if rest.Some? {
      assert [] + rest.value == rest.value;
    }
  }

  lemma BothAgain(a: seq<Leaf>, b: seq<Leaf>, rest: Option<seq<Leaf>>)
    ensures Both(Some(a), Both(Some(b), rest)) == Both(Some(a + b), rest)
  {
    if rest.Some? {
      assert a + (b + rest.value) == a + b + rest.value;
    }
  }

  // Nothing the conversion reaches is in its way: no scalar it does not know, no bit-field, and records field by field with no
  // field over.
  ghost predicate Taken(g: Type, h: Type) {
    match g
    case Value(s) => s != Unsupported
    case Record(fields, _) =>
      && h.Record? && |fields| == |h.fields|
      && forall i :: 0 <= i < |fields| ==> !fields[i].bitField && Taken(fields[i].t, h.fields[i].t)
    case Elements(element, count) => count == 0 || (h.Elements? && Taken(element, h.element))
  }

  // There are leaves exactly then.
  lemma {:induction false} LeavesWhereTaken(g: Type, h: Type)
    requires Comparable(g, h)
    ensures LeavesOf(g, h).Some? <==> Taken(g, h)
    decreases g, 1, 0
  {
    match g
    case Value(_) =>
    case Record(_, _) =>
      if h.Record? {
        FieldsWhereTaken(g, h, 0);
      }
    case Elements(_, _) => ElementsWhereTaken(g, h, 0);
  }

  lemma {:induction false} FieldsWhereTaken(g: Type, h: Type, i: nat)
    requires Comparable(g, h) && g.Record? && h.Record? && i <= |g.fields|
    ensures FieldLeaves(g, h, i).Some? <==>
            && |g.fields| == |h.fields|
            && forall j :: i <= j < |g.fields| ==> !g.fields[j].bitField && Taken(g.fields[j].t, h.fields[j].t)
    decreases g, 0, |g.fields| - i
  {
    if i < |g.fields| && i < |h.fields| {
      LeavesWhereTaken(g.fields[i].t, h.fields[i].t);
      FieldsWhereTaken(g, h, i + 1);
    }
  }

  lemma {:induction false} ElementsWhereTaken(g: Type, h: Type, i: nat)
    requires Comparable(g, h) && g.Elements? && i <= g.count
    ensures ElementLeaves(g, h, i).Some? <==> i == g.count || Taken(g.element, h.element)
    decreases g, 0, g.count - i
  {
    if i < g.count {
      LeavesWhereTaken(g.element, h.element);
      ElementsWhereTaken(g, h, i + 1);
    }
  }

  // --- what the leaves are ---

  // The paths that lead to a scalar, and where each leads.
  predicate IsPath(t: Type, p: seq<nat>) {
    match t
    case Value(_) => p == []
    case Record(fields, _) => p != [] && p[0] < |fields| && IsPath(fields[p[0]].t, p[1..])
    case Elements(element, count) => p != [] && p[0] < count && IsPath(element, p[1..])
  }

  function ScalarAt(t: Type, p: seq<nat>): Scalar
    requires IsPath(t, p)
  {
    match t
    case Value(s) => s
    case Record(fields, _) => ScalarAt(fields[p[0]].t, p[1..])
    case Elements(element, _) => ScalarAt(element, p[1..])
  }

  function OffsetAt(t: Type, p: seq<nat>): nat
    requires IsPath(t, p)
  {
    match t
    case Value(_) => 0
    case Record(fields, _) => fields[p[0]].offset + OffsetAt(fields[p[0]].t, p[1..])
    case Elements(element, _) => p[0] * Size(element) + OffsetAt(element, p[1..])
  }

  // The leaf is a scalar of the guest's type, at its offset; and of the host's, with the scalar that is there.
  ghost predicate InGuest(l: Leaf, g: Type) {
    IsPath(g, l.path) && l.offset == OffsetAt(g, l.path) && l.guest == ScalarAt(g, l.path) && !l.guest.Unsupported?
  }

  ghost predicate InHost(l: Leaf, h: Type) {
    IsPath(h, l.path) && l.host == ScalarAt(h, l.path)
  }

  ghost predicate Describes(l: Leaf, g: Type, h: Type) {
    InGuest(l, g) && InHost(l, h)
  }

  // What is so of every leaf, however long the host's arrays are.
  ghost predicate Known(l: Leaf, g: Type, h: Type) {
    InGuest(l, g) && (IsPath(h, l.path) ==> InHost(l, h))
  }

  ghost predicate AllKnown(leaves: seq<Leaf>, g: Type, h: Type) {
    forall l {:trigger l in leaves} :: l in leaves ==> Known(l, g, h)
  }

  ghost predicate AllDescribe(leaves: seq<Leaf>, g: Type, h: Type) {
    forall l {:trigger l in leaves} :: l in leaves ==> Describes(l, g, h)
  }

  ghost predicate Covers(leaves: seq<Leaf>, p: seq<nat>) {
    exists l :: l in leaves && l.path == p
  }

  lemma FieldKnown(l: Leaf, g: Type, h: Type, i: nat)
    requires g.Record? && h.Record? && i < |g.fields| && i < |h.fields| && Known(l, g.fields[i].t, h.fields[i].t)
    ensures Known(l.(path := [i] + l.path, offset := g.fields[i].offset + l.offset), g, h)
  {
    assert ([i] + l.path)[1..] == l.path;
  }

  lemma ElementKnown(l: Leaf, g: Type, h: Type, i: nat)
    requires g.Elements? && h.Elements? && i < g.count && Known(l, g.element, h.element)
    ensures Known(l.(path := [i] + l.path, offset := i * Size(g.element) + l.offset), g, h)
  {
    assert ([i] + l.path)[1..] == l.path;
  }

  lemma AtMembers(leaves: seq<Leaf>, path: seq<nat>, base: nat)
    ensures forall l :: l in At(leaves, path, base) ==>
      exists m :: m in leaves && l == m.(path := path + m.path, offset := base + m.offset)
    ensures forall m :: m in leaves ==> m.(path := path + m.path, offset := base + m.offset) in At(leaves, path, base)
  {
    var r := At(leaves, path, base);
    forall l | l in r
      ensures exists m :: m in leaves && l == m.(path := path + m.path, offset := base + m.offset)
    {
      var i :| 0 <= i < |r| && r[i] == l;
      assert leaves[i] in leaves;
    }
    forall m | m in leaves
      ensures m.(path := path + m.path, offset := base + m.offset) in r
    {
      var i :| 0 <= i < |leaves| && leaves[i] == m;
      assert r[i] in r;
    }
  }

  lemma {:induction false} LeavesKnown(g: Type, h: Type)
    requires Comparable(g, h) && LeavesOf(g, h).Some?
    ensures AllKnown(LeavesOf(g, h).value, g, h)
    decreases g, 1, 0
  {
    match g
    case Value(_) =>
    case Record(_, _) => FieldsKnown(g, h, 0);
    case Elements(_, _) => ElementsKnown(g, h, 0);
  }

  lemma {:induction false} FieldsKnown(g: Type, h: Type, i: nat)
    requires Comparable(g, h) && g.Record? && h.Record? && i <= |g.fields| && FieldLeaves(g, h, i).Some?
    ensures AllKnown(FieldLeaves(g, h, i).value, g, h)
    decreases g, 0, |g.fields| - i
  {
    hide Known, At;
    if i < |g.fields| {
      FieldsKnown(g, h, i + 1);
      LeavesKnown(g.fields[i].t, h.fields[i].t);
      var inner := LeavesOf(g.fields[i].t, h.fields[i].t).value;
      AtMembers(inner, [i], g.fields[i].offset);
      forall m | m in inner
        ensures Known(m.(path := [i] + m.path, offset := g.fields[i].offset + m.offset), g, h)
      {
        FieldKnown(m, g, h, i);
      }
    }
  }

  lemma {:induction false} ElementsKnown(g: Type, h: Type, i: nat)
    requires Comparable(g, h) && g.Elements? && i <= g.count && ElementLeaves(g, h, i).Some?
    ensures AllKnown(ElementLeaves(g, h, i).value, g, h)
    decreases g, 0, g.count - i
  {
    hide Known, At;
    if i < g.count {
      ElementsKnown(g, h, i + 1);
      LeavesKnown(g.element, h.element);
      var inner := LeavesOf(g.element, h.element).value;
      AtMembers(inner, [i], i * Size(g.element));
      forall m | m in inner
        ensures Known(m.(path := [i] + m.path, offset := i * Size(g.element) + m.offset), g, h)
      {
        ElementKnown(m, g, h, i);
      }
    }
  }

  // Every scalar of the guest's type has a leaf.
  lemma {:induction false} LeavesCover(g: Type, h: Type, p: seq<nat>)
    requires Comparable(g, h) && LeavesOf(g, h).Some? && IsPath(g, p)
    ensures Covers(LeavesOf(g, h).value, p)
    decreases g, 1, 0
  {
    match g
    case Value(s) =>
      assert Leaf([], 0, s, h.s) in LeavesOf(g, h).value;
    case Record(_, _) => FieldsCover(g, h, 0, p);
    case Elements(_, _) => ElementsCover(g, h, 0, p);
  }

  lemma NestedCovers(leaves: seq<Leaf>, p: seq<nat>, base: nat)
    requires p != [] && Covers(leaves, p[1..])
    ensures Covers(At(leaves, [p[0]], base), p)
  {
    AtMembers(leaves, [p[0]], base);
    var m :| m in leaves && m.path == p[1..];
    assert [p[0]] + p[1..] == p;
  }

  lemma {:induction false} FieldsCover(g: Type, h: Type, i: nat, p: seq<nat>)
    requires Comparable(g, h) && g.Record? && h.Record? && i <= |g.fields| && FieldLeaves(g, h, i).Some?
    requires IsPath(g, p) && i <= p[0]
    ensures Covers(FieldLeaves(g, h, i).value, p)
    decreases g, 0, |g.fields| - i
  {
    hide At, IsPath;
    Steps(g, p);
    if i < |g.fields| {
      var inner := LeavesOf(g.fields[i].t, h.fields[i].t).value;
      if p[0] == i {
        LeavesCover(g.fields[i].t, h.fields[i].t, p[1..]);
        NestedCovers(inner, p, g.fields[i].offset);
      } else {
        FieldsCover(g, h, i + 1, p);
      }
    }
  }

  lemma {:induction false} ElementsCover(g: Type, h: Type, i: nat, p: seq<nat>)
    requires Comparable(g, h) && g.Elements? && i <= g.count && ElementLeaves(g, h, i).Some?
    requires IsPath(g, p) && i <= p[0]
    ensures Covers(ElementLeaves(g, h, i).value, p)
    decreases g, 0, g.count - i
  {
    hide At, IsPath;
    Steps(g, p);
    if i < g.count {
      var inner := LeavesOf(g.element, h.element).value;
      if p[0] == i {
        LeavesCover(g.element, h.element, p[1..]);
        NestedCovers(inner, p, i * Size(g.element));
      } else {
        ElementsCover(g, h, i + 1, p);
      }
    }
  }

  lemma Steps(t: Type, p: seq<nat>)
    requires IsPath(t, p) && !t.Value?
    ensures p != [] && p[0] < (if t.Record? then |t.fields| else t.count)
    ensures IsPath(if t.Record? then t.fields[p[0]].t else t.element, p[1..])
  {
  }

  lemma StepIn(t: Type, k: nat, p: seq<nat>)
    requires !t.Value? && k < (if t.Record? then |t.fields| else t.count)
    requires IsPath(if t.Record? then t.fields[k].t else t.element, p)
    ensures IsPath(t, [k] + p)
  {
    assert ([k] + p)[1..] == p;
  }

  // --- arrays that are not of one length ---

  // The parts of a type that is taken apart without failing are taken apart without failing.
  lemma {:induction false} FieldsTaken(g: Type, h: Type, i: nat)
    requires Comparable(g, h) && g.Record? && h.Record? && i <= |g.fields| && FieldLeaves(g, h, i).Some?
    ensures |g.fields| == |h.fields| && forall k :: i <= k < |g.fields| ==> LeavesOf(g.fields[k].t, h.fields[k].t).Some?
    decreases |g.fields| - i
  {
    if i < |g.fields| {
      FieldsTaken(g, h, i + 1);
    }
  }

  lemma {:induction false} ScalarPath(t: Type) returns (p: seq<nat>)
    requires HasScalar(t)
    ensures IsPath(t, p)
  {
    match t
    case Value(_) =>
      p := [];
    case Record(fields, _) =>
      var i: nat :| i < |fields| && HasScalar(fields[i].t);
      p := ScalarPath(fields[i].t);
      StepIn(t, i, p);
      p := [i] + p;
    case Elements(element, _) =>
      p := ScalarPath(element);
      StepIn(t, 0, p);
      p := [0] + p;
  }

  lemma {:induction false} PathScalar(t: Type, p: seq<nat>)
    requires IsPath(t, p)
    ensures HasScalar(t)
  {
    match t
    case Value(_) =>
    case Record(fields, _) => PathScalar(fields[p[0]].t, p[1..]);
    case Elements(element, _) => PathScalar(element, p[1..]);
  }

  // Two declarations of one type, as Leaves goes through them: records of as many fields, arrays, scalars; below an empty
  // array of the guest's nothing is asked.
  ghost predicate Alike(g: Type, h: Type) {
    match g
    case Value(_) => h.Value?
    case Record(fields, _) =>
      h.Record? && |fields| == |h.fields| && forall i :: 0 <= i < |fields| ==> Alike(fields[i].t, h.fields[i].t)
    case Elements(element, count) => h.Elements? && (count > 0 ==> Alike(element, h.element))
  }

  lemma {:induction false} TakenAreAlike(g: Type, h: Type)
    requires Comparable(g, h) && LeavesOf(g, h).Some?
    ensures Alike(g, h)
    decreases g
  {
    match g
    case Value(_) =>
    case Record(fields, _) =>
      FieldsTaken(g, h, 0);
      forall i | 0 <= i < |fields| ensures Alike(fields[i].t, h.fields[i].t) {
        TakenAreAlike(fields[i].t, h.fields[i].t);
      }
    case Elements(element, count) =>
      if count > 0 {
        assert ElementLeaves(g, h, 0).Some?;
        TakenAreAlike(element, h.element);
      }
  }

  ghost predicate PathsOf(a: Type, b: Type) {
    forall p :: IsPath(a, p) ==> IsPath(b, p)
  }

  // Every scalar of one declaration is one of the other exactly where no array of it is longer, whichever of them is the
  // guest's.
  lemma {:induction false} WithinIsNoLonger(a: Type, b: Type)
    requires Alike(a, b) || Alike(b, a)
    ensures PathsOf(a, b) <==> NoLonger(a, b)
    decreases a
  {
    match a
    case Value(_) =>
    case Record(fields, _) => FieldsWithin(a, b);
    case Elements(element, count) =>
      if count > 0 && HasScalar(element) {
        ElementsWithin(a, b);
      } else {
        forall p ensures !IsPath(a, p) {
          if IsPath(a, p) {
            PathScalar(element, p[1..]);
          }
        }
      }
  }

  lemma {:induction false} FieldsWithin(a: Type, b: Type)
    requires (Alike(a, b) || Alike(b, a)) && a.Record?
    ensures PathsOf(a, b) <==> NoLonger(a, b)
    decreases a, 0
  {
    forall i | 0 <= i < |a.fields|
      ensures PathsOf(a.fields[i].t, b.fields[i].t) <==> NoLonger(a.fields[i].t, b.fields[i].t)
    {
      WithinIsNoLonger(a.fields[i].t, b.fields[i].t);
    }
    if PathsOf(a, b) {
      forall i | 0 <= i < |a.fields| ensures PathsOf(a.fields[i].t, b.fields[i].t) {
        forall p | IsPath(a.fields[i].t, p) ensures IsPath(b.fields[i].t, p) {
          StepIn(a, i, p);
          Steps(b, [i] + p);
          assert ([i] + p)[1..] == p;
        }
      }
    }
    if NoLonger(a, b) {
      forall p | IsPath(a, p) ensures IsPath(b, p) {
        Steps(a, p);
        assert PathsOf(a.fields[p[0]].t, b.fields[p[0]].t);
        StepIn(b, p[0], p[1..]);
        assert [p[0]] + p[1..] == p;
      }
    }
  }

  lemma {:induction false} ElementsWithin(a: Type, b: Type)
    requires (Alike(a, b) || Alike(b, a)) && a.Elements? && a.count > 0 && HasScalar(a.element)
    ensures PathsOf(a, b) <==> NoLonger(a, b)
    decreases a, 0
  {
    if b.count > 0 {
      WithinIsNoLonger(a.element, b.element);
    }
    if PathsOf(a, b) {
      var q := ScalarPath(a.element);
      StepIn(a, a.count - 1, q);
      Steps(b, [a.count - 1] + q);
      forall p | IsPath(a.element, p) ensures IsPath(b.element, p) {
        StepIn(a, 0, p);
        Steps(b, [0] + p);
        assert ([0] + p)[1..] == p;
      }
      assert PathsOf(a.element, b.element);
    }
    if NoLonger(a, b) {
      forall p | IsPath(a, p) ensures IsPath(b, p) {
        Steps(a, p);
        StepIn(b, p[0], p[1..]);
        assert [p[0]] + p[1..] == p;
      }
    }
  }

  // Every leaf is a scalar of both types, at its guest offset, exactly where no array of the guest's that holds a scalar is
  // longer than the host's.
  lemma LeavesDescribeExactly(g: Type, h: Type)
    requires Comparable(g, h) && LeavesOf(g, h).Some?
    ensures AllDescribe(LeavesOf(g, h).value, g, h) <==> NoLonger(g, h)
  {
    hide NoLonger, IsPath, Comparable;
    TakenAreAlike(g, h);
    WithinIsNoLonger(g, h);
    LeavesKnown(g, h);
    var leaves := LeavesOf(g, h).value;
    if AllDescribe(leaves, g, h) {
      forall p | IsPath(g, p) ensures IsPath(h, p) {
        LeavesCover(g, h, p);
        var l :| l in leaves && l.path == p;
        assert Describes(l, g, h);
      }
    }
    if PathsOf(g, h) {
      forall l | l in leaves ensures Describes(l, g, h) {
        assert Known(l, g, h);
      }
    }
  }

  lemma LeavesDescribe(g: Type, h: Type)
    requires Comparable(g, h) && LeavesOf(g, h).Some? && NoLonger(g, h)
    ensures AllDescribe(LeavesOf(g, h).value, g, h)
  {
    hide *;
    LeavesDescribeExactly(g, h);
  }

  // Every scalar of the host's type has a leaf exactly where no array of the host's that holds a scalar is longer than the
  // guest's.
  lemma HostCoveredExactly(g: Type, h: Type)
    requires Comparable(g, h) && LeavesOf(g, h).Some?
    ensures (forall p :: IsPath(h, p) ==> Covers(LeavesOf(g, h).value, p)) <==> NoLonger(h, g)
  {
    hide NoLonger, IsPath, Comparable;
    TakenAreAlike(g, h);
    WithinIsNoLonger(h, g);
    LeavesKnown(g, h);
    var leaves := LeavesOf(g, h).value;
    forall p ensures Covers(leaves, p) <==> IsPath(g, p) {
      if IsPath(g, p) {
        LeavesCover(g, h, p);
      }
      if l :| l in leaves && l.path == p {
        assert Known(l, g, h);
      }
    }
  }

  // A guest array of two over a host array of one: a leaf past the host's end.
  lemma ShorterHostArray()
    ensures var g, h := Elements(Value(Integer(true, B32)), 2), Elements(Value(Integer(true, B32)), 1);
            && Comparable(g, h) && LeavesOf(g, h).Some? && !NoLonger(g, h)
            && exists l :: l in LeavesOf(g, h).value && !IsPath(h, l.path)
  {
    var s := Integer(true, B32);
    var g, h := Elements(Value(s), 2), Elements(Value(s), 1);
    One(Leaf([], 0, s, s), [0], 0);
    One(Leaf([], 0, s, s), [1], 4);
    assert LeavesOf(Value(s), Value(s)) == Some([Leaf([], 0, s, s)]);
    assert ElementLeaves(g, h, 2) == Some([]);
    var last := Leaf([1] + [], 4, s, s);
    assert ElementLeaves(g, h, 1) == Some([last] + []);
    assert last in ElementLeaves(g, h, 0).value && !IsPath(h, last.path);
  }

  // --- where they lie ---

  // One after the other, without overlap, between two offsets.
  predicate Ordered(leaves: seq<Leaf>, from: nat, to: nat) {
    if leaves == [] then from <= to
    else from <= leaves[0].offset && Ordered(leaves[1..], leaves[0].offset + Width(leaves[0].guest), to)
  }

  lemma OrderedSpan(leaves: seq<Leaf>, from: nat, to: nat)
    requires Ordered(leaves, from, to)
    ensures from <= to
  {
  }

  lemma {:induction false} OrderedAppend(a: seq<Leaf>, b: seq<Leaf>, from: nat, mid: nat, next: nat, to: nat)
    requires Ordered(a, from, mid) && mid <= next && Ordered(b, next, to)
    ensures Ordered(a + b, from, to)
  {
    if a == [] {
      assert a + b == b;
    } else {
      OrderedAppend(a[1..], b, a[0].offset + Width(a[0].guest), mid, next, to);
      assert (a + b)[1..] == a[1..] + b;
    }
  }

  lemma {:induction false} OrderedAt(leaves: seq<Leaf>, from: nat, to: nat, path: seq<nat>, base: nat)
    requires Ordered(leaves, from, to)
    ensures Ordered(At(leaves, path, base), base + from, base + to)
  {
    if leaves != [] {
      OrderedAt(leaves[1..], leaves[0].offset + Width(leaves[0].guest), to, path, base);
      assert At(leaves, path, base)[1..] == At(leaves[1..], path, base);
    }
  }

  // Laid out by a compiler, the leaves lie in order and apart, inside the type.
  lemma {:induction false} LeavesOrdered(g: Type, h: Type)
    requires Comparable(g, h) && LeavesOf(g, h).Some? && WellLaid(g)
    ensures Ordered(LeavesOf(g, h).value, 0, Size(g))
    decreases g, 1, 0
  {
    match g
    case Value(s) =>
      assert Ordered([], Width(s), Width(s));
    case Record(_, _) => FieldsOrdered(g, h, 0, 0);
    case Elements(_, _) => ElementsOrdered(g, h, 0);
  }

  lemma {:induction false} FieldsOrdered(g: Type, h: Type, i: nat, from: nat)
    requires Comparable(g, h) && g.Record? && h.Record? && i <= |g.fields| && FieldLeaves(g, h, i).Some? && WellLaid(g)
    requires from <= g.size && forall j :: i <= j < |g.fields| ==> from <= g.fields[j].offset
    ensures Ordered(FieldLeaves(g, h, i).value, from, g.size)
    decreases g, 0, |g.fields| - i
  {
    hide At, Ordered;
    if i < |g.fields| {
      var inner, base, size := LeavesOf(g.fields[i].t, h.fields[i].t).value, g.fields[i].offset, Size(g.fields[i].t);
      LeavesOrdered(g.fields[i].t, h.fields[i].t);
      OrderedAt(inner, 0, size, [i], base);
      FieldsOrdered(g, h, i + 1, base + size);
      assert Ordered([], from, base) && [] + At(inner, [i], base) == At(inner, [i], base) by { EmptyOrdered(from, base); }
      OrderedAppend([], At(inner, [i], base), from, base, base, base + size);
      OrderedAppend(At(inner, [i], base), FieldLeaves(g, h, i + 1).value, from, base + size, base + size, g.size);
    } else {
      EmptyOrdered(from, g.size);
    }
  }

  lemma EmptyOrdered(from: nat, to: nat)
    requires from <= to
    ensures Ordered([], from, to)
  {
  }

  lemma {:induction false} ElementsOrdered(g: Type, h: Type, i: nat)
    requires Comparable(g, h) && g.Elements? && i <= g.count && ElementLeaves(g, h, i).Some? && WellLaid(g)
    ensures Ordered(ElementLeaves(g, h, i).value, i * Size(g.element), g.count * Size(g.element))
    decreases g, 0, g.count - i
  {
    hide At, Ordered, Size, WellLaid;
    assert WellLaid(g.element) by { InsideWellLaid(g); }
    var size, to := Size(g.element), g.count * Size(g.element);
    var base := i * size;
    if i < g.count {
      var inner := LeavesOf(g.element, h.element).value;
      LeavesOrdered(g.element, h.element);
      OrderedAt(inner, 0, size, [i], base);
      ElementsOrdered(g, h, i + 1);
      NextElement(i, size);
      OrderedAppend(At(inner, [i], base), ElementLeaves(g, h, i + 1).value, base, base + size, base + size, to);
    } else {
      EmptyOrdered(base, to);
    }
  }

  lemma NextElement(i: nat, size: nat)
    ensures (i + 1) * size == i * size + size
  {
  }

  lemma InsideWellLaid(g: Type)
    requires WellLaid(g) && g.Elements?
    ensures WellLaid(g.element)
  {
  }
}
