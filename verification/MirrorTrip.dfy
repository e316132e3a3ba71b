/** The packed mirror of a record, and a host record's trip through it: stored leaf by leaf into the guest's bytes and read
  * back.
  */
module MirrorTrip {
  import opened Wrappers
  import opened ScalarBridge
  import opened RecordMirror
  import Arithmetic

  // A member of the packed structure: padding bytes, or a leaf of a width.
  datatype Member = Padding(count: nat) | Held(width: nat)

  function Total(members: seq<Member>): nat {
    if members == [] then 0
    else Total(members[..|members| - 1]) + (var m := members[|members| - 1]; if m.Held? then m.width else m.count)
  }

  // Where a compiler puts the leaves of a packed structure.
  function Places(members: seq<Member>): seq<nat> {
    if members == [] then []
    else
      var before := members[..|members| - 1];
      Places(before) + if members[|members| - 1].Held? then [Total(before)] else []
  }

  lemma OneMore(members: seq<Member>, m: Member)
    ensures Total(members + [m]) == Total(members) + if m.Held? then m.width else m.count
    ensures Places(members + [m]) == Places(members) + if m.Held? then [Total(members)] else []
    ensures Widths(members + [m]) == Widths(members) + if m.Held? then [m.width] else []
  {
    assert (members + [m])[..|members|] == members;
  }

  // The widths a structure's leaves are given.
  function Widths(members: seq<Member>): seq<nat> {
    if members == [] then []
    else
      var last := members[|members| - 1];
      Widths(members[..|members| - 1]) + if last.Held? then [last.width] else []
  }

  // The structure holds the leaves in order, each as it is spelled, with whatever padding.
  ghost predicate Writes(members: seq<Member>, leaves: seq<Leaf>) {
    |Widths(members)| == |leaves| && forall k :: 0 <= k < |leaves| ==> Widths(members)[k] == Spelled(leaves[k].guest)
  }

  function Offsets(leaves: seq<Leaf>): seq<nat> {
    seq(|leaves|, i requires 0 <= i < |leaves| => leaves[i].offset)
  }

  // The width of the type the mirror spells for a leaf: a floating one is float or double.
  function Spelled(s: Scalar): nat {
    match s
    case Integer(_, bits) => Bytes(bits)
    case Floating(bits) => if bits == B32 then 4 else 8
    case _ => 8
  }

  ghost predicate RightlySpelled(leaves: seq<Leaf>) {
    forall l :: l in leaves ==> Spelled(l.guest) == Width(l.guest)
  }

  // Every leaf where the guest has it, in a structure of the guest's size.
  ghost predicate Mirrors(members: seq<Member>, leaves: seq<Leaf>, size: nat) {
    Places(members) == Offsets(leaves) && Total(members) == size
  }

  function End(leaves: seq<Leaf>, from: nat): nat {
    if leaves == [] then from else leaves[|leaves| - 1].offset + Width(leaves[|leaves| - 1].guest)
  }

  lemma {:induction false} OrderedEnd(leaves: seq<Leaf>, from: nat, to: nat)
    ensures Ordered(leaves, from, to) <==> Ordered(leaves, from, End(leaves, from)) && End(leaves, from) <= to
  {
    if leaves != [] {
      OrderedEnd(leaves[1..], leaves[0].offset + Width(leaves[0].guest), to);
      assert End(leaves[1..], leaves[0].offset + Width(leaves[0].guest)) == End(leaves, from);
    }
  }

  lemma {:induction false} OrderedSnoc(leaves: seq<Leaf>, l: Leaf, from: nat)
    ensures Ordered(leaves + [l], from, l.offset + Width(l.guest)) <==> Ordered(leaves, from, l.offset)
  {
    if leaves == [] {
      assert leaves + [l] == [l];
      assert Ordered([], l.offset + Width(l.guest), l.offset + Width(l.guest));
    } else {
      OrderedSnoc(leaves[1..], l, leaves[0].offset + Width(leaves[0].guest));
      assert (leaves + [l])[1..] == leaves[1..] + [l];
    }
  }

  // One more leaf is in order where the ones before are and end before it.
  lemma InOrderMore(leaves: seq<Leaf>, l: Leaf)
    ensures var all := leaves + [l];
            Ordered(all, 0, End(all, 0)) <==> Ordered(leaves, 0, End(leaves, 0)) && End(leaves, 0) <= l.offset
  {
    OrderedSnoc(leaves, l, 0);
    OrderedEnd(leaves, 0, l.offset);
  }

  // The members the generator writes. They mirror the record exactly where its leaves are in order and apart, and each is
  // spelled at its width.
  method Mirror(leaves: seq<Leaf>, size: nat) returns (members: seq<Member>)
    ensures Writes(members, leaves)
    ensures Mirrors(members, leaves, size) <==> Ordered(leaves, 0, size) && RightlySpelled(leaves)
  {
    hide Ordered, Total, Places, Widths, Width, Spelled;
    members := [];
    Start();
    var cursor, i := 0, 0;
    while i < |leaves|
      invariant i <= |leaves| && cursor == End(leaves[..i], 0) && |Places(members)| == i
      invariant Writes(members, leaves[..i])
      invariant Places(members) == Offsets(leaves[..i]) ==> cursor <= Total(members)
      invariant Mirrors(members, leaves[..i], cursor) <==> Ordered(leaves[..i], 0, cursor) && RightlySpelled(leaves[..i])
    {
      var leaf := leaves[i];
      ghost var before := leaves[..i];
      assert leaves[..i + 1] == before + [leaf];
      ghost var start := members;
      if leaf.offset > cursor {
        OneMore(members, Padding(leaf.offset - cursor));
        members := members + [Padding(leaf.offset - cursor)];
      }
      OneMore(members, Held(Spelled(leaf.guest)));
      ghost var place := Total(members);
      members := members + [Held(Spelled(leaf.guest))];
      OffsetsMore(Places(start), before, leaf, place);
      InOrderMore(before, leaf);
      SpelledMore(before, leaf);
      cursor := leaf.offset + Width(leaf.guest);
      i := i + 1;
    }
    assert leaves[..i] == leaves;
    OrderedEnd(leaves, 0, size);
    if size > cursor {
      OneMore(members, Padding(size - cursor));
      members := members + [Padding(size - cursor)];
    }
  }

  lemma Start()
    ensures Widths([]) == [] && Places([]) == Offsets([]) && Total([]) == 0 && Ordered([], 0, 0)
  {
  }

  lemma OffsetsMore(places: seq<nat>, leaves: seq<Leaf>, l: Leaf, place: nat)
    requires |places| == |leaves|
    ensures places + [place] == Offsets(leaves + [l]) <==> places == Offsets(leaves) && place == l.offset
  {
    var all := Offsets(leaves + [l]);
    assert all[..|leaves|] == Offsets(leaves) && all[|leaves|] == l.offset;
    if places + [place] == all {
      assert places == all[..|leaves|];
    }
  }

  lemma SpelledMore(leaves: seq<Leaf>, l: Leaf)
    ensures RightlySpelled(leaves + [l]) <==> RightlySpelled(leaves) && Spelled(l.guest) == Width(l.guest)
    ensures Spelled(l.guest) >= Width(l.guest)
  {
    if RightlySpelled(leaves + [l]) {
      forall m | m in leaves
        ensures Spelled(m.guest) == Width(m.guest)
      {
        assert m in leaves + [l];
      }
      assert l in leaves + [l];
    }
  }

  // In a packed structure nothing overlaps.
  lemma {:induction false} PackedApart(members: seq<Member>)
    ensures |Widths(members)| == |Places(members)|
    ensures forall i :: 0 <= i < |Places(members)| ==> Places(members)[i] + Widths(members)[i] <= Total(members)
    ensures forall i, j :: 0 <= i < j < |Places(members)| ==> Places(members)[i] + Widths(members)[i] <= Places(members)[j]
  {
    if members != [] {
      PackedApart(members[..|members| - 1]);
    }
  }

  // So whatever padding is put between them, leaves that lie one over the other are not all where the guest has them.
  lemma OverlapIsNotMirrored(members: seq<Member>, leaves: seq<Leaf>, size: nat, i: nat, j: nat)
    requires i < j < |leaves| && leaves[j].offset < leaves[i].offset + Spelled(leaves[i].guest)
    requires Writes(members, leaves)
    ensures !Mirrors(members, leaves, size)
  {
    PackedApart(members);
  }

  // A union of two integers, in a record.
  function UnionInRecord(): Type {
    var int32 := Value(Integer(true, B32));
    Record([Field(0, false, Record([Field(0, false, int32), Field(0, false, int32)], 4))], 4)
  }

  // It passes as a record whose fields lie one over the other, and no structure with its leaves mirrors it.
  lemma UnionIsNotMirrored(members: seq<Member>)
    ensures var t := UnionInRecord();
            && Comparable(t, t) && NoLonger(t, t) && LeavesOf(t, t).Some? && Convertible(t, t)
            && (Writes(members, LeavesOf(t, t).value) ==> !Mirrors(members, LeavesOf(t, t).value, Size(t)))
  {
    var t := UnionInRecord();
    UnionLeaves();
    forall p | IsPath(t, p) ensures Exact(ScalarAt(t, p), ScalarAt(t, p)) {
      UnionScalar(p);
    }
    if Writes(members, LeavesOf(t, t).value) {
      OverlapIsNotMirrored(members, LeavesOf(t, t).value, Size(t), 0, 1);
    }
  }

  lemma UnionScalar(p: seq<nat>)
    requires IsPath(UnionInRecord(), p)
    ensures ScalarAt(UnionInRecord(), p) == Integer(true, B32)
  {
    var t := UnionInRecord();
    var union, q := t.fields[0].t, p[1..];
    assert p[0] == 0 && IsPath(union, q) && ScalarAt(t, p) == ScalarAt(union, q);
    assert q[0] == 0 || q[0] == 1;
    var field, rest := union.fields[q[0]].t, q[1..];
    assert field == Value(Integer(true, B32)) && IsPath(field, rest) && ScalarAt(union, q) == ScalarAt(field, rest);
  }

  lemma UnionLeaves()
    ensures var t, s := UnionInRecord(), Integer(true, B32);
            Comparable(t, t) && NoLonger(t, t) && LeavesOf(t, t) == Some([Leaf([0, 0], 0, s, s), Leaf([0, 1], 0, s, s)])
  {
    var s := Integer(true, B32);
    var int32, t := Value(s), UnionInRecord();
    var union := t.fields[0].t;
    One(Leaf([], 0, s, s), [0], 0);
    One(Leaf([], 0, s, s), [1], 0);
    assert [0] + [] == [0] && [1] + [] == [1];
    assert LeavesOf(int32, int32) == Some([Leaf([], 0, s, s)]);
    assert FieldLeaves(union, union, 2) == Some([]);
    assert [Leaf([1], 0, s, s)] + [] == [Leaf([1], 0, s, s)];
    assert FieldLeaves(union, union, 1) == Some([Leaf([1], 0, s, s)]);
    var inner := [Leaf([0], 0, s, s), Leaf([1], 0, s, s)];
    assert [Leaf([0], 0, s, s)] + [Leaf([1], 0, s, s)] == inner;
    assert FieldLeaves(union, union, 0) == Some(inner);
    assert At(inner, [0], 0) == [Leaf([0, 0], 0, s, s), Leaf([0, 1], 0, s, s)] by {
      assert [0] + [0] == [0, 0] && [0] + [1] == [0, 1];
    }
    assert FieldLeaves(t, t, 1) == Some([]);
    assert At(inner, [0], 0) + [] == At(inner, [0], 0);
  }

  // --- the guest's bytes ---

  type byte = x: int | 0 <= x < 256

  function Power(n: nat): (p: nat)
    ensures p >= 1
  {
    if n == 0 then 1 else 256 * Power(n - 1)
  }

  // Little-endian.
  function Encode(v: int, n: nat): (bytes: seq<byte>)
    ensures |bytes| == n
    decreases n
  {
    if n == 0 then [] else [v % 256] + Encode(v / 256, n - 1)
  }

  function Decode(bytes: seq<byte>): nat {
    if bytes == [] then 0 else bytes[0] + 256 * Decode(bytes[1..])
  }

  lemma {:induction false} DecodeEncode(v: nat, n: nat)
    requires 0 <= v < Power(n)
    ensures Decode(Encode(v, n)) == v
    decreases n
  {
    if n > 0 {
      DecodeEncode(v / 256, n - 1);
      assert Encode(v, n)[1..] == Encode(v / 256, n - 1);
    }
  }

  // The k-th byte is the k-th digit to the base of 256, lowest first.
  lemma {:induction false} EncodedDigit(v: nat, n: nat, k: nat)
    requires k < n
    ensures Encode(v, n)[k] == v / Power(k) % 256
    decreases n
  {
    if k > 0 {
      EncodedDigit(v / 256, n - 1, k - 1);
      assert Encode(v, n)[k] == Encode(v / 256, n - 1)[k - 1];
      DivideTwice(v, Power(k - 1));
    }
  }

  lemma DivideTwice(v: nat, p: nat)
    requires p > 0
    ensures v / 256 / p == v / (256 * p)
  {
    var q, r := v / 256, v % 256;
    var t, u := q / p, q % p;
    assert v == 256 * (p * t + u) + r == (256 * p) * t + (256 * u + r);
    Arithmetic.Unique(v, 256 * p, t, 256 * u + r);
  }

  lemma PowerOf(b: Bits)
    ensures Power(Bytes(b)) == Range(b)
  {
    assert Power(1) == 256 && Power(2) == 0x1_0000;
    assert Power(4) == 256 * 256 * Power(2);
    assert Power(8) == 256 * 256 * 256 * 256 * Power(4);
  }

  function Put(memory: seq<byte>, at: nat, bytes: seq<byte>): (r: seq<byte>)
    requires at + |bytes| <= |memory|
    ensures |r| == |memory|
    ensures forall k :: 0 <= k < |memory| ==> r[k] == if at <= k < at + |bytes| then bytes[k - at] else memory[k]
  {
    memory[..at] + bytes + memory[at + |bytes|..]
  }

  // --- host records ---

  datatype Tree = Num(x: int) | Parts(parts: seq<Tree>)

  ghost predicate Shaped(v: Tree, t: Type) {
    match t
    case Value(_) => v.Num?
    case Record(fields, _) =>
      v.Parts? && |v.parts| == |fields| && forall i :: 0 <= i < |fields| ==> Shaped(v.parts[i], fields[i].t)
    case Elements(element, count) =>
      v.Parts? && |v.parts| == count && forall i :: 0 <= i < count ==> Shaped(v.parts[i], element)
  }

  ghost predicate HasType(v: Tree, t: Type) {
    Shaped(v, t) && forall p | IsPath(t, p) :: HostHas(ScalarAt(t, p), Get(v, p))
  }

  function Get(v: Tree, p: seq<nat>): int {
    match v
    case Num(x) => x
    case Parts(parts) => if p != [] && p[0] < |parts| then Get(parts[p[0]], p[1..]) else 0
  }

  function Set(v: Tree, p: seq<nat>, x: int): Tree {
    match v
    case Num(_) => Num(x)
    case Parts(parts) => if p != [] && p[0] < |parts| then Parts(parts[p[0] := Set(parts[p[0]], p[1..], x)]) else v
  }

  lemma {:induction false} SetShaped(v: Tree, t: Type, p: seq<nat>, x: int)
    requires Shaped(v, t) && IsPath(t, p)
    ensures Shaped(Set(v, p, x), t)
    ensures Get(Set(v, p, x), p) == x
  {
    match t
    case Value(_) =>
    case Record(fields, _) => SetShaped(v.parts[p[0]], fields[p[0]].t, p[1..], x);
    case Elements(element, _) => SetShaped(v.parts[p[0]], element, p[1..], x);
  }

  lemma {:induction false} SetElsewhere(v: Tree, t: Type, p: seq<nat>, x: int, q: seq<nat>)
    requires Shaped(v, t) && IsPath(t, p) && IsPath(t, q) && p != q
    ensures Get(Set(v, p, x), q) == Get(v, q)
  {
    if !t.Value? && p[0] == q[0] {
      assert p == [p[0]] + p[1..] && q == [q[0]] + q[1..];
      SetElsewhere(v.parts[p[0]], if t.Record? then t.fields[p[0]].t else t.element, p[1..], x, q[1..]);
    }
  }

  // Two values of a type that agree on every scalar are the same.
  lemma {:induction false} SameTree(v: Tree, w: Tree, t: Type)
    requires Shaped(v, t) && Shaped(w, t)
    requires forall p :: IsPath(t, p) ==> Get(v, p) == Get(w, p)
    ensures v == w
    decreases t
  {
    if !t.Value? {
      forall i | 0 <= i < |v.parts|
        ensures v.parts[i] == w.parts[i]
      {
        var inner := if t.Record? then t.fields[i].t else t.element;
        forall p | IsPath(inner, p)
          ensures Get(v.parts[i], p) == Get(w.parts[i], p)
        {
          var q := [i] + p;
          assert q[1..] == p && IsPath(t, q);
        }
        SameTree(v.parts[i], w.parts[i], inner);
      }
      assert v.parts == w.parts;
      assert v == Parts(v.parts) && w == Parts(w.parts);
    } else {
      assert IsPath(t, []);
    }
  }

  // --- the two generated conversions ---

  ghost predicate AllExact(leaves: seq<Leaf>) {
    forall k :: 0 <= k < |leaves| ==> Exact(leaves[k].guest, leaves[k].host)
  }

  // The leaves' places are apart, and inside the memory.
  ghost predicate Apart(leaves: seq<Leaf>, places: seq<nat>, size: nat) {
    && |places| == |leaves|
    && (forall k :: 0 <= k < |leaves| ==> places[k] + Width(leaves[k].guest) <= size)
    && (forall j, k :: 0 <= j < k < |leaves| ==> places[j] + Width(leaves[j].guest) <= places[k])
  }

  // The word the guest stores for a leaf.
  function WordOf(l: Leaf, x: int): int
    requires Exact(l.guest, l.host)
  {
    ScalarToGuest(l.guest, l.host, x)
  }

  lemma WordFits(l: Leaf, x: int)
    requires Exact(l.guest, l.host) && HostHas(l.host, x)
    ensures 0 <= WordOf(l, x) < Power(Width(l.guest))
  {
    hide ScalarBridge.ScalarToGuest;
    PowerOf(if l.guest.Integer? then l.guest.bits else B64);
    WordInRange(l, x);
  }

  lemma WordInRange(l: Leaf, x: int)
    requires Exact(l.guest, l.host) && HostHas(l.host, x)
    ensures 0 <= ScalarToGuest(l.guest, l.host, x) < Range(if l.guest.Integer? then l.guest.bits else B64)
  {
    if l.guest.Pointer? {
      PointerThere(x);
    }
  }

  function Load(memory: seq<byte>, at: nat, width: nat): seq<byte>
    requires at + width <= |memory|
  {
    memory[at..at + width]
  }

  // Assigns the leaves from the k-th on, in order.
  ghost function ToGuest(leaves: seq<Leaf>, places: seq<nat>, v: Tree, memory: seq<byte>, k: nat): (r: seq<byte>)
    requires AllExact(leaves) && Apart(leaves, places, |memory|) && k <= |leaves|
    ensures |r| == |memory|
    decreases |leaves| - k
  {
    if k == |leaves| then memory
    else
      var bytes := Encode(WordOf(leaves[k], Get(v, leaves[k].path)), Width(leaves[k].guest));
      ToGuest(leaves, places, v, Put(memory, places[k], bytes), k + 1)
  }

  // None where a leaf does not fit the host.
  ghost function ToHost(leaves: seq<Leaf>, places: seq<nat>, memory: seq<byte>, v: Tree, k: nat): Option<Tree>
    requires AllExact(leaves) && Apart(leaves, places, |memory|) && k <= |leaves|
    decreases |leaves| - k
  {
    if k == |leaves| then Some(v)
    else
      match ScalarToHost(leaves[k].guest, leaves[k].host, Decode(Load(memory, places[k], Width(leaves[k].guest))))
      case None => None
      case Some(x) => ToHost(leaves, places, memory, Set(v, leaves[k].path, x), k + 1)
  }

  // Bytes no later leaf covers stay.
  lemma {:induction false} ToGuestKeeps(leaves: seq<Leaf>, places: seq<nat>, v: Tree, memory: seq<byte>, k: nat, at: nat)
    requires AllExact(leaves) && Apart(leaves, places, |memory|) && k <= |leaves| && at < |memory|
    requires forall j :: k <= j < |leaves| ==> !(places[j] <= at < places[j] + Width(leaves[j].guest))
    ensures ToGuest(leaves, places, v, memory, k)[at] == memory[at]
    decreases |leaves| - k
  {
    hide WordOf, Exact, Width, Encode;
    if k < |leaves| {
      var bytes := Encode(WordOf(leaves[k], Get(v, leaves[k].path)), Width(leaves[k].guest));
      ToGuestKeeps(leaves, places, v, Put(memory, places[k], bytes), k + 1, at);
    }
  }

  // Every leaf's field holds its word.
  lemma {:induction false} ToGuestHolds(leaves: seq<Leaf>, places: seq<nat>, v: Tree, memory: seq<byte>, k: nat, j: nat)
    requires AllExact(leaves) && Apart(leaves, places, |memory|) && k <= j < |leaves|
    ensures Load(ToGuest(leaves, places, v, memory, k), places[j], Width(leaves[j].guest))
         == Encode(WordOf(leaves[j], Get(v, leaves[j].path)), Width(leaves[j].guest))
    decreases |leaves| - k
  {
    hide WordOf, Exact, Width, Encode;
    var bytes := Encode(WordOf(leaves[k], Get(v, leaves[k].path)), Width(leaves[k].guest));
    var next := Put(memory, places[k], bytes);
    if k < j {
      ToGuestHolds(leaves, places, v, next, k + 1, j);
    } else {
      var r := ToGuest(leaves, places, v, next, k + 1);
      forall i | 0 <= i < |bytes|
        ensures r[places[k] + i] == bytes[i]
      {
        ToGuestKeeps(leaves, places, v, next, k + 1, places[k] + i);
      }
      assert Load(r, places[k], |bytes|) == bytes;
    }
  }

  ghost predicate InType(leaves: seq<Leaf>, t: Type) {
    forall k :: 0 <= k < |leaves| ==> IsPath(t, leaves[k].path) && leaves[k].host == ScalarAt(t, leaves[k].path)
  }

  ghost predicate Agree(leaves: seq<Leaf>, v: Tree, w: Tree, k: nat)
    requires k <= |leaves|
  {
    forall j :: 0 <= j < k ==> Get(v, leaves[j].path) == Get(w, leaves[j].path)
  }

  ghost predicate Holds(leaves: seq<Leaf>, places: seq<nat>, memory: seq<byte>, v: Tree)
    requires AllExact(leaves) && Apart(leaves, places, |memory|)
  {
    forall j :: 0 <= j < |leaves| ==>
      Load(memory, places[j], Width(leaves[j].guest)) == Encode(WordOf(leaves[j], Get(v, leaves[j].path)), Width(leaves[j].guest))
  }

  // One leaf's own trip.
  lemma LeafReadsBack(l: Leaf, x: int)
    requires Exact(l.guest, l.host) && HostHas(l.host, x)
    ensures ScalarToHost(l.guest, l.host, Decode(Encode(WordOf(l, x), Width(l.guest)))) == Some(x)
  {
    WordFits(l, x);
    DecodeEncode(WordOf(l, x), Width(l.guest));
    hide ScalarBridge.ScalarToGuest, ScalarBridge.ScalarToHost;
    ScalarRoundTrip(l.guest, l.host);
    assert WordOf(l, x) == ScalarToGuest(l.guest, l.host, x);
  }

  // Read back over any record of the type, every leaf has the value it had.
  lemma {:induction false} ToHostReads(leaves: seq<Leaf>, places: seq<nat>, memory: seq<byte>, v: Tree, t: Type, w: Tree, k: nat)
    requires AllExact(leaves) && Apart(leaves, places, |memory|) && k <= |leaves|
    requires InType(leaves, t) && HasType(v, t) && Shaped(w, t)
    requires Holds(leaves, places, memory, v) && Agree(leaves, v, w, k)
    ensures var r := ToHost(leaves, places, memory, w, k);
            r.Some? && Shaped(r.value, t) && Agree(leaves, v, r.value, |leaves|)
    decreases |leaves| - k
  {
    hide WordOf, Exact, Width, Encode, Decode, ScalarBridge.ScalarToHost, Shaped, Get, Set, IsPath, ScalarAt, HostHas;
    if k < |leaves| {
      var l := leaves[k];
      var x := Get(v, l.path);
      LeafReadsBack(l, x);
      SetShaped(w, t, l.path, x);
      var next := Set(w, l.path, x);
      forall j | 0 <= j < k + 1
        ensures Get(v, leaves[j].path) == Get(next, leaves[j].path)
      {
        if leaves[j].path != l.path {
          SetElsewhere(w, t, l.path, x, leaves[j].path);
        }
      }
      ToHostReads(leaves, places, memory, v, t, next, k + 1);
    }
  }

  lemma {:induction false} OrderedApart(leaves: seq<Leaf>, from: nat, to: nat)
    requires Ordered(leaves, from, to)
    ensures Apart(leaves, Offsets(leaves), to)
    ensures forall k :: 0 <= k < |leaves| ==> from <= leaves[k].offset
  {
    hide Width, Apart;
    if leaves == [] {
      NothingApart(to);
    } else {
      var first, rest := leaves[0], leaves[1..];
      OrderedApart(rest, first.offset + Width(first.guest), to);
      OrderedSpan(rest, first.offset + Width(first.guest), to);
      assert leaves == [first] + rest && Offsets(leaves) == [first.offset] + Offsets(rest);
      ApartMore(first, rest, to);
    }
  }

  lemma NothingApart(size: nat)
    ensures Apart([], Offsets([]), size)
  {
  }

  lemma ApartMore(first: Leaf, rest: seq<Leaf>, size: nat)
    requires Apart(rest, Offsets(rest), size) && first.offset + Width(first.guest) <= size
    requires forall k :: 0 <= k < |rest| ==> first.offset + Width(first.guest) <= rest[k].offset
    ensures Apart([first] + rest, [first.offset] + Offsets(rest), size)
  {
    hide Width;
  }

  // Nested records, arrays, integers no wider for the host, and pointers that are not objects.
  ghost predicate Convertible(g: Type, h: Type) {
    forall p :: IsPath(g, p) && IsPath(h, p) ==> Exact(ScalarAt(g, p), ScalarAt(h, p))
  }

  // The mirror written for all of those has every leaf where the guest has it.
  lemma ConvertibleIsExact(g: Type, h: Type)
    requires Comparable(g, h) && NoLonger(g, h) && LeavesOf(g, h).Some? && Convertible(g, h)
    ensures AllExact(LeavesOf(g, h).value) && RightlySpelled(LeavesOf(g, h).value)
    ensures WellLaid(g) ==> Ordered(LeavesOf(g, h).value, 0, Size(g))
  {
    LeavesDescribe(g, h);
    var leaves := LeavesOf(g, h).value;
    forall k | 0 <= k < |leaves|
      ensures Exact(leaves[k].guest, leaves[k].host)
    {
      assert leaves[k] in leaves;
    }
    forall l | l in leaves
      ensures Spelled(l.guest) == Width(l.guest)
    {
      assert Describes(l, g, h);
      assert Exact(l.guest, l.host);
    }
    if WellLaid(g) {
      LeavesOrdered(g, h);
    }
  }

  // A host record goes into the guest's bytes and comes back itself: whatever the guest's memory held, whatever the record
  // it is read back over. The bytes no leaf covers stay as they were.
  lemma RecordRoundTrip(g: Type, h: Type, members: seq<Member>, v: Tree, memory: seq<byte>, w: Tree)
    requires Comparable(g, h) && NoLonger(g, h) && NoLonger(h, g) && LeavesOf(g, h).Some? && Convertible(g, h)
    requires WellLaid(g) && Mirrors(members, LeavesOf(g, h).value, Size(g))
    requires HasType(v, h) && Shaped(w, h) && |memory| == Size(g)
    ensures var leaves, places := LeavesOf(g, h).value, Places(members);
            && AllExact(leaves) && Apart(leaves, places, |memory|)
            && ToHost(leaves, places, ToGuest(leaves, places, v, memory, 0), w, 0) == Some(v)
            && PaddingKept(leaves, memory, ToGuest(leaves, places, v, memory, 0))
  {
    ConvertibleIsExact(g, h);
    hide Comparable, NoLonger, LeavesOf, Convertible, WellLaid, Size, Places, Total, Offsets, Ordered, Shaped, Apart, AllExact,
      Width, ToGuest, ToHost, InType, AllDescribe, HasType, Agree, PaddingKept;
    var leaves, places := LeavesOf(g, h).value, Places(members);
    OrderedApart(leaves, 0, Size(g));
    LeavesDescribe(g, h);
    LeavesInType(g, h, leaves);
    ShapedFirst(v, h);
    LeavesRoundTrip(leaves, places, h, v, memory, w);
    var stored := ToGuest(leaves, places, v, memory, 0);
    AgreeIsSame(g, h, v, ToHost(leaves, places, stored, w, 0).value);
    ToGuestKeepsPadding(leaves, v, memory);
  }

  // No leaf covers the byte.
  ghost predicate Uncovered(leaves: seq<Leaf>, at: nat) {
    forall j :: 0 <= j < |leaves| ==> !(leaves[j].offset <= at < leaves[j].offset + Width(leaves[j].guest))
  }

  ghost predicate PaddingKept(leaves: seq<Leaf>, before: seq<byte>, after: seq<byte>) {
    |before| == |after| && forall at: nat :: at < |before| && Uncovered(leaves, at) ==> after[at] == before[at]
  }

  lemma ToGuestKeepsPadding(leaves: seq<Leaf>, v: Tree, memory: seq<byte>)
    requires AllExact(leaves) && Apart(leaves, Offsets(leaves), |memory|)
    ensures PaddingKept(leaves, memory, ToGuest(leaves, Offsets(leaves), v, memory, 0))
  {
    hide ToGuest, Width, AllExact, Apart;
    forall at: nat | at < |memory| && Uncovered(leaves, at)
      ensures ToGuest(leaves, Offsets(leaves), v, memory, 0)[at] == memory[at]
    {
      ToGuestKeeps(leaves, Offsets(leaves), v, memory, 0, at);
    }
  }

  lemma ShapedFirst(v: Tree, t: Type)
    requires HasType(v, t)
    ensures Shaped(v, t)
  {
  }

  // Two records that agree at every leaf are the same.
  lemma AgreeIsSame(g: Type, h: Type, v: Tree, r: Tree)
    requires Comparable(g, h) && NoLonger(h, g) && LeavesOf(g, h).Some? && Shaped(v, h) && Shaped(r, h)
    requires Agree(LeavesOf(g, h).value, v, r, |LeavesOf(g, h).value|)
    ensures v == r
  {
    hide Comparable, NoLonger, LeavesOf, Shaped, Get, IsPath;
    var leaves := LeavesOf(g, h).value;
    HostCoveredExactly(g, h);
    forall p | IsPath(h, p)
      ensures Get(v, p) == Get(r, p)
    {
      assert Covers(leaves, p);
      var l :| l in leaves && l.path == p;
      var j :| 0 <= j < |leaves| && leaves[j] == l;
    }
    SameTree(v, r, h);
  }

  // The trip of the leaves, whatever lies between them.
  lemma LeavesRoundTrip(leaves: seq<Leaf>, places: seq<nat>, t: Type, v: Tree, memory: seq<byte>, w: Tree)
    requires AllExact(leaves) && Apart(leaves, places, |memory|) && InType(leaves, t) && HasType(v, t) && Shaped(w, t)
    ensures var r := ToHost(leaves, places, ToGuest(leaves, places, v, memory, 0), w, 0);
            r.Some? && Shaped(r.value, t) && Agree(leaves, v, r.value, |leaves|)
  {
    hide Exact, InType, HasType, Shaped, Get, Width, Encode, WordOf, ToGuest, ToHost;
    var stored := ToGuest(leaves, places, v, memory, 0);
    forall j | 0 <= j < |leaves|
      ensures Load(stored, places[j], Width(leaves[j].guest))
           == Encode(WordOf(leaves[j], Get(v, leaves[j].path)), Width(leaves[j].guest))
    {
      ToGuestHolds(leaves, places, v, memory, 0, j);
    }
    ToHostReads(leaves, places, stored, v, t, w, 0);
  }

  lemma LeavesInType(g: Type, h: Type, leaves: seq<Leaf>)
    requires AllDescribe(leaves, g, h)
    ensures InType(leaves, h)
  {
    forall k | 0 <= k < |leaves|
      ensures IsPath(h, leaves[k].path) && leaves[k].host == ScalarAt(h, leaves[k].path)
    {
      assert leaves[k] in leaves;
    }
  }
}
