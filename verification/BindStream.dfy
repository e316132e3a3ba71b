/** The rewriting of a bind opcode stream in place: the symbols that are wanted become weak imports, and nothing else changes. */
module BindStream {
  import opened Wrappers

  type byte = x: int | 0 <= x < 256

  // --- the grammar of the stream ---

  // Past a LEB128 number; none where the file ends first.
  function SkipLeb(bs: seq<byte>, p: nat): (q: Option<nat>)
    ensures q.Some? ==> p < q.value <= |bs|
    decreases |bs| - p
  {
    if p >= |bs| then None
    else if bs[p] < 128 then Some(p + 1)
    else SkipLeb(bs, p + 1)
  }

  // Past the zero byte that ends a name.
  function SkipName(bs: seq<byte>, p: nat): (q: Option<nat>)
    ensures q.Some? ==> p < q.value <= |bs|
    decreases |bs| - p
  {
    if p >= |bs| then None
    else if bs[p] == 0 then Some(p + 1)
    else SkipName(bs, p + 1)
  }

  function Opcode(b: byte): int {
    b / 16 * 16
  }

  predicate IsSymbol(b: byte) {
    Opcode(b) == 0x40
  }

  predicate IsWeak(b: byte) {
    b % 2 == 1
  }

  // Past the opcode at p and what it trails.
  function Next(bs: seq<byte>, p: nat): (q: Option<nat>)
    ensures q.Some? ==> p < q.value <= |bs|
  {
    if p >= |bs| then None
    else
      var op := Opcode(bs[p]);
      if op == 0x20 || op == 0x80 || op == 0xA0 || op == 0x60 || op == 0x70 then SkipLeb(bs, p + 1)
      else if op == 0xC0 then
        match SkipLeb(bs, p + 1)
        case None => None
        case Some(q) => SkipLeb(bs, q)
      else if op == 0x40 then SkipName(bs, p + 1)
      else Some(p + 1)
  }

  // The bytes from p to q are a LEB128 number, of which the last byte alone is below 128; or a name, of which the last byte
  // alone is zero.
  ghost predicate LebSpan(bs: seq<byte>, p: nat, q: nat) {
    p < q <= |bs| && bs[q - 1] < 128 && forall k :: p <= k < q - 1 ==> bs[k] >= 128
  }

  ghost predicate NameSpan(bs: seq<byte>, p: nat, q: nat) {
    p < q <= |bs| && bs[q - 1] == 0 && forall k :: p <= k < q - 1 ==> bs[k] != 0
  }

  lemma {:induction false} LebIs(bs: seq<byte>, p: nat, q: nat)
    ensures SkipLeb(bs, p) == Some(q) <==> LebSpan(bs, p, q)
    decreases |bs| - p
  {
    if p < |bs| && bs[p] >= 128 {
      LebIs(bs, p + 1, q);
    }
  }

  lemma {:induction false} NameIs(bs: seq<byte>, p: nat, q: nat)
    ensures SkipName(bs, p) == Some(q) <==> NameSpan(bs, p, q)
    decreases |bs| - p
  {
    if p < |bs| && bs[p] != 0 {
      NameIs(bs, p + 1, q);
    }
  }

  // What an opcode trails, by its high four bits: an ordinal, an addend, an offset or an address as one number, a count and a
  // distance as two, a symbol as a name, and otherwise nothing.
  ghost predicate Trails(bs: seq<byte>, p: nat, q: nat) {
    p < |bs| &&
    var high := bs[p] / 16;
    if high in {2, 6, 7, 8, 10} then LebSpan(bs, p + 1, q)
    else if high == 12 then exists m: nat :: LebSpan(bs, p + 1, m) && LebSpan(bs, m, q)
    else if high == 4 then NameSpan(bs, p + 1, q)
    else q == p + 1
  }

  lemma NextIs(bs: seq<byte>, p: nat, q: nat)
    ensures Next(bs, p) == Some(q) <==> Trails(bs, p, q)
  {
    if p < |bs| {
      LebIs(bs, p + 1, q);
      NameIs(bs, p + 1, q);
      TwoLebsAre(bs, p + 1, q);
      hide LebSpan, NameSpan, SkipLeb, SkipName;
      assert Opcode(bs[p]) == 16 * (bs[p] / 16);
    }
  }

  lemma TwoLebsAre(bs: seq<byte>, p: nat, q: nat)
    ensures (SkipLeb(bs, p).Some? && SkipLeb(bs, SkipLeb(bs, p).value) == Some(q)) <==>
            exists m: nat :: LebSpan(bs, p, m) && LebSpan(bs, m, q)
  {
    if SkipLeb(bs, p).Some? && SkipLeb(bs, SkipLeb(bs, p).value) == Some(q) {
      var m: nat := SkipLeb(bs, p).value;
      LebIs(bs, p, m);
      LebIs(bs, m, q);
      assert LebSpan(bs, p, m) && LebSpan(bs, m, q);
    }
    if m: nat :| LebSpan(bs, p, m) && LebSpan(bs, m, q) {
      LebIs(bs, p, m);
      LebIs(bs, m, q);
    }
  }

  // An opcode with its low bits, and the bytes it trails.
  datatype Op = Op(at: nat, first: byte, operand: seq<byte>)

  function OpAt(bs: seq<byte>, p: nat, q: nat): Op
    requires p < q <= |bs|
  {
    Op(p, bs[p], bs[p + 1..q])
  }

  // The opcodes from p up to the end of the stream; none where the file ends inside one.
  function Decode(bs: seq<byte>, p: nat, end: nat): Option<seq<Op>>
    decreases |bs| - p
  {
    if p >= end then Some([])
    else match Next(bs, p)
      case None => None
      case Some(q) =>
        match Decode(bs, q, end)
        case None => None
        case Some(rest) => Some([OpAt(bs, p, q)] + rest)
  }

  // --- weakening ---

  // A byte that is not ASCII reads as the replacement character.
  function Text(bs: seq<byte>): string {
    seq(|bs|, i requires 0 <= i < |bs| => if bs[i] < 128 then bs[i] as char else '\U{FFFD}')
  }

  predicate Wanted(o: Op, want: set<string>) {
    IsSymbol(o.first) && o.operand != [] && Text(o.operand[..|o.operand| - 1]) in want
  }

  function Mark(o: Op, want: set<string>): Op {
    if Wanted(o, want) && !IsWeak(o.first) then o.(first := o.first + 1) else o
  }

  // A symbol whose name is wanted gets its lowest bit set, and nothing else about any opcode changes.
  lemma MarkIs(o: Op, want: set<string>)
    ensures var m := Mark(o, want);
            && m.at == o.at && m.operand == o.operand
            && (m.first != o.first <==> m.first == o.first + 1)
            && (m.first == o.first + 1 <==>
                  o.first / 16 == 4 && o.first % 2 == 0 && |o.operand| >= 1 && Text(o.operand[..|o.operand| - 1]) in want)
  {
  }

  function Marked(ops: seq<Op>, want: set<string>): (r: seq<Op>)
    ensures |r| == |ops|
  {
    seq(|ops|, i requires 0 <= i < |ops| => Mark(ops[i], want))
  }

  // The bytes after the walk, from p on.
  function Rewrite(bs: seq<byte>, p: nat, end: nat, want: set<string>): (r: Option<seq<byte>>)
    ensures r.Some? ==> |r.value| == |bs|
    decreases |bs| - p
  {
    if p >= end then Some(bs)
    else match Next(bs, p)
      case None => None
      case Some(q) => Rewrite(bs[p := Mark(OpAt(bs, p, q), want).first], q, end, want)
  }

  method ReadLeb(data: array<byte>, p: nat) returns (q: Option<nat>)
    ensures q == SkipLeb(data[..], p)
  {
    var at := p;
    while true
      invariant SkipLeb(data[..], at) == SkipLeb(data[..], p)
      decreases data.Length - at
    {
      if at >= data.Length {
        return None;
      }
      var b := data[at];
      at := at + 1;
      if b < 128 {
        return Some(at);
      }
    }
  }

  method FindZero(data: array<byte>, p: nat) returns (q: Option<nat>)
    ensures q == SkipName(data[..], p)
  {
    var at := p;
    while at < data.Length && data[at] != 0
      invariant SkipName(data[..], at) == SkipName(data[..], p)
      decreases data.Length - at
    {
      at := at + 1;
    }
    return if at < data.Length then Some(at + 1) else None;
  }

  // Past the opcode at p and what it trails.
  method SkipOperand(data: array<byte>, p: nat) returns (q: Option<nat>)
    requires p < data.Length
    ensures q == Next(data[..], p)
  {
    var op := data[p] / 16 * 16;
    q := Some(p + 1);
    if op == 0x20 || op == 0x80 || op == 0xA0 || op == 0x60 || op == 0x70 {
      q := ReadLeb(data, p + 1);
    } else if op == 0xC0 {
      q := ReadLeb(data, p + 1);
      if q.Some? {
        q := ReadLeb(data, q.value);
      }
    } else if op == 0x40 {
      q := FindZero(data, p + 1);
    }
  }

  // False where the file ends inside the stream. The walk reads the array it is changing.
  method Weaken(data: array<byte>, base: nat, end: nat, want: set<string>) returns (ok: bool)
    modifies data
    ensures ok <==> Rewrite(old(data[..]), base, end, want).Some?
    ensures ok ==> data[..] == Rewrite(old(data[..]), base, end, want).value
  {
    hide Next;
    var p := base;
    while p < end
      invariant Rewrite(data[..], p, end, want) == Rewrite(old(data[..]), base, end, want)
      decreases data.Length - p
    {
      if p >= data.Length {
        NothingLeft(data[..], p);
        return false;
      }
      ghost var before := data[..];
      var b := data[p];
      var q := SkipOperand(data, p);
      if q.None? {
        return false;
      }
      if b / 16 * 16 == 0x40 {
        SymbolHasName(before, p);
        var name := Text(data[p + 1..q.value - 1]);
        assert before[p + 1..q.value][..q.value - p - 2] == before[p + 1..q.value - 1];
        if name in want && b % 2 == 0 {
          data[p] := 0x40 + b % 16 + 1;
        }
      }
      assert data[..] == before[p := Mark(OpAt(before, p, q.value), want).first];
      p := q.value;
    }
    ok := true;
  }

  lemma NothingLeft(bs: seq<byte>, p: nat)
    requires p >= |bs|
    ensures Next(bs, p).None?
  {
  }

  lemma SymbolHasName(bs: seq<byte>, p: nat)
    requires Next(bs, p).Some? && IsSymbol(bs[p])
    ensures Next(bs, p).value >= p + 2
  {
  }

  // --- what the walk reads, and what it leaves ---

  lemma {:induction false} LebReads(bs: seq<byte>, r: seq<byte>, p: nat)
    requires |r| == |bs| && SkipLeb(bs, p).Some? && forall k :: p <= k < SkipLeb(bs, p).value ==> r[k] == bs[k]
    ensures SkipLeb(r, p) == SkipLeb(bs, p)
    decreases |bs| - p
  {
    if bs[p] >= 128 {
      LebReads(bs, r, p + 1);
    }
  }

  lemma {:induction false} NameReads(bs: seq<byte>, r: seq<byte>, p: nat)
    requires |r| == |bs| && SkipName(bs, p).Some? && forall k :: p <= k < SkipName(bs, p).value ==> r[k] == bs[k]
    ensures SkipName(r, p) == SkipName(bs, p)
    decreases |bs| - p
  {
    if bs[p] != 0 {
      NameReads(bs, r, p + 1);
    }
  }

  // Where an opcode ends depends on its own bytes, and of the first on the opcode alone.
  lemma NextReads(bs: seq<byte>, r: seq<byte>, p: nat)
    requires |r| == |bs| && Next(bs, p).Some? && Opcode(r[p]) == Opcode(bs[p])
    requires forall k :: p < k < Next(bs, p).value ==> r[k] == bs[k]
    ensures Next(r, p) == Next(bs, p)
  {
    var op := Opcode(bs[p]);
    if op == 0x20 || op == 0x80 || op == 0xA0 || op == 0x60 || op == 0x70 || op == 0xC0 {
      LebReads(bs, r, p + 1);
      if op == 0xC0 {
        LebReads(bs, r, SkipLeb(bs, p + 1).value);
      }
    } else if op == 0x40 {
      NameReads(bs, r, p + 1);
    }
  }

  ghost predicate SameFrom(bs: seq<byte>, r: seq<byte>, p: nat) {
    |r| == |bs| && forall k :: p <= k < |bs| ==> r[k] == bs[k]
  }

  lemma {:induction false} LebFrom(bs: seq<byte>, r: seq<byte>, p: nat)
    requires SameFrom(bs, r, p)
    ensures SkipLeb(r, p) == SkipLeb(bs, p)
    decreases |bs| - p
  {
    if p < |bs| && bs[p] >= 128 {
      LebFrom(bs, r, p + 1);
    }
  }

  lemma {:induction false} NameFrom(bs: seq<byte>, r: seq<byte>, p: nat)
    requires SameFrom(bs, r, p)
    ensures SkipName(r, p) == SkipName(bs, p)
    decreases |bs| - p
  {
    if p < |bs| && bs[p] != 0 {
      NameFrom(bs, r, p + 1);
    }
  }

  lemma NextFrom(bs: seq<byte>, r: seq<byte>, p: nat)
    requires SameFrom(bs, r, p)
    ensures Next(r, p) == Next(bs, p)
  {
    if p < |bs| {
      LebFrom(bs, r, p + 1);
      NameFrom(bs, r, p + 1);
      if SkipLeb(bs, p + 1).Some? {
        LebFrom(bs, r, SkipLeb(bs, p + 1).value);
      }
    }
  }

  // What is decoded depends on nothing before it.
  lemma {:induction false} DecodeFrom(bs: seq<byte>, r: seq<byte>, p: nat, end: nat)
    requires SameFrom(bs, r, p)
    ensures Decode(r, p, end) == Decode(bs, p, end)
    decreases |bs| - p
  {
    hide Next;
    if p < end {
      NextFrom(bs, r, p);
      if Next(bs, p).Some? {
        var q := Next(bs, p).value;
        DecodeFrom(bs, r, q, end);
        assert r[p + 1..q] == bs[p + 1..q];
      }
    }
  }

  lemma MarkKeepsOpcode(o: Op, want: set<string>)
    ensures Opcode(Mark(o, want).first) == Opcode(o.first)
    ensures Mark(Mark(o, want), want) == Mark(o, want)
  {
  }

  // The walk changes nothing before where it starts.
  lemma {:induction false} RewriteKeepsBefore(bs: seq<byte>, p: nat, end: nat, want: set<string>, k: nat)
    requires Rewrite(bs, p, end, want).Some? && k < p && k < |bs|
    ensures Rewrite(bs, p, end, want).value[k] == bs[k]
    decreases |bs| - p
  {
    hide Next, Mark;
    if p < end {
      var q := Next(bs, p).value;
      RewriteKeepsBefore(bs[p := Mark(OpAt(bs, p, q), want).first], q, end, want, k);
    }
  }

  // Rewriting commutes with decoding: the result decodes to the same opcodes, and those wanted are weak.
  lemma {:induction false} RewriteCommutes(bs: seq<byte>, p: nat, end: nat, want: set<string>)
    ensures Rewrite(bs, p, end, want).Some? <==> Decode(bs, p, end).Some?
    ensures Rewrite(bs, p, end, want).Some? ==>
      Decode(Rewrite(bs, p, end, want).value, p, end) == Some(Marked(Decode(bs, p, end).value, want))
    decreases |bs| - p
  {
    hide Next, Mark;
    if p >= end {
      assert Marked([], want) == [];
    } else if Next(bs, p).Some? {
      var q := Next(bs, p).value;
      var op := OpAt(bs, p, q);
      var next := bs[p := Mark(op, want).first];
      RewriteCommutes(next, q, end, want);
      DecodeFrom(bs, next, q, end);
      if Rewrite(next, q, end, want).Some? {
        var r := Rewrite(next, q, end, want).value;
        forall k: nat | k < q
          ensures r[k] == next[k]
        {
          RewriteKeepsBefore(next, q, end, want, k);
        }
        MarkKeepsOpcode(op, want);
        NextReads(bs, r, p);
        MarkKeepsOperand(op, want);
        assert r[p + 1..q] == bs[p + 1..q];
        assert OpAt(r, p, q) == Mark(op, want);
        var rest := Decode(bs, q, end).value;
        assert Marked([op] + rest, want) == [Mark(op, want)] + Marked(rest, want);
      }
    }
  }

  lemma MarkKeepsOperand(o: Op, want: set<string>)
    ensures Mark(o, want).at == o.at && Mark(o, want).operand == o.operand
  {
  }

  // The first byte the ops give for a place, if one of them is there.
  ghost function Given(ops: seq<Op>, k: nat, otherwise: byte): byte {
    if ops == [] then otherwise
    else if ops[0].at == k then ops[0].first
    else Given(ops[1..], k, otherwise)
  }

  lemma {:induction false} DecodedAfter(bs: seq<byte>, p: nat, end: nat)
    requires Decode(bs, p, end).Some?
    ensures forall i :: 0 <= i < |Decode(bs, p, end).value| ==> p <= Decode(bs, p, end).value[i].at
    decreases |bs| - p
  {
    hide Next;
    if p < end {
      DecodedAfter(bs, Next(bs, p).value, end);
    }
  }

  lemma {:induction false} NotGiven(ops: seq<Op>, k: nat, otherwise: byte)
    requires forall i :: 0 <= i < |ops| ==> ops[i].at != k
    ensures Given(ops, k, otherwise) == otherwise
  {
    if ops != [] {
      NotGiven(ops[1..], k, otherwise);
    }
  }

  // Only the first bytes of opcodes change, each to that of its mark.
  lemma {:induction false} RewriteGives(bs: seq<byte>, p: nat, end: nat, want: set<string>, k: nat)
    requires Rewrite(bs, p, end, want).Some? && Decode(bs, p, end).Some? && k < |bs|
    ensures Rewrite(bs, p, end, want).value[k] == Given(Marked(Decode(bs, p, end).value, want), k, bs[k])
    decreases |bs| - p
  {
    hide Next, Mark;
    if p < end {
      var q := Next(bs, p).value;
      var op := OpAt(bs, p, q);
      var next := bs[p := Mark(op, want).first];
      DecodeFrom(bs, next, q, end);
      RewriteGives(next, q, end, want, k);
      var rest := Decode(bs, q, end).value;
      MarkKeepsOperand(op, want);
      assert Marked([op] + rest, want) == [Mark(op, want)] + Marked(rest, want);
      if k == p {
        RewriteKeepsBefore(next, q, end, want, k);
      }
    }
  }

  // A second run changes nothing.
  lemma {:induction false} RewriteTwice(bs: seq<byte>, p: nat, end: nat, want: set<string>)
    requires Rewrite(bs, p, end, want).Some?
    ensures var r := Rewrite(bs, p, end, want).value; Rewrite(r, p, end, want) == Some(r)
  {
    var r := Rewrite(bs, p, end, want).value;
    var ops := Decode(bs, p, end);
    RewriteCommutes(bs, p, end, want);
    RewriteCommutes(r, p, end, want);
    var again := Marked(Marked(ops.value, want), want);
    forall i | 0 <= i < |ops.value|
      ensures again[i] == Marked(ops.value, want)[i]
    {
      MarkKeepsOpcode(ops.value[i], want);
    }
    assert again == Marked(ops.value, want);
    var s := Rewrite(r, p, end, want).value;
    forall k: nat | k < |r|
      ensures s[k] == r[k]
    {
      RewriteGives(bs, p, end, want, k);
      RewriteGives(r, p, end, want, k);
      GivenOrNot(Marked(ops.value, want), k, bs[k], r[k]);
    }
    assert s == r;
  }

  lemma {:induction false} GivenOrNot(ops: seq<Op>, k: nat, a: byte, b: byte)
    requires Given(ops, k, a) == b
    ensures Given(ops, k, b) == b
  {
    if ops != [] && ops[0].at != k {
      GivenOrNot(ops[1..], k, a, b);
    }
  }
}
