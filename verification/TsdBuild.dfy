/** BuildBlocks: leaders, blocks and edges of one function, proved to be the blocks of its instruction graph. */
module TsdBuild {
  import opened Ordering
  import opened Wrappers
  import opened TsdInstructions
  import opened TsdGraph
  import opened TsdBlocks

  // The leaders the words before k make.
  function LeadsUpTo(f: Body, k: nat): set<nat>
    requires k <= |f.words|
  {
    if k == 0 then {0} else LeadsUpTo(f, k - 1) + f.Leads(k - 1)
  }

  lemma {:induction false} LeadsUpToMember(f: Body, k: nat, a: nat)
    requires k <= |f.words|
    ensures a in LeadsUpTo(f, k) <==> a == 0 || exists j :: 0 <= j < k && a in f.Leads(j)
  {
    if k > 0 {
      LeadsUpToMember(f, k - 1, a);
    }
  }

  lemma LeadersAreTheGraphs(f: Body, a: nat)
    requires f.Valid()
    ensures a in LeadsUpTo(f, |f.words|) <==> a < |f.words| && GraphOf(f).leader[a]
  {
    LeadsUpToMember(f, |f.words|, a);
    if a in LeadsUpTo(f, |f.words|) && a != 0 {
      var j :| 0 <= j < |f.words| && a in f.Leads(j);
      TargetCheck(f, j);
    }
  }

  method Leaders(f: Body) returns (leaders: set<nat>)
    requires f.Valid()
    ensures leaders == LeadsUpTo(f, |f.words|)
  {
    leaders := {0};
    var k := 0;
    while k < |f.words|
      invariant 0 <= k <= |f.words|
      invariant leaders == LeadsUpTo(f, k)
    {
      var made := LeadersMade(f, k);
      leaders := leaders + made;
      k := k + 1;
    }
  }

  method LeadersMade(f: Body, k: nat) returns (made: set<nat>)
    requires f.Valid() && k < |f.words|
    ensures made == f.Leads(k)
  {
    made := {};
    if f.words[k].Some? && f.words[k].value.EndsBlock() {
      var target := f.TargetOf(k);
      TargetCheck(f, k);
      if target.Some? && target.value >= f.start && (target.value + 4) % ADDRESS_SPACE <= f.End() && target.value % 4 == 0 {
        made := made + {(target.value - f.start) / 4};
      }
      if k + 1 < |f.words| {
        made := made + {k + 1};
      }
    }
  }

  // The source's 64-bit test of a branch target is membership in the function, for the targets a valid body has.
  lemma TargetCheck(f: Body, k: nat)
    requires f.Valid() && k < |f.words| && f.words[k].Some? && f.words[k].value.EndsBlock()
    ensures var t := f.TargetOf(k);
            f.Jump(k) == if t.Some? && t.value >= f.start && (t.value + 4) % ADDRESS_SPACE <= f.End() && t.value % 4 == 0
                         then {(t.value - f.start) / 4} else {}
    ensures forall w :: w in f.Jump(k) ==> w < |f.words|
  {
  }

  ghost predicate CutAt(g: Graph, sorted: seq<nat>, cut: seq<Block>) {
    && g.Valid() && Increasing(sorted)
    && (forall a: nat :: a in sorted <==> a < |g.words| && g.leader[a])
    && |cut| == |sorted|
    && forall k {:trigger cut[k]} :: 0 <= k < |cut| ==> cut[k] == Block(sorted[k], EndAfter(g, sorted, k + 1), [], [])
  }

  function EndAfter(g: Graph, sorted: seq<nat>, k: nat): nat {
    if k < |sorted| then sorted[k] else |g.words|
  }

  lemma CutBlock(g: Graph, sorted: seq<nat>, cut: seq<Block>, k: nat)
    requires CutAt(g, sorted, cut) && k < |cut|
    ensures cut[k].start < cut[k].end <= |g.words| && g.leader[cut[k].start]
    ensures forall a :: cut[k].start < a < cut[k].end ==> !g.leader[a]
    ensures cut[k].end == StartOr(cut, k + 1, |g.words|)
  {
    assert sorted[k] in sorted;
    if k + 1 < |sorted| {
      assert sorted[k + 1] in sorted;
    }
    forall a: nat | cut[k].start < a < cut[k].end ensures !g.leader[a] {
      NoneBetween(sorted, k, a, |g.words|);
    }
  }

  lemma FirstIsLeast(sorted: seq<nat>, x: nat)
    requires Increasing(sorted) && x in sorted
    ensures sorted[0] <= x
  {
    var z :| 0 <= z < |sorted| && sorted[z] == x;
    if z > 0 {
      assert sorted[0] < sorted[z];
    }
  }

  lemma CutIsTiled(g: Graph, sorted: seq<nat>, cut: seq<Block>)
    requires CutAt(g, sorted, cut)
    ensures Tiled(g, cut)
  {
    assert 0 in sorted;
    FirstIsLeast(sorted, 0);
    forall k | 0 <= k < |cut|
      ensures cut[k].start < cut[k].end <= |g.words| && g.leader[cut[k].start]
      ensures forall a :: cut[k].start < a < cut[k].end ==> !g.leader[a]
      ensures cut[k].end == StartOr(cut, k + 1, |g.words|)
    {
      CutBlock(g, sorted, cut, k);
    }
    forall i, j | 0 <= i < j < |cut| ensures cut[i].end <= cut[j].start {
      assert i + 1 == j || sorted[i + 1] < sorted[j];
    }
  }

  lemma NoneBetween(sorted: seq<nat>, k: nat, a: nat, end: nat)
    requires Increasing(sorted) && k < |sorted| && sorted[k] < a && (k + 1 < |sorted| ==> a < sorted[k + 1])
    ensures a !in sorted
  {
    if a in sorted {
      var j :| 0 <= j < |sorted| && sorted[j] == a;
      assert false;
    }
  }

  method CutBlocks(f: Body) returns (cut: seq<Block>)
    requires f.Valid()
    ensures Tiled(GraphOf(f), cut)
    ensures forall i :: 0 <= i < |cut| ==> cut[i].succs == [] && cut[i].preds == []
  {
    ghost var g := GraphOf(f);
    GraphIsValid(f);
    var leaders := Leaders(f);
    var sorted := Sorted(leaders);
    cut := [];
    var i := 0;
    while i < |sorted|
      invariant 0 <= i <= |sorted| && |cut| == i
      invariant forall k {:trigger cut[k]} :: 0 <= k < i ==> cut[k] == Block(sorted[k], EndAfter(g, sorted, k + 1), [], [])
    {
      var end := if i + 1 < |sorted| then sorted[i + 1] else |f.words|;
      cut := cut + [Block(sorted[i], end, [], [])];
      i := i + 1;
    }
    forall a: nat ensures a in sorted <==> a < |g.words| && g.leader[a] {
      LeadersAreTheGraphs(f, a);
    }
    CutIsTiled(g, sorted, cut);
  }

  ghost predicate SameCuts(a: seq<Block>, b: seq<Block>) {
    |a| == |b| && forall k :: 0 <= k < |a| ==> a[k].start == b[k].start && a[k].end == b[k].end
  }

  function AddEdge(blocks: seq<Block>, i: nat, j: nat): (result: seq<Block>)
    requires i < |blocks| && j < |blocks|
    ensures SameCuts(blocks, result)
    ensures forall k, x {:trigger x in result[k].succs} :: 0 <= k < |blocks| ==>
        (x in result[k].succs <==> x in blocks[k].succs || (k == i && x == j))
    ensures forall k, x {:trigger x in result[k].preds} :: 0 <= k < |blocks| ==>
        (x in result[k].preds <==> x in blocks[k].preds || (k == j && x == i))
  {
    var linked := blocks[i := blocks[i].(succs := blocks[i].succs + [j])];
    linked[j := linked[j].(preds := linked[j].preds + [i])]
  }

  // The address of word k of a function that starts at `base`.
  function AddressOf(base: nat, k: nat): nat {
    base + 4 * k
  }

  // The edges added once the blocks before `n` have those to the addresses `targets`, and block `n` those to `done`.
  ghost predicate SuccsUpTo(base: nat, blocks: seq<Block>, targets: seq<set<nat>>, n: nat, done: set<nat>) {
    && |targets| == |blocks|
    && forall i, j: nat {:trigger j in blocks[i].succs} :: 0 <= i < |blocks| ==>
         (j in blocks[i].succs <==>
            j < |blocks| && ((i < n && AddressOf(base, blocks[j].start) in targets[i])
                             || (i == n && AddressOf(base, blocks[j].start) in done)))
  }

  ghost predicate PredsMirror(blocks: seq<Block>) {
    forall i: nat, j {:trigger i in blocks[j].preds} :: 0 <= j < |blocks| ==>
      (i in blocks[j].preds <==> i < |blocks| && j in blocks[i].succs)
  }

  ghost predicate EdgesUpTo(base: nat, blocks: seq<Block>, targets: seq<set<nat>>, n: nat, done: set<nat>) {
    SuccsUpTo(base, blocks, targets, n, done) && PredsMirror(blocks)
  }

  ghost predicate Indexes(base: nat, blocks: seq<Block>, indexOf: map<nat, nat>) {
    && (forall a :: a in indexOf ==> indexOf[a] < |blocks| && AddressOf(base, blocks[indexOf[a]].start) == a)
    && (forall k :: 0 <= k < |blocks| ==>
          AddressOf(base, blocks[k].start) in indexOf && indexOf[AddressOf(base, blocks[k].start)] == k)
  }

  // The addresses BuildBlocks looks for a block at, for the edges out of word k.
  function ToTry(f: Body, k: nat): set<nat>
    requires k < |f.words|
  {
    var after := AddressOf(f.start, k + 1);
    match f.words[k]
    case None => {after}
    case Some(i) =>
      if i.IsNoReturn() then {}
      else match f.TargetOf(k)
        case Some(t) => if i.IsUnconditional() then {t} else {t, after}
        case None => if i.IsBranch() then {} else {after}
  }

  lemma ToTryIsNext(f: Body, k: nat, t: nat)
    requires f.Valid() && k < |f.words| && t < |f.words|
    ensures AddressOf(f.start, t) in ToTry(f, k) <==> t in f.Next(k)
  {
    assert (AddressOf(f.start, t) - f.start) / 4 == t;
  }

  ghost function Targets(f: Body, blocks: seq<Block>): seq<set<nat>> {
    seq(|blocks|, i requires 0 <= i < |blocks| => if 0 < blocks[i].end <= |f.words| then ToTry(f, blocks[i].end - 1) else {})
  }

  lemma EdgeAdded(base: nat, blocks: seq<Block>, targets: seq<set<nat>>, i: nat, t: nat, done: set<nat>)
    requires i < |blocks| && t < |blocks| && EdgesUpTo(base, blocks, targets, i, done)
    requires forall j :: 0 <= j < |blocks| && AddressOf(base, blocks[j].start) == AddressOf(base, blocks[t].start) ==> j == t
    ensures EdgesUpTo(base, AddEdge(blocks, i, t), targets, i, done + {AddressOf(base, blocks[t].start)})
  {
    SuccAdded(base, blocks, targets, i, t, done);
    PredAdded(blocks, i, t);
  }

  lemma SuccAdded(base: nat, blocks: seq<Block>, targets: seq<set<nat>>, i: nat, t: nat, done: set<nat>)
    requires i < |blocks| && t < |blocks| && SuccsUpTo(base, blocks, targets, i, done)
    requires forall j :: 0 <= j < |blocks| && AddressOf(base, blocks[j].start) == AddressOf(base, blocks[t].start) ==> j == t
    ensures SuccsUpTo(base, AddEdge(blocks, i, t), targets, i, done + {AddressOf(base, blocks[t].start)})
  {
    var added := AddEdge(blocks, i, t);
    forall k, j: nat | 0 <= k < |added|
      ensures j in added[k].succs <==>
              j < |added| && ((k < i && AddressOf(base, added[j].start) in targets[k])
                              || (k == i && AddressOf(base, added[j].start) in done + {AddressOf(base, blocks[t].start)}))
    {
      assert j in added[k].succs <==> j in blocks[k].succs || (k == i && j == t);
      assert j in blocks[k].succs <==>
             j < |blocks| && ((k < i && AddressOf(base, blocks[j].start) in targets[k])
                              || (k == i && AddressOf(base, blocks[j].start) in done));
    }
  }

  lemma PredAdded(blocks: seq<Block>, i: nat, t: nat)
    requires i < |blocks| && t < |blocks| && PredsMirror(blocks)
    ensures PredsMirror(AddEdge(blocks, i, t))
  {
    var added := AddEdge(blocks, i, t);
    forall k: nat, j | 0 <= j < |added| ensures k in added[j].preds <==> k < |added| && j in added[k].succs {
      assert k in blocks[j].preds <==> k < |blocks| && j in blocks[k].succs;
      assert k in added[j].preds <==> k in blocks[j].preds || (j == t && k == i);
      if k < |added| {
        assert j in added[k].succs <==> j in blocks[k].succs || (k == i && j == t);
      }
    }
  }

  lemma SameCutsTiled(g: Graph, a: seq<Block>, b: seq<Block>)
    requires Tiled(g, a) && SameCuts(a, b)
    ensures Tiled(g, b)
  {
    forall i, j | 0 <= i < |b| && j == i + 1 ensures b[i].end == StartOr(b, j, |g.words|) {
      assert a[i].end == StartOr(a, j, |g.words|);
    }
  }

  lemma AnEdge(f: Body, blocks: seq<Block>, i: nat, j: nat)
    requires f.Valid() && Tiled(GraphOf(f), blocks) && i < |blocks| && j < |blocks|
    ensures AddressOf(f.start, blocks[j].start) in Targets(f, blocks)[i] <==>
            blocks[j].start in GraphOf(f).next[blocks[i].end - 1]
  {
    ToTryIsNext(f, blocks[i].end - 1, blocks[j].start);
  }

  lemma AllEdges(f: Body, blocks: seq<Block>)
    requires f.Valid() && Tiled(GraphOf(f), blocks) && EdgesUpTo(f.start, blocks, Targets(f, blocks), |blocks|, {})
    ensures EdgesExact(GraphOf(f), blocks)
  {
    var g := GraphOf(f);
    forall i, j: nat | 0 <= i < |blocks|
      ensures j in blocks[i].succs <==> j < |blocks| && blocks[j].start in g.next[blocks[i].end - 1]
    {
      if j < |blocks| {
        AnEdge(f, blocks, i, j);
      }
    }
  }

  method BuildBlocks(f: Body) returns (blocks: seq<Block>)
    requires f.Valid()
    ensures WellFormed(GraphOf(f), blocks)
  {
    var cut := CutBlocks(f);
    GraphIsValid(f);
    var indexOf := IndexBlocks(f.start, cut);
    blocks := LinkBlocks(f, cut, indexOf);
    SameCutsTiled(GraphOf(f), cut, blocks);
    AllEdges(f, blocks);
  }

  method IndexBlocks(base: nat, blocks: seq<Block>) returns (indexOf: map<nat, nat>)
    requires forall i, j :: 0 <= i < j < |blocks| ==> blocks[i].start < blocks[j].start
    ensures Indexes(base, blocks, indexOf)
  {
    indexOf := map[];
    var n := 0;
    while n < |blocks|
      invariant 0 <= n <= |blocks|
      invariant forall a :: a in indexOf ==> indexOf[a] < n && AddressOf(base, blocks[indexOf[a]].start) == a
      invariant forall k :: 0 <= k < n ==>
        AddressOf(base, blocks[k].start) in indexOf && indexOf[AddressOf(base, blocks[k].start)] == k
    {
      indexOf := indexOf[AddressOf(base, blocks[n].start) := n];
      n := n + 1;
    }
  }

  method LinkBlocks(f: Body, cut: seq<Block>, indexOf: map<nat, nat>) returns (blocks: seq<Block>)
    requires Indexes(f.start, cut, indexOf)
    requires forall i :: 0 <= i < |cut| ==> cut[i].succs == [] && cut[i].preds == [] && 0 < cut[i].end <= |f.words|
    ensures SameCuts(cut, blocks) && EdgesUpTo(f.start, blocks, Targets(f, blocks), |blocks|, {})
  {
    blocks := cut;
    ghost var targets := Targets(f, blocks);
    var i := 0;
    while i < |blocks|
      invariant 0 <= i <= |blocks|
      invariant SameCuts(cut, blocks) && Indexes(f.start, blocks, indexOf)
      invariant EdgesUpTo(f.start, blocks, targets, i, {})
    {
      blocks := AddEdges(f, blocks, indexOf, i, targets);
      i := i + 1;
    }
    assert targets == Targets(f, blocks);
  }

  // Links block `i` to every block that its last word has an edge to: `targets[i]` of them, as the graph's `next` has it.
  method AddEdges(f: Body, current: seq<Block>, indexOf: map<nat, nat>, i: nat, ghost targets: seq<set<nat>>)
    returns (blocks: seq<Block>)
    requires Indexes(f.start, current, indexOf)
    requires i < |current| && 0 < current[i].end <= |f.words|
    requires EdgesUpTo(f.start, current, targets, i, {}) && targets[i] == ToTry(f, current[i].end - 1)
    ensures SameCuts(current, blocks) && Indexes(f.start, blocks, indexOf)
    ensures EdgesUpTo(f.start, blocks, targets, i + 1, {})
  {
    blocks := current;
    var end := AddressOf(f.start, blocks[i].end);
    var last := blocks[i].end - 1;
    ghost var done: set<nat> := {};
    if f.words[last] == None {
      blocks := Add(f.start, blocks, indexOf, i, end, targets, done);
      done := done + {end};
    } else {
      var target := f.TargetOf(last);
      if f.words[last].value.IsNoReturn() {
      } else if target.Some? && f.words[last].value.IsUnconditional() {
        blocks := Add(f.start, blocks, indexOf, i, target.value, targets, done);
        done := done + {target.value};
      } else if target.Some? {
        blocks := Add(f.start, blocks, indexOf, i, target.value, targets, done);
        done := done + {target.value};
        blocks := Add(f.start, blocks, indexOf, i, end, targets, done);
        done := done + {end};
      } else if !f.words[last].value.IsBranch() {
        blocks := Add(f.start, blocks, indexOf, i, end, targets, done);
        done := done + {end};
      }
    }
    assert done == ToTry(f, last);
  }

  method Add(base: nat, current: seq<Block>, indexOf: map<nat, nat>, i: nat, target: nat, ghost targets: seq<set<nat>>,
             ghost done: set<nat>)
    returns (blocks: seq<Block>)
    requires Indexes(base, current, indexOf)
    requires i < |current| && EdgesUpTo(base, current, targets, i, done)
    ensures SameCuts(current, blocks) && Indexes(base, blocks, indexOf)
    ensures EdgesUpTo(base, blocks, targets, i, done + {target})
  {
    blocks := current;
    if target in indexOf {
      blocks := AddEdge(blocks, i, indexOf[target]);
      EdgeAdded(base, current, targets, i, indexOf[target], done);
    }
  }
}
