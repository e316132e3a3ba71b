/** Basic blocks, what a worklist solution over them means, and the reporting pass stated in terms of paths. */
module TsdBlocks {
  import opened Wrappers
  import opened TsdInstructions
  import opened TsdGraph

  datatype Block = Block(start: nat, end: nat, succs: seq<nat>, preds: seq<nat>)

  // A recorded call. Its target is None unless the image has a function there.
  datatype CallSite = CallSite(at: nat, target: Option<nat>, tracked: set<nat>)

  datatype Line =
    | OffList(at: nat, reg: nat, offset: nat)
    | Unmodelled(at: nat, reg: nat, op: Op)

  // The graph of a function, exactly as BuildBlocks follows it.
  function GraphOf(f: Body): Graph {
    Graph(f.words,
          seq(|f.words|, k requires 0 <= k < |f.words| => f.Next(k)),
          seq(|f.words|, k requires 0 <= k < |f.words| => k == 0 || exists j :: 0 <= j < |f.words| && k in f.Leads(j)))
  }

  lemma GraphIsValid(f: Body)
    requires f.Valid()
    ensures GraphOf(f).Valid()
  {
    var g := GraphOf(f);
    forall k, a | 0 <= k < |g.words| && a in g.next[k] ensures a < |g.words| && (!g.leader[a] ==> a == k + 1) {
      assert a !in f.Leads(k) ==> a == k + 1;
    }
    forall k | 0 < k < |g.words| && !g.leader[k] ensures g.next[k - 1] == {k} {
      assert k !in f.Leads(k - 1);
    }
  }

  // Blocks tile the function and break at leaders and nowhere else.
  ghost predicate Tiled(g: Graph, blocks: seq<Block>) {
    && g.Valid() && 0 < |blocks| && blocks[0].start == 0
    && (forall i :: 0 <= i < |blocks| ==> blocks[i].start < blocks[i].end <= |g.words| && g.leader[blocks[i].start])
    && (forall i, j :: 0 <= i < j < |blocks| ==> blocks[i].end <= blocks[j].start)
    && (forall i, j :: 0 <= i < |blocks| && j == i + 1 ==> blocks[i].end == StartOr(blocks, j, |g.words|))
    && (forall i, a :: 0 <= i < |blocks| && blocks[i].start < a < blocks[i].end ==> !g.leader[a])
  }

  function StartOr(blocks: seq<Block>, j: nat, end: nat): nat {
    if j < |blocks| then blocks[j].start else end
  }

  // Edge i -> j exactly when the last word of block i has an edge to the first of block j, and preds inverts succs.
  ghost predicate EdgesExact(g: Graph, blocks: seq<Block>)
    requires Tiled(g, blocks)
  {
    && (forall i, j: nat {:trigger j in blocks[i].succs} :: 0 <= i < |blocks| ==>
          (j in blocks[i].succs <==> j < |blocks| && blocks[j].start in g.next[blocks[i].end - 1]))
    && (forall i: nat, j {:trigger i in blocks[j].preds} :: 0 <= j < |blocks| ==>
        (i in blocks[j].preds <==> i < |blocks| && j in blocks[i].succs))
  }

  ghost predicate WellFormed(g: Graph, blocks: seq<Block>) {
    Tiled(g, blocks) && EdgesExact(g, blocks)
  }

  ghost predicate InBlock(b: Block, a: nat) {
    b.start <= a < b.end
  }

  lemma OneBlock(g: Graph, blocks: seq<Block>, i: nat, j: nat, a: nat)
    requires Tiled(g, blocks) && i < |blocks| && j < |blocks| && InBlock(blocks[i], a) && InBlock(blocks[j], a)
    ensures i == j
  {
  }

  lemma {:induction false} BlockLeader(g: Graph, blocks: seq<Block>, i: nat, a: nat)
    requires Tiled(g, blocks) && i < |blocks| && InBlock(blocks[i], a)
    ensures LeaderOf(g, a) == blocks[i].start
    decreases a
  {
    if a != blocks[i].start {
      BlockLeader(g, blocks, i, a - 1);
    }
  }

  lemma {:induction false} InSomeBlock(g: Graph, blocks: seq<Block>, a: nat, n: nat) returns (i: nat)
    requires Tiled(g, blocks) && a < |g.words| && n < |blocks| && blocks[n].start <= a
    ensures i < |blocks| && InBlock(blocks[i], a)
    decreases |blocks| - n
  {
    if a < blocks[n].end {
      i := n;
    } else {
      assert StartOr(blocks, n + 1, |g.words|) == blocks[n].end;
      i := InSomeBlock(g, blocks, a, n + 1);
    }
  }

  // Branches only end blocks.
  lemma StraightInside(g: Graph, blocks: seq<Block>, i: nat, a: nat)
    requires Tiled(g, blocks) && i < |blocks| && InBlock(blocks[i], a)
    ensures a + 1 < blocks[i].end ==> g.next[a] == {a + 1} && !g.leader[a + 1]
  {
    if a + 1 < blocks[i].end {
      var k := a + 1;
      assert !g.leader[k];
    }
  }

  // Block edges are instruction edges: an edge to a word of another run leaves a block's last word and enters a successor.
  lemma EdgeOut(g: Graph, blocks: seq<Block>, i: nat, a: nat, b: nat) returns (j: nat)
    requires WellFormed(g, blocks) && i < |blocks| && InBlock(blocks[i], a) && b in g.next[a] && g.leader[b]
    ensures a == blocks[i].end - 1 && j in blocks[i].succs && j < |blocks| && blocks[j].start == b
  {
    j := InSomeBlock(g, blocks, b, 0);
    StraightInside(g, blocks, i, a);
  }

  function Out(g: Graph, b: Block, s: set<nat>): set<nat>
    requires b.end <= |g.words|
  {
    Flow(g, b.start, b.end, s)
  }

  lemma {:induction false} SoundInBlock(g: Graph, blocks: seq<Block>, seed: set<nat>, i: nat, s: set<nat>, a: nat, r: nat)
    requires Tiled(g, blocks) && i < |blocks| && InBlock(blocks[i], a)
    requires r in s ==> Reaches(g, seed, r, blocks[i].start)
    requires r in Flow(g, blocks[i].start, a, s)
    ensures Reaches(g, seed, r, a)
    decreases a
  {
    if a != blocks[i].start {
      FlowSnoc(g, blocks[i].start, a - 1, s);
      StepMeaning(g.words[a - 1], Flow(g, blocks[i].start, a - 1, s), r);
      if r in Flow(g, blocks[i].start, a - 1, s) {
        SoundInBlock(g, blocks, seed, i, s, a - 1, r);
      }
      assert !g.leader[a];
      ReachStep(g, seed, r, a - 1, a);
    }
  }

  lemma SoundAcrossEdge(g: Graph, blocks: seq<Block>, seed: set<nat>, i: nat, s: set<nat>, j: nat, r: nat)
    requires WellFormed(g, blocks) && i < |blocks| && j in blocks[i].succs
    requires r in s ==> Reaches(g, seed, r, blocks[i].start)
    requires r in Out(g, blocks[i], s)
    ensures j < |blocks| && Reaches(g, seed, r, blocks[j].start)
  {
    assert j < |blocks|;
    var a := blocks[i].end - 1;
    FlowSnoc(g, blocks[i].start, a, s);
    StepMeaning(g.words[a], Flow(g, blocks[i].start, a, s), r);
    if r in Flow(g, blocks[i].start, a, s) {
      SoundInBlock(g, blocks, seed, i, s, a, r);
    }
    ReachStep(g, seed, r, a, blocks[j].start);
  }

  predicate Ordered(may: bool, out: set<nat>, target: set<nat>) {
    if may then out <= target else target <= out
  }

  // A solution closed under the block edges, in one merge direction.
  ghost predicate Closed(g: Graph, blocks: seq<Block>, ins: seq<set<nat>>, may: bool) {
    && WellFormed(g, blocks) && |ins| == |blocks|
    && forall b, s :: 0 <= b < |blocks| && s in blocks[b].succs && s < |ins| ==> Ordered(may, Out(g, blocks[b], ins[b]), ins[s])
  }

  lemma ClosedStep(g: Graph, blocks: seq<Block>, ins: seq<set<nat>>, r: nat, k: nat, x: nat, i: nat, a: nat)
    requires Closed(g, blocks, ins, true)
    requires k < |blocks| && InBlock(blocks[k], x) && i < |blocks| && InBlock(blocks[i], a) && a in g.next[x]
    requires r in Step(g.words[x], Flow(g, blocks[k].start, x, ins[k]))
    ensures r in Flow(g, blocks[i].start, a, ins[i])
  {
    FlowSnoc(g, blocks[k].start, x, ins[k]);
    if g.leader[a] {
      var j := EdgeOut(g, blocks, k, x, a);
      OneBlock(g, blocks, i, j, a);
      assert Ordered(true, Out(g, blocks[k], ins[k]), ins[j]);
    } else {
      OneBlock(g, blocks, i, k, x);
    }
  }

  // Completeness: a solution closed under the edges holds whatever any path carries.
  lemma {:induction false} ClosedHoldsPaths(g: Graph, blocks: seq<Block>, ins: seq<set<nat>>, seed: set<nat>, r: nat,
                                            p: seq<nat>, i: nat)
    requires Closed(g, blocks, ins, true) && seed <= ins[0]
    requires Carries(g, seed, r, p) && i < |blocks| && InBlock(blocks[i], p[|p| - 1])
    ensures r in Flow(g, blocks[i].start, p[|p| - 1], ins[i])
    decreases |p|
  {
    var a := p[|p| - 1];
    if |p| == 1 {
      OneBlock(g, blocks, 0, i, a);
    } else {
      var x := p[|p| - 2];
      PathPrefix(g, p);
      CarriesUnfold(g, seed, r, p);
      var k := InSomeBlock(g, blocks, x, 0);
      if !Gens(g.words[x], r) {
        ClosedHoldsPaths(g, blocks, ins, seed, r, p[..|p| - 1], k);
      }
      StepMeaning(g.words[x], Flow(g, blocks[k].start, x, ins[k]), r);
      ClosedStep(g, blocks, ins, r, k, x, i, a);
    }
  }

  // The solution of the may pass: at the start of each block, exactly the registers some path brings the base in.
  ghost predicate MaySolution(g: Graph, blocks: seq<Block>, seed: set<nat>, ins: seq<set<nat>>) {
    |ins| == |blocks| && forall b, r :: 0 <= b < |blocks| ==> (r in ins[b] <==> Reaches(g, seed, r, blocks[b].start))
  }

  // The solution of the must pass: nothing but at the entry, and there what the seed brings and every edge back keeps.
  ghost predicate MustSolution(g: Graph, blocks: seq<Block>, seed: set<nat>, ins: seq<set<nat>>)
    requires g.Valid()
  {
    |ins| == |blocks| && forall b :: 0 <= b < |blocks| ==> ins[b] == if b == 0 then MustEntry(g, seed) else {}
  }

  // A worklist result that is justified by paths and closed under the edges is the all-paths solution.
  lemma MayIsExact(g: Graph, blocks: seq<Block>, seed: set<nat>, ins: seq<set<nat>>)
    requires Closed(g, blocks, ins, true) && seed <= ins[0]
    requires forall b, r :: 0 <= b < |blocks| && r in ins[b] ==> Reaches(g, seed, r, blocks[b].start)
    ensures MaySolution(g, blocks, seed, ins)
  {
    forall b, r | 0 <= b < |blocks| && Reaches(g, seed, r, blocks[b].start) ensures r in ins[b] {
      var p :| Carries(g, seed, r, p) && p[|p| - 1] == blocks[b].start;
      ClosedHoldsPaths(g, blocks, ins, seed, r, p, b);
    }
  }

  lemma MustIsExact(g: Graph, blocks: seq<Block>, seed: set<nat>, ins: seq<set<nat>>)
    requires Closed(g, blocks, ins, false) && MustEntry(g, seed) <= ins[0] <= seed
    requires forall b :: 0 < b < |blocks| ==> ins[b] == {}
    ensures MustSolution(g, blocks, seed, ins)
  {
    forall r | r in ins[0] ensures EntryKeeps(g, r) {
      forall x | 0 <= x < |g.words| && 0 in g.next[x] ensures r in After(g, {r}, x) {
        var b := InSomeBlock(g, blocks, x, 0);
        var j := EdgeOut(g, blocks, b, x, 0);
        OneBlock(g, blocks, j, 0, 0);
        assert Ordered(false, Out(g, blocks[b], ins[b]), ins[0]);
        BlockLeader(g, blocks, b, x);
        OutIsAfter(g, blocks, b, ins[b]);
        var l := blocks[b].start;
        if b != 0 {
          assert blocks[0].end <= l;
        }
        FlowPointwise(g, l, blocks[b].end, ins[b], if l == 0 then {r} else {}, r);
        OutIsAfter(g, blocks, b, {r});
      }
    }
  }

  lemma OutIsAfter(g: Graph, blocks: seq<Block>, b: nat, s: set<nat>)
    requires Tiled(g, blocks) && b < |blocks|
    ensures Out(g, blocks[b], if blocks[b].start == 0 then s else {}) == After(g, s, blocks[b].end - 1)
  {
    BlockLeader(g, blocks, b, blocks[b].end - 1);
    FlowSnoc(g, blocks[b].start, blocks[b].end - 1, if blocks[b].start == 0 then s else {});
  }

  // Inside a block, too, the may state is exactly what paths bring.
  lemma MayInside(g: Graph, blocks: seq<Block>, seed: set<nat>, ins: seq<set<nat>>, b: nat, a: nat, r: nat)
    requires Closed(g, blocks, ins, true) && seed <= ins[0] && MaySolution(g, blocks, seed, ins)
    requires b < |blocks| && InBlock(blocks[b], a)
    ensures r in Flow(g, blocks[b].start, a, ins[b]) <==> Reaches(g, seed, r, a)
  {
    if r in Flow(g, blocks[b].start, a, ins[b]) {
      SoundInBlock(g, blocks, seed, b, ins[b], a, r);
    }
    if Reaches(g, seed, r, a) {
      var p :| Carries(g, seed, r, p) && p[|p| - 1] == a;
      ClosedHoldsPaths(g, blocks, ins, seed, r, p, b);
    }
  }

  lemma MustInside(g: Graph, blocks: seq<Block>, seed: set<nat>, ins: seq<set<nat>>, b: nat, a: nat)
    requires Tiled(g, blocks) && MustSolution(g, blocks, seed, ins) && b < |blocks| && InBlock(blocks[b], a)
    ensures Flow(g, blocks[b].start, a, ins[b]) == Certain(g, seed, a)
  {
    BlockLeader(g, blocks, b, a);
    if b != 0 {
      assert blocks[0].end <= blocks[b].start;
    }
  }

  // --- the first run of the entry block ---

  // Inside a block nothing cuts the seed.
  lemma {:induction false} NoCutInside(g: Graph, blocks: seq<Block>, seed: set<nat>, b: nat, n: nat)
    requires Tiled(g, blocks) && b < |blocks| && blocks[b].start <= n < blocks[b].end
    ensures FirstEntry(g, seed, n) == FirstEntry(g, seed, blocks[b].start)
    decreases n
  {
    if n > blocks[b].start {
      StraightInside(g, blocks, b, n - 1);
      NoCutInside(g, blocks, seed, b, n - 1);
    }
  }

  // A block that hands the entry all of the seed, or nothing at all, leaves the first run as the blocks before it have it.
  lemma FirstAtBlock(g: Graph, blocks: seq<Block>, seed: set<nat>, b: nat)
    requires WellFormed(g, blocks) && 0 < b < |blocks|
    ensures FirstEntry(g, seed, blocks[b].end) ==
            if 0 in blocks[b].succs && !(seed <= Out(g, blocks[b], {})) then seed * Out(g, blocks[b], {})
            else FirstEntry(g, seed, blocks[b].start)
  {
    var x := blocks[b].end - 1;
    NoCutInside(g, blocks, seed, b, x);
    BlockLeader(g, blocks, b, x);
    OutIsAfter(g, blocks, b, {});
    assert blocks[0].end <= blocks[b].start;
  }

  lemma {:induction false} FirstAtEntry(g: Graph, blocks: seq<Block>, seed: set<nat>, n: nat)
    requires Tiled(g, blocks) && n <= blocks[0].end
    ensures FirstEntry(g, seed, n) == seed
    decreases n
  {
    if n > 0 {
      BlockLeader(g, blocks, 0, n - 1);
      FirstAtEntry(g, blocks, seed, n - 1);
    }
  }

  function CalleeOf(f: Body, image: Image, a: nat): Option<nat>
    requires a < |f.words|
  {
    if f.TargetOf(a).Some? && f.TargetOf(a).value in image.functionStarts then f.TargetOf(a) else None
  }

  predicate IsCallAt(g: Graph, a: nat)
    requires a < |g.words|
  {
    g.words[a].Some? && g.words[a].value.IsCall()
  }

  function Saved(s: set<nat>): set<nat> {
    set r | r in s && CalleeSaved(r)
  }

  // What a recorded call may hand on: at least what the must solution is certain of there, at most what the first run of its
  // block has there, and nothing that no path brings.
  ghost predicate HandedOn(g: Graph, seed: set<nat>, c: CallSite) {
    && g.Valid() && c.at < |g.words| && IsCallAt(g, c.at)
    && Saved(Certain(g, seed, c.at)) <= c.tracked <= Saved(Foremost(g, seed, c.at))
    && forall r :: r in c.tracked ==> CalleeSaved(r) && Reaches(g, seed, r, c.at)
  }

  // A callee-saved register that the first run of the entry block carries from its start to the call at `a`, where nothing
  // of the block makes it anew.
  ghost predicate Stale(g: Graph, seed: set<nat>, a: nat, r: nat)
    requires g.Valid() && a < |g.words|
  {
    && IsCallAt(g, a) && LeaderOf(g, a) == 0 && CalleeSaved(r)
    && r in FirstEntry(g, seed, |g.words|) && r in Before(g, {r}, a) && r !in Before(g, {}, a)
  }

  // Every such register is one that every edge back to the entry hands on.
  ghost predicate Steady(g: Graph, seed: set<nat>)
    requires g.Valid()
  {
    forall a: nat, r :: a < |g.words| && Stale(g, seed, a, r) ==> EntryKeeps(g, r)
  }

  lemma SteadyIsExact(g: Graph, seed: set<nat>, a: nat)
    requires g.Valid() && a < |g.words| && IsCallAt(g, a) && Steady(g, seed)
    ensures Saved(Foremost(g, seed, a)) == Saved(Certain(g, seed, a))
  {
    var first := FirstEntry(g, seed, |g.words|);
    MustEntryIsFirst(g, seed, |g.words|);
    forall r | CalleeSaved(r) ensures r in Foremost(g, seed, a) <==> r in Certain(g, seed, a) {
      BeforePointwise(g, MustEntry(g, seed), first, a, r);
      BeforePointwise(g, {}, MustEntry(g, seed), a, r);
      if r in MustEntry(g, seed) || r !in first {
        BeforePointwise(g, first, MustEntry(g, seed), a, r);
      } else {
        BeforePointwise(g, first, {r}, a, r);
        if r in Foremost(g, seed, a) && LeaderOf(g, a) == 0 && r !in Before(g, {}, a) {
          assert Stale(g, seed, a, r);
        }
      }
    }
  }

  lemma StaleIsForemost(g: Graph, seed: set<nat>, a: nat, r: nat)
    requires g.Valid() && a < |g.words| && Stale(g, seed, a, r)
    ensures r in Saved(Foremost(g, seed, a))
  {
    BeforePointwise(g, {r}, FirstEntry(g, seed, |g.words|), a, r);
  }

  lemma CertainIsKept(g: Graph, seed: set<nat>, a: nat, r: nat)
    requires g.Valid() && a < |g.words| && r in Certain(g, seed, a) && r !in Before(g, {}, a)
    ensures EntryKeeps(g, r)
  {
    if r !in MustEntry(g, seed) {
      BeforePointwise(g, MustEntry(g, seed), {}, a, r);
    }
  }

  // A function that nothing branches back to the start of is steady under every seed, and so is one that makes no call in
  // its first block.
  lemma NoWayBackIsSteady(g: Graph, seed: set<nat>)
    requires g.Valid()
    requires (forall x :: 0 <= x < |g.words| ==> 0 !in g.next[x])
             || forall a: nat :: a < |g.words| && IsCallAt(g, a) ==> LeaderOf(g, a) != 0
    ensures Steady(g, seed)
  {
  }

  // A function that is not: a call, a conditional branch back to the start, an mrs into x19 and a branch back. Entered with
  // the base in x19 and x20, its last block cuts the seed to x19 before the entry block is run, and the call is recorded
  // with x19; the conditional branch then hands on nothing, and in the end nothing is certain at the call.
  function Unsteady(): Body {
    var away := Inst(BL, 0, 0, 0, 0, 0x1000, false, false);
    var maybe := Inst(BCOND, 0, 0, 0, 0, -4, false, false);
    var mrs := Inst(MRS, 19, 0, 0, TPIDRRO_EL0, 0, false, false);
    var back := Inst(B, 0, 0, 0, 0, -12, false, false);
    Body(0x4000, [Some(away), Some(maybe), Some(mrs), Some(back)])
  }

  lemma UnsteadyTargets()
    ensures var f := Unsteady();
            && f.TargetOf(0) == Some(0x5000) && f.TargetOf(1) == Some(0x4000)
            && f.TargetOf(2) == None && f.TargetOf(3) == Some(0x4000)
            && f.WordOf(Some(0x5000)) == None && f.WordOf(Some(0x4000)) == Some(0) && f.WordOf(None) == None
  {
  }

  lemma UnsteadyEdges()
    ensures var f := Unsteady();
            && f.Valid() && f.TargetOf(0) == Some(0x5000)
            && f.Leads(0) == {1} && f.Leads(1) == {0, 2} && f.Leads(2) == {} && f.Leads(3) == {0}
            && f.Next(0) == {1} && f.Next(1) == {0, 2} && f.Next(2) == {3} && f.Next(3) == {0}
  {
    UnsteadyTargets();
    hide Body.TargetOf, Body.WordOf;
    var f := Unsteady();
    assert f.Jump(0) == {} && f.Jump(1) == {0} && f.Jump(2) == {} && f.Jump(3) == {0};
    assert f.Following(0) == {1} && f.Following(1) == {2} && f.Following(2) == {3} && f.Following(3) == {};
    hide Body.Jump, Body.Following;
    assert f.Leads(0) == {} + {1} && f.Leads(1) == {0} + {2} && f.Leads(3) == {0} + {};
    assert f.Next(0) == {} + {1} && f.Next(1) == {0} + {2};
  }

  lemma UnsteadyGraph()
    ensures Unsteady().Valid() && GraphOf(Unsteady()).Valid()
    ensures var g := GraphOf(Unsteady());
            && g.words == Unsteady().words && g.next == [{1}, {0, 2}, {3}, {0}] && g.leader == [true, true, true, false]
  {
    var f := Unsteady();
    UnsteadyEdges();
    hide Body.Valid, Body.Leads, Body.Next;
    GraphIsValid(f);
    var g := GraphOf(f);
    assert 1 in f.Leads(0) && 2 in f.Leads(1);
  }

  lemma RecordedBeforeTheFixpoint()
    ensures Unsteady().Valid() && GraphOf(Unsteady()).Valid()
    ensures var g := GraphOf(Unsteady());
            && IsCallAt(g, 0) && FirstEntry(g, {19, 20}, |g.words|) == {19}
            && Saved(Foremost(g, {19, 20}, 0)) == {19} && Certain(g, {19, 20}, 0) == {}
            && !Steady(g, {19, 20})
  {
    var g := GraphOf(Unsteady());
    UnsteadyGraph();
    hide GraphOf, Body.Valid;
    UnsteadyStates(g);
    hide Unsteady, Before, After, FirstEntry, LeaderOf;
    NotKept(g, 19);
    NotKept(g, 20);
    assert MustEntry(g, {19, 20}) == {};
    assert Stale(g, {19, 20}, 0, 19);
  }

  lemma UnsteadyStates(g: Graph)
    requires g.Valid() && g.words == Unsteady().words && g.leader == [true, true, true, false]
    requires g.next == [{1}, {0, 2}, {3}, {0}]
    ensures IsCallAt(g, 0) && LeaderOf(g, 0) == 0 && forall s :: Before(g, s, 0) == s
    ensures g.leader[1] && !Gens(g.words[1], 19) && !Gens(g.words[1], 20) && |g.words| == 4
    ensures FirstEntry(g, {19, 20}, 4) == {19}
  {
    assert LeaderOf(g, 3) == 2;
    assert Flow(g, 3, 3, {19}) == {19};
    assert Step(g.words[2], {}) == {19};
    assert Flow(g, 2, 3, {}) == {19};
    assert Step(g.words[3], {19}) == {19};
    assert After(g, {}, 3) == {19};
    assert 20 !in After(g, {}, 3);
    assert {19, 20} * {19} == {19};
  }

  // A leader right before the next block keeps nothing it is entered with.
  lemma NotKept(g: Graph, r: nat)
    requires g.Valid() && 1 < |g.words| && g.leader[1] && 0 in g.next[1] && !Gens(g.words[1], r)
    ensures !EntryKeeps(g, r)
  {
    StepMeaning(g.words[1], {}, r);
    assert LeaderOf(g, 1) == 1 && After(g, {r}, 1) == Step(g.words[1], {});
  }

  // The line the reporting pass prints about register `r` at instruction `i`, if any.
  ghost predicate LineFor(i: Option<Inst>, r: nat, tracked: bool, certain: bool, line: Line) {
    && i.Some? && i.value.op != MRS && r < 31 && tracked
    && if i.value.FixedOffsetAccess(r)
       then i.value.offset % ADDRESS_SPACE !in ALLOWED_OFFSETS && line == OffList(line.at, r, i.value.offset % ADDRESS_SPACE)
       else certain && i.value.Uses(r) && line == Unmodelled(line.at, r, i.value.op)
  }

  // The reporting pass in terms of paths.
  ghost predicate Reported(g: Graph, seed: set<nat>, line: Line) {
    && g.Valid() && line.at < |g.words|
    && LineFor(g.words[line.at], line.reg, Reaches(g, seed, line.reg, line.at), line.reg in Certain(g, seed, line.at), line)
  }

  ghost predicate LineInBlock(g: Graph, b: Block, upTo: nat, may: set<nat>, must: set<nat>, line: Line) {
    && b.start <= line.at < upTo <= |g.words|
    && LineFor(g.words[line.at], line.reg, line.reg in Flow(g, b.start, line.at, may),
               line.reg in Flow(g, b.start, line.at, must), line)
  }

  // A load or store at a fixed offset off the allow-list is reported exactly when a path brings the base to it.
  lemma OffListExact(g: Graph, seed: set<nat>, a: nat, r: nat)
    requires g.Valid() && a < |g.words| && g.words[a].Some? && g.words[a].value.FixedOffsetAccess(r) && r < 31
    ensures (exists line: Line :: line.at == a && line.reg == r && Reported(g, seed, line)) <==>
            (Reaches(g, seed, r, a) && g.words[a].value.offset % ADDRESS_SPACE !in ALLOWED_OFFSETS)
  {
    if Reaches(g, seed, r, a) && g.words[a].value.offset % ADDRESS_SPACE !in ALLOWED_OFFSETS {
      assert Reported(g, seed, OffList(a, r, g.words[a].value.offset % ADDRESS_SPACE));
    }
  }

  // Lines found with a smaller seed are found again with a larger one.
  lemma ReportedMonotone(g: Graph, s: set<nat>, t: set<nat>, line: Line)
    requires s <= t && Reported(g, s, line)
    ensures Reported(g, t, line)
  {
    ReachesMonotone(g, s, t, line.reg, line.at);
    if line.reg in Certain(g, s, line.at) {
      CertainMonotone(g, s, t, line.reg, line.at);
    }
  }
}
