/** FunctionAnalysis: solves both merge directions over a function's blocks and reports, proved against the path
  * definitions of TsdGraph.
  */
module TsdAnalysis {
  import opened Wrappers
  import opened TsdInstructions
  import opened TsdGraph
  import opened TsdBlocks
  import TsdBuild

  const REGISTERS: set<nat> := set r: nat | 0 <= r < 32

  // Every register a state can name.
  lemma {:induction false} FlowInRegisters(f: Body, g: Graph, a: nat, e: nat, s: set<nat>)
    requires f.Valid() && g.words == f.words && e <= |g.words| && s <= REGISTERS
    ensures Flow(g, a, e, s) <= REGISTERS
    decreases if a < e then e - a else 0
  {
    if a < e {
      assert Step(g.words[a], s) <= REGISTERS;
      FlowInRegisters(f, g, a + 1, e, Step(g.words[a], s));
    }
  }

  // What is left of the lattice: bits still to rise under OR, bits still to fall under AND.
  ghost function Room(may: bool, ins: seq<set<nat>>): set<(nat, nat)> {
    set b: nat, r: nat | b < |ins| && r in REGISTERS && (may <==> r !in ins[b]) :: (b, r)
  }

  lemma RoomShrinks(may: bool, ins: seq<set<nat>>, s: nat, merged: set<nat>)
    requires s < |ins| && ins[s] <= REGISTERS && merged <= REGISTERS && merged != ins[s]
    requires if may then ins[s] <= merged else merged <= ins[s]
    ensures Room(may, ins[s := merged]) < Room(may, ins)
  {
    var after := Room(may, ins[s := merged]);
    if may {
      var r :| r in merged && r !in ins[s];
      assert (s, r) in Room(may, ins) && (s, r) !in after;
    } else {
      var r :| r in ins[s] && r !in merged;
      assert (s, r) in Room(may, ins) && (s, r) !in after;
    }
  }

  // What holds of the states before each block, however far the worklist has come.
  ghost predicate Sane(g: Graph, blocks: seq<Block>, seed: set<nat>, may: bool, ins: seq<set<nat>>)
    requires g.Valid()
  {
    && |ins| == |blocks| && 0 < |blocks|
    && (forall b :: 0 <= b < |ins| ==> ins[b] <= REGISTERS)
    && (may ==> seed <= ins[0])
    && (may ==> forall b, r :: 0 <= b < |ins| && r in ins[b] ==> Reaches(g, seed, r, blocks[b].start))
    && (!may ==> MustEntry(g, seed) <= ins[0] <= seed)
    && (!may ==> forall b :: 0 < b < |ins| ==> ins[b] == {})
  }

  // Block b's outgoing edges are satisfied.
  ghost predicate EdgesDone(g: Graph, blocks: seq<Block>, may: bool, ins: seq<set<nat>>, b: nat)
    requires b < |blocks| && blocks[b].end <= |g.words| && |ins| == |blocks|
  {
    forall s :: s in blocks[b].succs && s < |ins| ==> Ordered(may, Out(g, blocks[b], ins[b]), ins[s])
  }

  lemma EdgesStayDone(g: Graph, blocks: seq<Block>, may: bool, ins: seq<set<nat>>, s: nat, merged: set<nat>, b: nat)
    requires b < |blocks| && blocks[b].end <= |g.words| && |ins| == |blocks| && s < |ins| && b != s
    requires EdgesDone(g, blocks, may, ins, b) && (if may then ins[s] <= merged else merged <= ins[s])
    ensures EdgesDone(g, blocks, may, ins[s := merged], b)
  {
  }

  lemma SuccInRange(g: Graph, blocks: seq<Block>, b: nat, s: nat)
    requires WellFormed(g, blocks) && b < |blocks| && s in blocks[b].succs
    ensures s < |blocks|
  {
  }

  function Merged(may: bool, into: set<nat>, out: set<nat>): set<nat> {
    if may then into + out else into * out
  }

  // One merge keeps the states sane: it adds only what a path brings, and takes only what an edge does not hand on.
  lemma MergeIsSane(f: Body, g: Graph, blocks: seq<Block>, seed: set<nat>, may: bool, base: seq<set<nat>>, ins: seq<set<nat>>,
                    b: nat, s: nat)
    requires f.Valid() && g.words == f.words && WellFormed(g, blocks)
    requires Sane(g, blocks, seed, may, base) && Sane(g, blocks, seed, may, ins)
    requires b < |blocks| && s in blocks[b].succs && s < |blocks|
    ensures Sane(g, blocks, seed, may, ins[s := Merged(may, ins[s], Out(g, blocks[b], base[b]))])
    ensures ins[s] <= REGISTERS && Merged(may, ins[s], Out(g, blocks[b], base[b])) <= REGISTERS
  {
    var out := Out(g, blocks[b], base[b]);
    FlowInRegisters(f, g, blocks[b].start, blocks[b].end, base[b]);
    if may {
      forall r | r in out ensures Reaches(g, seed, r, blocks[s].start) {
        SoundAcrossEdge(g, blocks, seed, b, base[b], s, r);
      }
    } else if s == 0 {
      forall r | r in MustEntry(g, seed) ensures r in out {
        EntryIsKept(g, blocks, seed, base, b, r);
      }
    }
  }

  lemma EntryIsKept(g: Graph, blocks: seq<Block>, seed: set<nat>, ins: seq<set<nat>>, b: nat, r: nat)
    requires WellFormed(g, blocks) && Sane(g, blocks, seed, false, ins) && b < |blocks| && 0 in blocks[b].succs
    requires r in MustEntry(g, seed)
    ensures r in Out(g, blocks[b], ins[b])
  {
    var x := blocks[b].end - 1;
    assert r in After(g, {r}, x);
    OutIsAfter(g, blocks, b, {r});
    FlowPointwise(g, blocks[b].start, blocks[b].end, if blocks[b].start == 0 then {r} else {}, ins[b], r);
    if b != 0 {
      assert blocks[0].end <= blocks[b].start;
    }
  }

  class FunctionAnalysis {
    const f: Body
    const image: Image
    ghost const g: Graph
    var blocks: seq<Block>
    var calls: seq<CallSite>
    var violations: set<Line>

    constructor (f: Body, image: Image)
      requires f.Valid()
      ensures this.f == f && this.image == image && g == GraphOf(f) && g.Valid()
      ensures blocks == [] && calls == [] && violations == {}
    {
      this.f, this.image, this.g := f, image, GraphOf(f);
      blocks, calls, violations := [], [], {};
      new;
      GraphIsValid(f);
    }

    ghost predicate Ready()
      reads this
    {
      f.Valid() && g.words == f.words && WellFormed(g, blocks)
    }

    // The call site recorded at word `a` for a caller in state `s`.
    function Site(a: nat, s: set<nat>): CallSite
      requires a < |f.words|
    {
      CallSite(a, CalleeOf(f, image, a), Saved(s))
    }

    ghost predicate SiteIn(b: Block, upTo: nat, s: set<nat>, c: CallSite) {
      b.start <= c.at < upTo <= |g.words| == |f.words| && IsCallAt(g, c.at) && c == Site(c.at, Flow(g, b.start, c.at, s))
    }

    // Run one block: the state after it, and in the must direction the calls it makes.
    method Transfer(b: nat, state: set<nat>, may: bool) returns (out: set<nat>)
      requires Ready() && b < |blocks|
      modifies this`calls
      ensures out == Out(g, blocks[b], state)
      ensures old(calls) <= calls && (may ==> calls == old(calls))
      ensures forall c :: c in calls <==> c in old(calls) || (!may && SiteIn(blocks[b], blocks[b].end, state, c))
    {
      out := state;
      var k := blocks[b].start;
      while k < blocks[b].end
        invariant blocks[b].start <= k <= blocks[b].end
        invariant out == Flow(g, blocks[b].start, k, state)
        invariant old(calls) <= calls && (may ==> calls == old(calls))
        invariant forall c :: c in calls <==> c in old(calls) || (!may && SiteIn(blocks[b], k, state, c))
      {
        FlowSnoc(g, blocks[b].start, k, state);
        ghost var before := calls;
        if f.words[k].Some? && f.words[k].value.IsCall() && !may {
          calls := calls + [Site(k, out)];
        }
        assert forall c :: c in calls <==> c in before || (!may && c.at == k && SiteIn(blocks[b], k + 1, state, c));
        out := Step(f.words[k], out);
        k := k + 1;
      }
    }

    // The calls a block makes in its present state are recorded.
    ghost predicate CallsOf(ins: seq<set<nat>>, b: nat)
      reads this
      requires b < |blocks| && |ins| == |blocks|
    {
      forall c :: SiteIn(blocks[b], blocks[b].end, ins[b], c) ==> c in calls
    }

    ghost predicate CallsSound(seed: set<nat>)
      reads this
    {
      forall c :: c in calls ==> HandedOn(g, seed, c) && c.at < |f.words| && c.target == CalleeOf(f, image, c.at)
    }

    lemma SitesAreHandedOn(seed: set<nat>, ins: seq<set<nat>>, b: nat, c: CallSite)
      requires Ready() && Sane(g, blocks, seed, false, ins) && b < |blocks|
      requires SiteIn(blocks[b], blocks[b].end, ins[b], c)
      requires b == 0 ==> ins[0] <= First(seed)
      ensures HandedOn(g, seed, c) && c.at < |f.words| && c.target == CalleeOf(f, image, c.at)
    {
      BlockLeader(g, blocks, b, c.at);
      var l := blocks[b].start;
      if b != 0 {
        assert blocks[0].end <= l;
      }
      forall r | r in c.tracked ensures r in Saved(Foremost(g, seed, c.at)) {
        FlowPointwise(g, l, c.at, ins[b], if l == 0 then First(seed) else {}, r);
      }
      forall r | r in Saved(Certain(g, seed, c.at)) ensures r in c.tracked {
        FlowPointwise(g, l, c.at, if l == 0 then MustEntry(g, seed) else {}, ins[b], r);
      }
      forall r | r in c.tracked ensures Reaches(g, seed, r, c.at) {
        if r in ins[b] {
          assert Carries(g, seed, r, [0]);
        }
        SoundInBlock(g, blocks, seed, b, ins[b], c.at, r);
      }
    }

    // What the entry block is first run with.
    ghost function First(seed: set<nat>): set<nat>
      requires g.Valid()
    {
      FirstEntry(g, seed, |g.words|)
    }

    // The entry block has been run with that.
    ghost predicate FirstRun(seed: set<nat>)
      reads this
      requires g.Valid() && 0 < |blocks|
    {
      forall c :: SiteIn(blocks[0], blocks[0].end, First(seed), c) ==> c in calls
    }

    // The worklist. Under OR it ends with exactly what paths bring; under AND with MustEntry at the entry and nothing
    // elsewhere, with every call of the function recorded at its final state, and one of the entry block at its first.
    method Solve(seed: set<nat>, may: bool) returns (ins: seq<set<nat>>)
      requires Ready() && seed <= REGISTERS && CallsSound(seed)
      modifies this`calls
      ensures Closed(g, blocks, ins, may) && CallsSound(seed)
      ensures may ==> seed <= ins[0] && MaySolution(g, blocks, seed, ins) && calls == old(calls)
      ensures !may ==> MustSolution(g, blocks, seed, ins)
      ensures !may ==> FirstRun(seed) && forall b :: 0 <= b < |blocks| ==> CallsOf(ins, b)
      ensures !may ==> (CallsExact(seed) <==> Steady(g, seed))
    {
      hide Stage, Room, Sane, Settled, Within, FirstRun, HandedOn, Steady, CallsExact, EntrySpread, Closed, MaySolution,
        MustSolution, Out, SiteIn;
      ins := seq(|blocks|, _ => {});
      ins := ins[0 := seed];
      var work: seq<nat> := seq(|blocks|, (i: nat) => i);
      forall b | 0 <= b < |blocks| ensures b in work {
        assert work[b] == b;
      }
      EntryIsSane(g, blocks, seed, may, ins);
      EverythingWaits(g, blocks, may, ins, work);
      StageStarts(g, blocks, seed, ins, work, FirstRun(seed));
      ghost var m: nat := |blocks|;
      while work != []
        invariant |ins| == |blocks| && Sane(g, blocks, seed, may, ins) && CallsSound(seed)
        invariant Within(work, |blocks|)
        invariant Settled(g, blocks, may, ins, work)
        invariant may ==> calls == old(calls)
        invariant !may ==> Stage(g, blocks, seed, ins, work, m, FirstRun(seed))
        invariant !may ==> forall b :: 0 <= b < |blocks| && b !in work ==> CallsOf(ins, b)
        decreases Room(may, ins), |work|
      {
        var b := work[|work| - 1];
        ghost var before, ran := work, FirstRun(seed);
        work := work[..|work| - 1];
        PopIsSane(g, blocks, may, ins, before, work, b);
        if !may {
          EntryStage(g, blocks, seed, ins, before, m, ran);
        }
        var out := TransferSound(seed, ins, b, may);
        ghost var current := ins;
        ins, work := Spread(seed, may, b, out, ins, work);
        if !may {
          StageStep(g, blocks, seed, current, ins, before, work, b, out, m, ran, FirstRun(seed));
          m := if |before| == m then m - 1 else m;
          forall c | 0 <= c < |blocks| && c !in work ensures CallsOf(ins, c) {
            assert CallsOf(current, c);
          }
        }
      }
      SettledIsExact(g, blocks, seed, may, ins);
      if !may {
        StageEnds(g, blocks, seed, ins, m, FirstRun(seed));
        ExactWhereSteady(seed);
      }
    }

    method TransferSound(ghost seed: set<nat>, ins: seq<set<nat>>, b: nat, may: bool) returns (out: set<nat>)
      requires Ready() && Sane(g, blocks, seed, may, ins) && b < |blocks| && CallsSound(seed)
      requires !may && b == 0 ==> ins[0] <= First(seed)
      modifies this`calls
      ensures out == Out(g, blocks[b], ins[b]) && CallsSound(seed)
      ensures may ==> calls == old(calls)
      ensures !may ==> CallsOf(ins, b)
      ensures !may ==> forall c :: 0 <= c < |blocks| && old(CallsOf(ins, c)) ==> CallsOf(ins, c)
      ensures old(FirstRun(seed)) || (!may && b == 0 && ins[0] == First(seed)) ==> FirstRun(seed)
    {
      out := Transfer(b, ins[b], may);
      if !may {
        forall c | c in calls ensures HandedOn(g, seed, c) && c.at < |f.words| && c.target == CalleeOf(f, image, c.at) {
          if c !in old(calls) {
            SitesAreHandedOn(seed, ins, b, c);
          }
        }
      }
    }

    // Merge the state after block b into its successors, and queue those that change.
    method Spread(seed: set<nat>, may: bool, b: nat, out: set<nat>, current: seq<set<nat>>, waiting: seq<nat>)
      returns (ins: seq<set<nat>>, work: seq<nat>)
      requires Ready() && Sane(g, blocks, seed, may, current)
      requires b < |blocks| && out == Out(g, blocks[b], current[b]) && Within(waiting, |blocks|)
      requires Settled(g, blocks, may, current, waiting + [b])
      ensures |ins| == |blocks| && Sane(g, blocks, seed, may, ins) && Within(work, |blocks|)
      ensures Settled(g, blocks, may, ins, work)
      ensures forall c :: 0 <= c < |blocks| && c !in work ==> c !in waiting && ins[c] == current[c]
      ensures Room(may, ins) < Room(may, current) || (ins == current && work == waiting)
      ensures !may ==> EntrySpread(current, ins, waiting, work, out, blocks[b].succs)
    {
      hide Spreading, WellFormed;
      ins, work := current, waiting;
      SpreadStarts(g, blocks, seed, may, b, out, current, waiting);
      var j := 0;
      while j < |blocks[b].succs|
        invariant 0 <= j <= |blocks[b].succs| && |ins| == |blocks|
        invariant Spreading(g, blocks, seed, may, b, out, current, waiting, ins, work, blocks[b].succs[..j])
      {
        var s := blocks[b].succs[j];
        SuccInRange(g, blocks, b, s);
        SpreadOne(f, g, blocks, seed, may, b, out, current, waiting, ins, work, blocks[b].succs[..j], s);
        assert blocks[b].succs[..j + 1] == blocks[b].succs[..j] + [s];
        var merged := Merged(may, ins[s], out);
        if merged != ins[s] {
          ins := ins[s := merged];
          work := work + [s];
        } else {
          assert ins[s := merged] == ins;
        }
        j := j + 1;
      }
      assert blocks[b].succs[..j] == blocks[b].succs;
      SpreadEnds(g, blocks, seed, may, b, out, current, waiting, ins, work);
    }

    // The lines of one word, in register order.
    method ReportAt(k: nat, state: set<nat>, certain: set<nat>)
      requires k < |f.words| && f.words == g.words && f.words[k].Some? && f.words[k].value.op != MRS
      modifies this`violations
      ensures forall v :: v in violations <==>
        v in old(violations) || (v.at == k && LineFor(g.words[k], v.reg, v.reg in state, v.reg in certain, v))
    {
      var inst := f.words[k].value;
      for r := 0 to 31
        invariant forall v :: v in violations <==>
          v in old(violations) || (v.at == k && v.reg < r && LineFor(g.words[k], v.reg, v.reg in state, v.reg in certain, v))
      {
        if r in state {
          if inst.FixedOffsetAccess(r) {
            var offset := inst.offset % ADDRESS_SPACE;
            if offset !in ALLOWED_OFFSETS {
              violations := violations + {OffList(k, r, offset)};
            }
          } else if r in certain && inst.Uses(r) {
            violations := violations + {Unmodelled(k, r, inst.op)};
          }
        }
      }
    }

    method Report(b: nat, mayIn: set<nat>, mustIn: set<nat>)
      requires Ready() && b < |blocks|
      modifies this`violations
      ensures forall v :: v in violations <==>
        v in old(violations) || LineInBlock(g, blocks[b], blocks[b].end, mayIn, mustIn, v)
    {
      var state, certain := mayIn, mustIn;
      var k := blocks[b].start;
      while k < blocks[b].end
        invariant blocks[b].start <= k <= blocks[b].end
        invariant state == Flow(g, blocks[b].start, k, mayIn) && certain == Flow(g, blocks[b].start, k, mustIn)
        invariant forall v :: v in violations <==> v in old(violations) || LineInBlock(g, blocks[b], k, mayIn, mustIn, v)
      {
        if f.words[k].Some? && f.words[k].value.op != MRS {
          ReportAt(k, state, certain);
        }
        FlowSnoc(g, blocks[b].start, k, mayIn);
        FlowSnoc(g, blocks[b].start, k, mustIn);
        state, certain := Step(f.words[k], state), Step(f.words[k], certain);
        k := k + 1;
      }
    }

    // Every call is recorded at least with what the must solution is certain of there.
    ghost predicate CallsComplete(seed: set<nat>)
      reads this
    {
      g.Valid() && |f.words| <= |g.words| &&
      forall a: nat :: a < |f.words| && IsCallAt(g, a) ==> Site(a, Certain(g, seed, a)) in calls
    }

    lemma CallsCover(seed: set<nat>, mustIn: seq<set<nat>>)
      requires Ready() && MustSolution(g, blocks, seed, mustIn)
      requires forall b :: 0 <= b < |blocks| ==> CallsOf(mustIn, b)
      ensures CallsComplete(seed)
    {
      forall a: nat | a < |f.words| && IsCallAt(g, a) ensures Site(a, Certain(g, seed, a)) in calls {
        var b := InSomeBlock(g, blocks, a, 0);
        MustInside(g, blocks, seed, mustIn, b, a);
        assert CallsOf(mustIn, b) && SiteIn(blocks[b], blocks[b].end, mustIn[b], Site(a, Certain(g, seed, a)));
      }
    }

    // Every call is recorded with exactly what the must solution is certain of there, as the comment on the source's
    // transfer has it.
    ghost predicate CallsExact(seed: set<nat>)
      reads this
      requires g.Valid()
    {
      forall c :: c in calls ==> c.at < |g.words| && c.tracked == Saved(Certain(g, seed, c.at))
    }

    // Every call is recorded with what the first run of its block has there.
    ghost predicate CallsForemost(seed: set<nat>)
      reads this
    {
      g.Valid() && |f.words| <= |g.words| &&
      forall a: nat :: a < |f.words| && IsCallAt(g, a) ==> Site(a, Foremost(g, seed, a)) in calls
    }

    lemma FirstRunsRecorded(seed: set<nat>)
      requires Ready() && FirstRun(seed) && CallsComplete(seed)
      ensures CallsForemost(seed)
    {
      forall a: nat | a < |f.words| && IsCallAt(g, a) ensures Site(a, Foremost(g, seed, a)) in calls {
        ForemostIsCertain(g, seed, a);
        if LeaderOf(g, a) == 0 {
          FirstSite(seed, a);
        }
      }
    }

    lemma FirstSite(seed: set<nat>, a: nat)
      requires Ready() && a < |g.words| && IsCallAt(g, a) && LeaderOf(g, a) == 0
      ensures SiteIn(blocks[0], blocks[0].end, First(seed), Site(a, Foremost(g, seed, a)))
    {
      var b := InSomeBlock(g, blocks, a, 0);
      BlockLeader(g, blocks, b, a);
    }

    // Calls are recorded exactly if and only if the function is steady.
    lemma ExactWhereSteady(seed: set<nat>)
      requires Ready() && FirstRun(seed) && CallsSound(seed)
      ensures CallsExact(seed) <==> Steady(g, seed)
    {
      if Steady(g, seed) {
        forall c | c in calls ensures c.tracked == Saved(Certain(g, seed, c.at)) {
          assert HandedOn(g, seed, c);
          SteadyIsExact(g, seed, c.at);
        }
      }
      if CallsExact(seed) {
        forall a: nat, r | a < |g.words| && Stale(g, seed, a, r) ensures EntryKeeps(g, r) {
          StaleIsRecorded(seed, a, r);
        }
      }
    }

    lemma StaleIsRecorded(seed: set<nat>, a: nat, r: nat)
      requires Ready() && FirstRun(seed) && CallsExact(seed) && a < |g.words| && Stale(g, seed, a, r)
      ensures EntryKeeps(g, r)
    {
      var c := Site(a, Foremost(g, seed, a));
      FirstSite(seed, a);
      StaleIsForemost(g, seed, a, r);
      assert c.tracked == Saved(Certain(g, seed, a)) && r in Certain(g, seed, a);
      CertainIsKept(g, seed, a, r);
    }

    // One function under one seed: its lines are exactly those the path definitions call for, and its recorded calls
    // hand on at least what it is certain of and only what some path brings.
    method Run(seed: set<nat>)
      requires f.Valid() && g == GraphOf(f) && seed <= REGISTERS
      requires blocks == [] && calls == [] && violations == {}
      modifies this
      ensures WellFormed(g, blocks)
      ensures forall v :: v in violations <==> Reported(g, seed, v)
      ensures CallsSound(seed) && CallsComplete(seed) && CallsForemost(seed)
      ensures CallsExact(seed) <==> Steady(g, seed)
    {
      hide WellFormed, Closed, MaySolution, MustSolution, HandedOn, CallsOf, FirstRun, Steady, Reported, Certain,
        Graph.Valid, Body.Valid;
      GraphIsValid(f);
      blocks := TsdBuild.BuildBlocks(f);
      var mayIn := Solve(seed, true);
      var mustIn := Solve(seed, false);
      CallsCover(seed, mustIn);
      FirstRunsRecorded(seed);
      ReportAll(seed, mayIn, mustIn);
    }

    method ReportAll(ghost seed: set<nat>, mayIn: seq<set<nat>>, mustIn: seq<set<nat>>)
      requires Ready() && violations == {}
      requires Closed(g, blocks, mayIn, true) && seed <= mayIn[0] && MaySolution(g, blocks, seed, mayIn)
      requires MustSolution(g, blocks, seed, mustIn)
      modifies this`violations
      ensures forall v :: v in violations <==> Reported(g, seed, v)
    {
      var b := 0;
      while b < |blocks|
        invariant 0 <= b <= |blocks|
        invariant forall v :: v in violations <==> LineUpTo(g, blocks, mayIn, mustIn, b, v)
      {
        Report(b, mayIn[b], mustIn[b]);
        forall v
          ensures LineUpTo(g, blocks, mayIn, mustIn, b + 1, v) <==>
                  LineUpTo(g, blocks, mayIn, mustIn, b, v)
                  || LineInBlock(g, blocks[b], blocks[b].end, mayIn[b], mustIn[b], v)
        {
          OneMoreBlock(g, blocks, mayIn, mustIn, b, v);
        }
        b := b + 1;
      }
      forall v ensures v in violations <==> Reported(g, seed, v) {
        LinesOfBlocks(g, blocks, seed, mayIn, mustIn, v);
      }
    }
  }

  ghost predicate LineUpTo(g: Graph, blocks: seq<Block>, mayIn: seq<set<nat>>, mustIn: seq<set<nat>>, n: nat, v: Line) {
    n <= |blocks| == |mayIn| == |mustIn|
    && exists b :: 0 <= b < n && LineInBlock(g, blocks[b], blocks[b].end, mayIn[b], mustIn[b], v)
  }

  lemma OneMoreBlock(g: Graph, blocks: seq<Block>, mayIn: seq<set<nat>>, mustIn: seq<set<nat>>, n: nat, v: Line)
    requires n < |blocks| == |mayIn| == |mustIn|
    ensures LineUpTo(g, blocks, mayIn, mustIn, n + 1, v) <==>
            LineUpTo(g, blocks, mayIn, mustIn, n, v) || LineInBlock(g, blocks[n], blocks[n].end, mayIn[n], mustIn[n], v)
  {
  }

  lemma LineOfBlock(g: Graph, blocks: seq<Block>, seed: set<nat>, mayIn: seq<set<nat>>, mustIn: seq<set<nat>>, b: nat, v: Line)
    requires Closed(g, blocks, mayIn, true) && seed <= mayIn[0] && MaySolution(g, blocks, seed, mayIn)
    requires MustSolution(g, blocks, seed, mustIn)
    requires b < |blocks| && InBlock(blocks[b], v.at)
    ensures LineInBlock(g, blocks[b], blocks[b].end, mayIn[b], mustIn[b], v) <==> Reported(g, seed, v)
  {
    MayInside(g, blocks, seed, mayIn, b, v.at, v.reg);
    MustInside(g, blocks, seed, mustIn, b, v.at);
  }

  lemma LinesOfBlocks(g: Graph, blocks: seq<Block>, seed: set<nat>, mayIn: seq<set<nat>>, mustIn: seq<set<nat>>, v: Line)
    requires Closed(g, blocks, mayIn, true) && seed <= mayIn[0] && MaySolution(g, blocks, seed, mayIn)
    requires MustSolution(g, blocks, seed, mustIn)
    ensures LineUpTo(g, blocks, mayIn, mustIn, |blocks|, v) <==> Reported(g, seed, v)
  {
    if Reported(g, seed, v) {
      var b := InSomeBlock(g, blocks, v.at, 0);
      LineOfBlock(g, blocks, seed, mayIn, mustIn, b, v);
    }
    if b :| 0 <= b < |blocks| && LineInBlock(g, blocks[b], blocks[b].end, mayIn[b], mustIn[b], v) {
      LineOfBlock(g, blocks, seed, mayIn, mustIn, b, v);
    }
  }

  // --- spreading a block's state ---

  // What holds when block b's state has been merged into the blocks of `done`.
  ghost predicate Spreading(g: Graph, blocks: seq<Block>, seed: set<nat>, may: bool, b: nat, out: set<nat>,
                            current: seq<set<nat>>, waiting: seq<nat>, ins: seq<set<nat>>, work: seq<nat>, done: seq<nat>)
  {
    && Tiled(g, blocks) && |ins| == |current| == |blocks| && Sane(g, blocks, seed, may, ins) && Within(work, |blocks|)
    && (forall c :: 0 <= c < |blocks| && c !in work ==> c !in waiting && ins[c] == current[c])
    && Settled(g, blocks, may, ins, work + [b]) && Reached(may, out, done, ins)
    && (Room(may, ins) < Room(may, current) || (ins == current && work == waiting))
    && (!may ==> EntrySpread(current, ins, waiting, work, out, done))
  }

  lemma SpreadStarts(g: Graph, blocks: seq<Block>, seed: set<nat>, may: bool, b: nat, out: set<nat>, current: seq<set<nat>>,
                     waiting: seq<nat>)
    requires WellFormed(g, blocks) && Sane(g, blocks, seed, may, current) && Within(waiting, |blocks|)
    requires Settled(g, blocks, may, current, waiting + [b])
    ensures |current| == |blocks| && Spreading(g, blocks, seed, may, b, out, current, waiting, current, waiting, [])
  {
    hide Sane, Settled, EntrySpread, Within, Room;
    SaneSizes(g, blocks, seed, may, current);
    NothingSpread(current, waiting, out);
  }

  lemma SpreadOne(f: Body, g: Graph, blocks: seq<Block>, seed: set<nat>, may: bool, b: nat, out: set<nat>,
                  current: seq<set<nat>>, waiting: seq<nat>, ins: seq<set<nat>>, work: seq<nat>, done: seq<nat>, s: nat)
    requires f.Valid() && g.words == f.words && WellFormed(g, blocks) && Sane(g, blocks, seed, may, current)
    requires |current| == |blocks| && b < |blocks| && out == Out(g, blocks[b], current[b])
    requires s in blocks[b].succs && s < |blocks|
    requires Spreading(g, blocks, seed, may, b, out, current, waiting, ins, work, done)
    ensures var merged := Merged(may, ins[s], out);
            Spreading(g, blocks, seed, may, b, out, current, waiting, ins[s := merged],
                      if merged != ins[s] then work + [s] else work, done + [s])
  {
    hide Sane, Settled, EntrySpread, Room, Out;
    var merged := Merged(may, ins[s], out);
    ReachedOneMore(may, out, done, ins, s);
    MergeIsSane(f, g, blocks, seed, may, current, ins, b, s);
    if merged != ins[s] {
      RoomShrinks(may, ins, s, merged);
      SettledAfterMerge(g, blocks, may, ins, work, b, s, merged);
    } else {
      assert ins[s := merged] == ins;
    }
    if !may {
      EntrySpreadMore(g, blocks, seed, current, ins, ins[s := merged], waiting, work,
                      if merged != ins[s] then work + [s] else work, out, done, s);
    }
  }

  lemma SpreadEnds(g: Graph, blocks: seq<Block>, seed: set<nat>, may: bool, b: nat, out: set<nat>, current: seq<set<nat>>,
                   waiting: seq<nat>, ins: seq<set<nat>>, work: seq<nat>)
    requires WellFormed(g, blocks) && |current| == |blocks| && b < |blocks| && out == Out(g, blocks[b], current[b])
    requires Spreading(g, blocks, seed, may, b, out, current, waiting, ins, work, blocks[b].succs)
    ensures |ins| == |blocks| && Sane(g, blocks, seed, may, ins) && Within(work, |blocks|)
    ensures Settled(g, blocks, may, ins, work)
    ensures forall c :: 0 <= c < |blocks| && c !in work ==> c !in waiting && ins[c] == current[c]
    ensures Room(may, ins) < Room(may, current) || (ins == current && work == waiting)
    ensures !may ==> EntrySpread(current, ins, waiting, work, out, blocks[b].succs)
  {
    hide Sane, EntrySpread, Room, Out;
    if b !in work {
      assert EdgesDone(g, blocks, may, ins, b);
    }
  }

  // --- the order of the must pass ---

  // Under AND nothing but the entry changes, and it is queued when it does.
  ghost predicate EntrySpread(current: seq<set<nat>>, ins: seq<set<nat>>, waiting: seq<nat>, work: seq<nat>, out: set<nat>,
                              succs: seq<nat>)
  {
    && |ins| == |current| > 0
    && (forall s :: 0 < s < |ins| ==> ins[s] == current[s])
    && ins[0] == (if 0 in succs then current[0] * out else current[0])
    && work == if ins[0] == current[0] then waiting else waiting + [0]
  }

  lemma NothingSpread(current: seq<set<nat>>, waiting: seq<nat>, out: set<nat>)
    requires |current| > 0
    ensures EntrySpread(current, current, waiting, waiting, out, [])
  {
  }

  lemma SaneSizes(g: Graph, blocks: seq<Block>, seed: set<nat>, may: bool, ins: seq<set<nat>>)
    requires g.Valid() && Sane(g, blocks, seed, may, ins)
    ensures |ins| == |blocks| > 0 && (!may ==> forall b :: 0 < b < |ins| ==> ins[b] == {})
    ensures !may ==> MustEntry(g, seed) <= ins[0] <= seed
  {
  }

  lemma EntrySpreadMore(g: Graph, blocks: seq<Block>, seed: set<nat>, current: seq<set<nat>>, was: seq<set<nat>>,
                        ins: seq<set<nat>>, waiting: seq<nat>, queued: seq<nat>, work: seq<nat>, out: set<nat>,
                        succs: seq<nat>, s: nat)
    requires EntrySpread(current, was, waiting, queued, out, succs) && s < |was|
    requires g.Valid() && Sane(g, blocks, seed, false, was)
    requires var merged := Merged(false, was[s], out);
             if merged != was[s] then ins == was[s := merged] && work == queued + [s] else ins == was && work == queued
    ensures EntrySpread(current, ins, waiting, work, out, succs + [s])
  {
    SaneSizes(g, blocks, seed, false, was);
  }

  // The blocks below m in order, and after them the entry as often as it was queued again.
  ghost predicate InOrder(work: seq<nat>, m: nat) {
    && m <= |work|
    && (forall i :: 0 <= i < m ==> work[i] == i)
    && (forall i :: m <= i < |work| ==> work[i] == 0)
  }

  // Either nothing has cut the seed yet, or the first cut is made and the entry is queued for it, or the entry block has had
  // its first run.
  ghost predicate Stage(g: Graph, blocks: seq<Block>, seed: set<nat>, ins: seq<set<nat>>, work: seq<nat>, m: nat, ran: bool)
    requires g.Valid()
  {
    var first := FirstEntry(g, seed, |g.words|);
    && InOrder(work, m) && m <= |blocks| == |ins| && 0 < |ins|
    && (forall b :: 0 < b < |blocks| ==> ins[b] == {})
    && (|| (0 < m == |work| && ins[0] == seed && blocks[m - 1].end <= |g.words|
            && FirstEntry(g, seed, blocks[m - 1].end) == first)
        || (m < |work| && ins[0] == first)
        || (ran && ins[0] <= first))
  }

  lemma StageStarts(g: Graph, blocks: seq<Block>, seed: set<nat>, ins: seq<set<nat>>, work: seq<nat>, ran: bool)
    requires WellFormed(g, blocks)
    requires |ins| == |blocks| && forall b :: 0 <= b < |ins| ==> ins[b] == if b == 0 then seed else {}
    requires |work| == |blocks| && forall i :: 0 <= i < |work| ==> work[i] == i
    ensures Stage(g, blocks, seed, ins, work, |blocks|, ran)
  {
    var i, j := |blocks| - 1, |blocks|;
    assert j == i + 1 && blocks[i].end == StartOr(blocks, j, |g.words|);
  }

  // Whenever the entry block is run, it is run with at most the first.
  lemma EntryStage(g: Graph, blocks: seq<Block>, seed: set<nat>, ins: seq<set<nat>>, work: seq<nat>, m: nat, ran: bool)
    requires WellFormed(g, blocks) && Stage(g, blocks, seed, ins, work, m, ran) && work != []
    ensures work[|work| - 1] == if |work| == m then m - 1 else 0
    ensures work[|work| - 1] == 0 ==> ins[0] <= FirstEntry(g, seed, |g.words|)
    ensures work[|work| - 1] == 0 && !ran ==> ins[0] == FirstEntry(g, seed, |g.words|)
  {
    if |work| == m == 1 {
      FirstAtEntry(g, blocks, seed, blocks[0].end);
    }
  }

  lemma StageStep(g: Graph, blocks: seq<Block>, seed: set<nat>, current: seq<set<nat>>, ins: seq<set<nat>>, before: seq<nat>,
                  work: seq<nat>, b: nat, out: set<nat>, m: nat, ran: bool, runs: bool)
    requires WellFormed(g, blocks) && Stage(g, blocks, seed, current, before, m, ran) && before != []
    requires b == before[|before| - 1] < |blocks| && out == Out(g, blocks[b], current[b])
    requires EntrySpread(current, ins, before[..|before| - 1], work, out, blocks[b].succs)
    requires ran || (b == 0 && current[0] == FirstEntry(g, seed, |g.words|)) ==> runs
    ensures Stage(g, blocks, seed, ins, work, if |before| == m then m - 1 else m, runs)
  {
    EntryStage(g, blocks, seed, current, before, m, ran);
    if b > 0 && current[0] == seed {
      FirstAtBlock(g, blocks, seed, b);
      var i, j := b - 1, b;
      assert j == i + 1 && blocks[i].end == StartOr(blocks, j, |g.words|);
    }
  }

  lemma StageEnds(g: Graph, blocks: seq<Block>, seed: set<nat>, ins: seq<set<nat>>, m: nat, ran: bool)
    requires g.Valid() && Stage(g, blocks, seed, ins, [], m, ran)
    ensures ran
  {
  }

  lemma EverythingWaits(g: Graph, blocks: seq<Block>, may: bool, ins: seq<set<nat>>, work: seq<nat>)
    requires Tiled(g, blocks) && |ins| == |blocks| == |work| && forall i :: 0 <= i < |work| ==> work[i] == i
    ensures Within(work, |blocks|) && Settled(g, blocks, may, ins, work) && forall b: nat :: b < |blocks| ==> b in work
  {
    forall b: nat | b < |blocks| ensures b in work {
      assert work[b] == b;
    }
  }

  lemma PopIsSane(g: Graph, blocks: seq<Block>, may: bool, ins: seq<set<nat>>, before: seq<nat>, work: seq<nat>, b: nat)
    requires Tiled(g, blocks) && |ins| == |blocks| && before == work + [b]
    requires Within(before, |blocks|) && Settled(g, blocks, may, ins, before)
    ensures Within(work, |blocks|) && b < |blocks| && Settled(g, blocks, may, ins, work + [b])
    ensures forall c :: c in before <==> c == b || c in work
  {
    assert before[|work|] == b;
    forall i | 0 <= i < |work| ensures work[i] < |blocks| {
      assert before[i] == work[i];
    }
  }

  ghost predicate Within(work: seq<nat>, n: nat) {
    forall i :: 0 <= i < |work| ==> work[i] < n
  }

  // Every block that is not waiting has its outgoing edges satisfied.
  ghost predicate Settled(g: Graph, blocks: seq<Block>, may: bool, ins: seq<set<nat>>, work: seq<nat>)
    requires Tiled(g, blocks) && |ins| == |blocks|
  {
    forall c :: 0 <= c < |blocks| && c !in work ==> EdgesDone(g, blocks, may, ins, c)
  }

  lemma SettledIsExact(g: Graph, blocks: seq<Block>, seed: set<nat>, may: bool, ins: seq<set<nat>>)
    requires WellFormed(g, blocks) && Sane(g, blocks, seed, may, ins) && Settled(g, blocks, may, ins, [])
    ensures Closed(g, blocks, ins, may)
    ensures may ==> MaySolution(g, blocks, seed, ins)
    ensures !may ==> MustSolution(g, blocks, seed, ins)
  {
    forall b, s: nat | 0 <= b < |blocks| && s in blocks[b].succs && s < |ins|
      ensures Ordered(may, Out(g, blocks[b], ins[b]), ins[s])
    {
      assert EdgesDone(g, blocks, may, ins, b);
    }
    if may {
      MayIsExact(g, blocks, seed, ins);
    } else {
      MustIsExact(g, blocks, seed, ins);
    }
  }

  ghost predicate Reached(may: bool, out: set<nat>, succs: seq<nat>, ins: seq<set<nat>>) {
    forall s :: s in succs ==> s < |ins| && Ordered(may, out, ins[s])
  }

  lemma ReachedOneMore(may: bool, out: set<nat>, succs: seq<nat>, ins: seq<set<nat>>, s: nat)
    requires Reached(may, out, succs, ins) && s < |ins|
    ensures Reached(may, out, succs + [s], ins[s := Merged(may, ins[s], out)])
  {
  }

  lemma SettledAfterMerge(g: Graph, blocks: seq<Block>, may: bool, ins: seq<set<nat>>, work: seq<nat>, b: nat, s: nat,
                          merged: set<nat>)
    requires Tiled(g, blocks) && |ins| == |blocks| && s < |ins| && Settled(g, blocks, may, ins, work + [b])
    requires if may then ins[s] <= merged else merged <= ins[s]
    ensures Settled(g, blocks, may, ins[s := merged], work + [s] + [b])
  {
    forall c | 0 <= c < |blocks| && c !in work + [s] + [b] ensures EdgesDone(g, blocks, may, ins[s := merged], c) {
      assert c !in work + [b];
      EdgesStayDone(g, blocks, may, ins, s, merged, c);
    }
  }

  lemma EntryIsSane(g: Graph, blocks: seq<Block>, seed: set<nat>, may: bool, ins: seq<set<nat>>)
    requires WellFormed(g, blocks) && seed <= REGISTERS
    requires |ins| == |blocks| && forall b :: 0 <= b < |ins| ==> ins[b] == if b == 0 then seed else {}
    ensures Sane(g, blocks, seed, may, ins)
  {
    forall r | r in seed ensures Reaches(g, seed, r, 0) {
      assert Carries(g, seed, r, [0]);
    }
  }
}
