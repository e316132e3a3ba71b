/** The scan of a whole image: functions are analysed with the registers that calls have handed them, round after round,
  * and the seeds this ends with are the least ones closed under the calls.
  */
module TsdSeeds {
  import opened Wrappers
  import opened Sets
  import opened TsdInstructions
  import opened TsdGraph
  import opened TsdBlocks
  import opened TsdAnalysis
  import opened TsdMeaning

  const MAX_ROUNDS: nat := 4096
  const CALLEE_SAVED: set<nat> := set r: nat | 19 <= r <= 28

  type Seeds = map<nat, set<nat>>

  function SeedOf(seeds: Seeds, start: nat): set<nat> {
    if start in seeds then seeds[start] else {}
  }

  // Functions have distinct starts.
  ghost predicate ValidBodies(bodies: map<nat, Body>) {
    forall s :: s in bodies ==> bodies[s].Valid() && bodies[s].start == s
  }

  ghost predicate HoldsMRS(f: Body) {
    exists k :: 0 <= k < |f.words| && f.words[k].Some? && Gens(f.words[k], f.words[k].value.rd)
  }

  method HasMRS(f: Body) returns (found: bool)
    ensures found <==> HoldsMRS(f)
    ensures found <==> exists k, r :: 0 <= k < |f.words| && f.words[k].Some? && Makes(f.words[k].value, r)
  {
    var k := 0;
    while k < |f.words|
      invariant 0 <= k <= |f.words|
      invariant forall j :: 0 <= j < k && f.words[j].Some? ==> !Gens(f.words[j], f.words[j].value.rd)
    {
      if f.words[k].Some? && f.words[k].value.op == MRS && f.words[k].value.imm == TPIDRRO_EL0 &&
          f.words[k].value.rd != ZERO_REG {
        assert Makes(f.words[k].value, f.words[k].value.rd);
        return true;
      }
      k := k + 1;
    }
    return false;
  }

  // A function with no mrs and no seed never tracks anything.
  lemma NothingFromNothing(f: Body, r: nat, a: nat)
    requires f.Valid() && !HoldsMRS(f)
    ensures !Reaches(GraphOf(f), {}, r, a)
  {
  }

  // The (function, register) pairs handed on so far.
  ghost function Bits(seeds: Seeds): set<(nat, nat)> {
    set s: nat, r: nat | s in seeds && r in seeds[s] :: (s, r)
  }

  ghost function Handed(seeds: Seeds): nat {
    |Bits(seeds)|
  }

  lemma BitsBound(seeds: Seeds)
    requires forall s :: s in seeds ==> seeds[s] <= CALLEE_SAVED
    ensures Handed(seeds) <= 10 * |seeds.Keys|
  {
    SubsetSize(Bits(seeds), Pairs(seeds.Keys));
    PairsSize(seeds.Keys);
  }

  ghost function Row(k: nat): set<(nat, nat)> {
    {(k, 19), (k, 20), (k, 21), (k, 22), (k, 23), (k, 24), (k, 25), (k, 26), (k, 27), (k, 28)}
  }

  ghost function Pairs(keys: set<nat>): set<(nat, nat)> {
    set s: nat, r: nat | s in keys && r in CALLEE_SAVED :: (s, r)
  }

  lemma PairsSplit(keys: set<nat>, k: nat)
    requires k in keys
    ensures |Pairs(keys)| == |Pairs(keys - {k})| + 10
  {
    RowSize(k);
    assert Pairs(keys) == Pairs(keys - {k}) + Row(k) && Pairs(keys - {k}) !! Row(k);
  }

  lemma RowSize(k: nat)
    ensures |Row(k)| == 10
  {
    var half: set<(nat, nat)> := {(k, 19), (k, 20), (k, 21), (k, 22), (k, 23)};
    assert |half| == 5;
    assert Row(k) == half + {(k, 24), (k, 25), (k, 26), (k, 27), (k, 28)};
  }

  lemma {:induction false} PairsSize(keys: set<nat>)
    ensures |Pairs(keys)| == 10 * |keys|
    decreases |keys|
  {
    if keys == {} {
      assert Pairs(keys) == {};
    } else {
      var k :| k in keys;
      PairsSize(keys - {k});
      PairsSplit(keys, k);
    }
  }

  ghost predicate Grown(before: Seeds, after: Seeds) {
    forall s :: SeedOf(before, s) <= SeedOf(after, s)
  }

  // The calls of one run hand on sets contained in the seeds.
  ghost predicate Contained(calls: seq<CallSite>, seeds: Seeds) {
    forall c :: c in calls && c.target.Some? ==> c.tracked <= SeedOf(seeds, c.target.value)
  }

  // A call, by its function and its word.
  datatype Hop = Hop(caller: nat, at: nat)

  ghost predicate Calls(image: Image, bodies: map<nat, Body>, h: Hop, target: nat) {
    && h.caller in bodies && h.at < |bodies[h.caller].words| && IsCallAt(GraphOf(bodies[h.caller]), h.at)
    && CalleeOf(bodies[h.caller], image, h.at) == Some(target)
  }

  // The functions some call leads to.
  ghost function CallTargets(image: Image, bodies: map<nat, Body>): set<nat> {
    set t | t in image.functionStarts && exists h :: Calls(image, bodies, h, t)
  }

  // What a caller under these seeds has at a call when it first runs the call's block.
  ghost predicate Hands(bodies: map<nat, Body>, seeds: Seeds, h: Hop, r: nat) {
    && h.caller in bodies && GraphOf(bodies[h.caller]).Valid() && h.at < |bodies[h.caller].words|
    && r in Saved(Foremost(GraphOf(bodies[h.caller]), SeedOf(seeds, h.caller), h.at))
  }

  // The base comes to `target` in `r` over a chain of calls that hand it on: the first caller makes it with an mrs of its own,
  // each of the others has it from the one before.
  ghost predicate Chain(image: Image, bodies: map<nat, Body>, seeds: Seeds, hops: seq<Hop>, target: nat, r: nat)
    decreases |hops|
  {
    hops != [] &&
    var n := |hops| - 1;
    var h := hops[n];
    && Calls(image, bodies, h, target) && Hands(bodies, seeds, h, r)
    && Reaches(GraphOf(bodies[h.caller]), if n == 0 then {} else {r}, r, h.at)
    && (n > 0 ==> Chain(image, bodies, seeds, hops[..n], h.caller, r))
  }

  ghost predicate HandedBy(image: Image, bodies: map<nat, Body>, seeds: Seeds, target: nat, r: nat) {
    exists hops :: Chain(image, bodies, seeds, hops, target, r)
  }

  // Whatever a caller hands on under the seeds is in them.
  ghost predicate ClosedSeeds(image: Image, bodies: map<nat, Body>, seeds: Seeds) {
    forall h, t, r :: Calls(image, bodies, h, t) && Hands(bodies, seeds, h, r) ==> r in SeedOf(seeds, t)
  }

  // The seeds are inside all that are so closed.
  ghost predicate WithinClosed(image: Image, bodies: map<nat, Body>, seeds: Seeds) {
    forall closed: Seeds :: ClosedSeeds(image, bodies, closed) ==> Grown(seeds, closed)
  }

  ghost predicate SoundSeeds(image: Image, bodies: map<nat, Body>, seeds: Seeds) {
    && seeds.Keys <= CallTargets(image, bodies)
    && (forall s :: s in seeds ==> seeds[s] <= CALLEE_SAVED)
    && (forall t, r :: t in seeds && r in seeds[t] ==> HandedBy(image, bodies, seeds, t, r))
    && WithinClosed(image, bodies, seeds)
  }

  // The seeds a scan settles with.
  ghost predicate LeastSeeds(image: Image, bodies: map<nat, Body>, seeds: Seeds) {
    ClosedSeeds(image, bodies, seeds) && WithinClosed(image, bodies, seeds)
  }

  // There is one such family of seeds: in whatever order functions are visited, they and the lines under them are the same.
  lemma LeastIsOne(image: Image, bodies: map<nat, Body>, a: Seeds, b: Seeds)
    requires LeastSeeds(image, bodies, a) && LeastSeeds(image, bodies, b)
    ensures forall s :: SeedOf(a, s) == SeedOf(b, s)
    ensures forall s, v :: s in bodies ==>
      (Reported(GraphOf(bodies[s]), SeedOf(a, s), v) <==> Reported(GraphOf(bodies[s]), SeedOf(b, s), v))
  {
    hide ClosedSeeds, Reported;
    assert Grown(a, b) && Grown(b, a);
    forall s ensures SeedOf(a, s) == SeedOf(b, s) {
      assert SeedOf(a, s) <= SeedOf(b, s) <= SeedOf(a, s);
    }
  }

  lemma HandsMore(bodies: map<nat, Body>, before: Seeds, after: Seeds, h: Hop, r: nat)
    requires Grown(before, after) && Hands(bodies, before, h, r)
    ensures Hands(bodies, after, h, r)
  {
    ForemostMonotone(GraphOf(bodies[h.caller]), SeedOf(before, h.caller), SeedOf(after, h.caller), h.at);
  }

  lemma {:induction false} ChainGrows(image: Image, bodies: map<nat, Body>, before: Seeds, after: Seeds, hops: seq<Hop>,
                                      target: nat, r: nat)
    requires Grown(before, after) && Chain(image, bodies, before, hops, target, r)
    ensures Chain(image, bodies, after, hops, target, r)
    decreases |hops|
  {
    hide Hands, Grown;
    var n := |hops| - 1;
    HandsMore(bodies, before, after, hops[n], r);
    if n > 0 {
      ChainGrows(image, bodies, before, after, hops[..n], hops[n].caller, r);
    }
  }

  // What brings a register somewhere is the register itself at the entry, or an mrs.
  lemma ReachesAlone(g: Graph, seed: set<nat>, r: nat, a: nat)
    requires Reaches(g, seed, r, a)
    ensures Reaches(g, if r in seed then {r} else {}, r, a)
  {
    var p :| Carries(g, seed, r, p) && p[|p| - 1] == a;
    assert Carries(g, if r in seed then {r} else {}, r, p);
  }

  lemma ChainMore(image: Image, bodies: map<nat, Body>, seeds: Seeds, used: set<nat>, h: Hop, target: nat, r: nat)
    requires Calls(image, bodies, h, target) && Hands(bodies, seeds, h, r)
    requires Reaches(GraphOf(bodies[h.caller]), used, r, h.at)
    requires r in used ==> HandedBy(image, bodies, seeds, h.caller, r)
    ensures HandedBy(image, bodies, seeds, target, r)
  {
    hide Hands;
    ReachesAlone(GraphOf(bodies[h.caller]), used, r, h.at);
    if r in used {
      var hops :| Chain(image, bodies, seeds, hops, h.caller, r);
      assert (hops + [h])[..|hops|] == hops;
      assert Chain(image, bodies, seeds, hops + [h], target, r);
    } else {
      assert Chain(image, bodies, seeds, [h], target, r);
    }
  }

  // A chain starts in a function with an mrs.
  lemma {:induction false} ChainStartsAtMRS(image: Image, bodies: map<nat, Body>, seeds: Seeds, hops: seq<Hop>, target: nat,
                                            r: nat)
    requires ValidBodies(bodies) && Chain(image, bodies, seeds, hops, target, r)
    ensures hops[0].caller in bodies && HoldsMRS(bodies[hops[0].caller])
    decreases |hops|
  {
    var n := |hops| - 1;
    if n > 0 {
      ChainStartsAtMRS(image, bodies, seeds, hops[..n], hops[n].caller, r);
    } else if !HoldsMRS(bodies[hops[0].caller]) {
      NothingFromNothing(bodies[hops[0].caller], r, hops[0].at);
    }
  }

  // Without an mrs in the image nothing is ever seeded, and no line is called for.
  lemma NoMRSNoLine(image: Image, bodies: map<nat, Body>, seeds: Seeds, s: nat, v: Line)
    requires ValidBodies(bodies) && SoundSeeds(image, bodies, seeds) && forall f :: f in bodies ==> !HoldsMRS(bodies[f])
    requires s in bodies
    ensures SeedOf(seeds, s) == {} && !Reported(GraphOf(bodies[s]), SeedOf(seeds, s), v)
  {
    forall r ensures r !in SeedOf(seeds, s) {
      if r in SeedOf(seeds, s) {
        var hops :| Chain(image, bodies, seeds, hops, s, r);
        ChainStartsAtMRS(image, bodies, seeds, hops, s, r);
      }
    }
    NothingFromNothing(bodies[s], v.reg, v.at);
  }

  // A function matters when the base can be in one of its registers.
  ghost predicate Relevant(bodies: map<nat, Body>, seeds: Seeds, s: nat) {
    s in bodies && (HoldsMRS(bodies[s]) || SeedOf(seeds, s) != {})
  }

  // The last run of each function analysed so far: its seed and its calls.
  datatype LastRun = LastRun(seed: set<nat>, calls: seq<CallSite>)

  ghost predicate RunOf(image: Image, f: Body, run: LastRun) {
    && GraphOf(f).Valid()
    && (forall c :: c in run.calls ==> HandedOn(GraphOf(f), run.seed, c) && c.target == CalleeOf(f, image, c.at))
    && (forall a: nat :: a < |f.words| && IsCallAt(GraphOf(f), a) ==>
          && CallSite(a, CalleeOf(f, image, a), Saved(Certain(GraphOf(f), run.seed, a))) in run.calls
          && CallSite(a, CalleeOf(f, image, a), Saved(Foremost(GraphOf(f), run.seed, a))) in run.calls)
  }

  // Where the propagation stands when the functions of `waiting` are still to be analysed.
  ghost predicate Progress(image: Image, bodies: map<nat, Body>, seeds: Seeds, last: map<nat, LastRun>, waiting: set<nat>,
                           violations: set<(nat, Line)>)
  {
    && ValidBodies(bodies) && SoundSeeds(image, bodies, seeds)
    && Waits(bodies, seeds, last, waiting) && Runs(image, bodies, seeds, last) && LinesOf(bodies, last, violations)
  }

  // Who is not waiting has been analysed with its present seed, if it matters; who is waiting matters.
  ghost predicate Waits(bodies: map<nat, Body>, seeds: Seeds, last: map<nat, LastRun>, waiting: set<nat>) {
    && (forall s :: Relevant(bodies, seeds, s) && s !in waiting ==> s in last && last[s].seed == SeedOf(seeds, s))
    && (forall s :: s in waiting && s in bodies ==> Relevant(bodies, seeds, s))
  }

  ghost predicate Runs(image: Image, bodies: map<nat, Body>, seeds: Seeds, last: map<nat, LastRun>) {
    forall s :: s in last ==>
      && Relevant(bodies, seeds, s) && last[s].seed <= SeedOf(seeds, s)
      && RunOf(image, bodies[s], last[s]) && Contained(last[s].calls, seeds)
  }

  // The lines found so far are those of the last runs.
  ghost predicate LinesOf(bodies: map<nat, Body>, last: map<nat, LastRun>, violations: set<(nat, Line)>) {
    && (forall s :: s in last ==> s in bodies)
    && (forall s, v :: (s, v) in violations ==> s in last && Reported(GraphOf(bodies[s]), last[s].seed, v))
    && (forall s, v :: s in last && Reported(GraphOf(bodies[s]), last[s].seed, v) ==> (s, v) in violations)
  }

  // Growing the seeds keeps what was known.
  lemma ProgressGrows(image: Image, bodies: map<nat, Body>, before: Seeds, after: Seeds, last: map<nat, LastRun>,
                      waiting: set<nat>, grown: set<nat>, violations: set<(nat, Line)>)
    requires Progress(image, bodies, before, last, waiting, violations)
    requires Grown(before, after) && SoundSeeds(image, bodies, after)
    requires forall s :: SeedOf(after, s) != SeedOf(before, s) ==> s in grown
    requires forall s :: s in grown && s !in waiting ==> SeedOf(after, s) != {}
    ensures Progress(image, bodies, after, last, waiting + grown, violations)
  {
    WaitsGrow(bodies, before, after, last, waiting, grown);
    RunsGrow(image, bodies, before, after, last);
  }

  lemma WaitsGrow(bodies: map<nat, Body>, before: Seeds, after: Seeds, last: map<nat, LastRun>, waiting: set<nat>,
                  grown: set<nat>)
    requires Waits(bodies, before, last, waiting) && Grown(before, after)
    requires forall s :: SeedOf(after, s) != SeedOf(before, s) ==> s in grown
    requires forall s :: s in grown && s !in waiting ==> SeedOf(after, s) != {}
    ensures Waits(bodies, after, last, waiting + grown)
  {
    forall s | s in waiting + grown && s in bodies ensures Relevant(bodies, after, s) {
      assert SeedOf(before, s) <= SeedOf(after, s);
    }
  }

  lemma RunsGrow(image: Image, bodies: map<nat, Body>, before: Seeds, after: Seeds, last: map<nat, LastRun>)
    requires Runs(image, bodies, before, last) && Grown(before, after)
    ensures Runs(image, bodies, after, last)
  {
    forall s | s in last
      ensures Relevant(bodies, after, s) && last[s].seed <= SeedOf(after, s) && Contained(last[s].calls, after)
    {
      assert SeedOf(before, s) <= SeedOf(after, s);
      StillContained(last[s].calls, before, after);
    }
  }

  // One recorded call hands its registers on.
  lemma HandingOnIsSound(image: Image, bodies: map<nat, Body>, seeds: Seeds, start: nat, used: set<nat>, c: CallSite, target: nat)
    requires ValidBodies(bodies) && SoundSeeds(image, bodies, seeds)
    requires start in bodies && used <= SeedOf(seeds, start)
    requires HandedOn(GraphOf(bodies[start]), used, c) && c.at < |bodies[start].words|
    requires c.target == CalleeOf(bodies[start], image, c.at) == Some(target)
    ensures var after := seeds[target := SeedOf(seeds, target) + c.tracked];
            Grown(seeds, after) && SoundSeeds(image, bodies, after)
  {
    hide Chain, Hands, Calls;
    var after := seeds[target := SeedOf(seeds, target) + c.tracked];
    var h := Hop(start, c.at);
    assert Grown(seeds, after);
    IsCall(image, bodies, h, target);
    forall r | r in c.tracked ensures Hands(bodies, after, h, r) && Reaches(GraphOf(bodies[start]), used, r, c.at) {
      RecordedIsHanded(bodies, seeds, used, c, h, r);
      HandsMore(bodies, seeds, after, h, r);
    }
    forall t, r | t in after && r in after[t] ensures HandedBy(image, bodies, after, t, r) {
      if t in seeds && r in seeds[t] {
        var hops :| Chain(image, bodies, seeds, hops, t, r);
        ChainGrows(image, bodies, seeds, after, hops, t, r);
      } else {
        if r in used {
          var hops :| Chain(image, bodies, seeds, hops, start, r);
          ChainGrows(image, bodies, seeds, after, hops, start, r);
        }
        ChainMore(image, bodies, after, used, h, target, r);
      }
    }
    forall closed: Seeds | ClosedSeeds(image, bodies, closed) ensures Grown(after, closed) {
      StaysWithin(image, bodies, seeds, used, c, h, target, closed);
    }
  }

  lemma IsCall(image: Image, bodies: map<nat, Body>, h: Hop, target: nat)
    requires h.caller in bodies && h.at < |bodies[h.caller].words| && IsCallAt(GraphOf(bodies[h.caller]), h.at)
    requires CalleeOf(bodies[h.caller], image, h.at) == Some(target)
    ensures Calls(image, bodies, h, target) && target in CallTargets(image, bodies)
  {
    assert Calls(image, bodies, h, target);
  }

  lemma RecordedIsHanded(bodies: map<nat, Body>, seeds: Seeds, used: set<nat>, c: CallSite, h: Hop, r: nat)
    requires h.caller in bodies && h.at == c.at < |bodies[h.caller].words| && used <= SeedOf(seeds, h.caller)
    requires HandedOn(GraphOf(bodies[h.caller]), used, c) && r in c.tracked
    ensures Hands(bodies, seeds, h, r) && Reaches(GraphOf(bodies[h.caller]), used, r, c.at)
  {
    ForemostMonotone(GraphOf(bodies[h.caller]), used, SeedOf(seeds, h.caller), c.at);
  }

  // Handing on what was recorded leaves no closed family.
  lemma StaysWithin(image: Image, bodies: map<nat, Body>, seeds: Seeds, used: set<nat>, c: CallSite, h: Hop, target: nat,
                    closed: Seeds)
    requires ClosedSeeds(image, bodies, closed) && Grown(seeds, closed) && Calls(image, bodies, h, target)
    requires h.caller in bodies && h.at == c.at < |bodies[h.caller].words| && used <= SeedOf(seeds, h.caller)
    requires HandedOn(GraphOf(bodies[h.caller]), used, c)
    ensures Grown(seeds[target := SeedOf(seeds, target) + c.tracked], closed)
  {
    hide Hands, Calls, HandedOn;
    forall r | r in c.tracked ensures r in SeedOf(closed, target) {
      assert SeedOf(seeds, h.caller) <= SeedOf(closed, h.caller);
      RecordedIsHanded(bodies, closed, used, c, h, r);
    }
    assert SeedOf(seeds, target) <= SeedOf(closed, target);
    forall s ensures SeedOf(seeds[target := SeedOf(seeds, target) + c.tracked], s) <= SeedOf(closed, s) {
      assert SeedOf(seeds, s) <= SeedOf(closed, s);
    }
  }

  // The seeds are those before and what the calls carry to their callees, no more.
  ghost predicate HandedOver(before: Seeds, calls: seq<CallSite>, seeds: Seeds) {
    && (forall t: nat, r :: r in SeedOf(seeds, t) <==>
          r in SeedOf(before, t) || exists c :: c in calls && c.target == Some(t) && r in c.tracked)
    && (forall t :: t in seeds <==> t in before || exists c :: c in calls && c.target == Some(t))
  }

  lemma HandedOverMore(before: Seeds, calls: seq<CallSite>, known: Seeds, call: CallSite, seeds: Seeds)
    requires HandedOver(before, calls, known)
    requires seeds == if call.target.None? then known
                      else known[call.target.value := SeedOf(known, call.target.value) + call.tracked]
    ensures HandedOver(before, calls + [call], seeds)
  {
    var more := calls + [call];
    forall c ensures c in more <==> c in calls || c == call {}
    forall t ensures t in seeds <==> t in before || exists c :: c in more && c.target == Some(t) {
      if t in known && t !in before {
        var c :| c in calls && c.target == Some(t);
        assert c in more;
      }
    }
    forall t: nat, r
      ensures r in SeedOf(seeds, t) <==> r in SeedOf(before, t) || exists c :: c in more && c.target == Some(t) && r in c.tracked
    {
      if r in SeedOf(known, t) && r !in SeedOf(before, t) {
        var c :| c in calls && c.target == Some(t) && r in c.tracked;
        assert c in more;
      }
    }
  }

  // Hand the registers of every recorded call of one run on to its callee.
  method HandOn(ghost image: Image, ghost bodies: map<nat, Body>, ghost start: nat, ghost used: set<nat>, calls: seq<CallSite>,
                before: Seeds, queued: set<nat>)
    returns (seeds: Seeds, next: set<nat>)
    requires ValidBodies(bodies) && SoundSeeds(image, bodies, before)
    requires start in bodies && used <= SeedOf(before, start) && RunOf(image, bodies[start], LastRun(used, calls))
    requires forall c :: c in calls ==> c.at < |bodies[start].words|
    ensures Grown(before, seeds) && SoundSeeds(image, bodies, seeds) && Contained(calls, seeds)
    ensures HandedOver(before, calls, seeds) && Queued(before, seeds, queued, next)
  {
    hide SoundSeeds, HandedOver, HandedOn, Certain, Foremost;
    seeds, next := before, queued;
    NothingHandedOver(before);
    for i := 0 to |calls|
      invariant HandedOver(before, calls[..i], seeds)
      invariant Grown(before, seeds) && SoundSeeds(image, bodies, seeds) && Contained(calls[..i], seeds)
      invariant Queued(before, seeds, queued, next)
    {
      assert calls[i] in calls && calls[..i + 1] == calls[..i] + [calls[i]];
      ghost var known := seeds;
      seeds, next := HandOnOne(image, bodies, start, used, calls[i], before, queued, seeds, next);
      StillContained(calls[..i], known, seeds);
      HandedOverMore(before, calls[..i], known, calls[i], seeds);
    }
    assert calls[..|calls|] == calls;
  }

  lemma NothingHandedOver(before: Seeds)
    ensures HandedOver(before, [], before)
  {
  }

  // `next` is `queued` and the functions whose seeds have grown.
  ghost predicate Queued(before: Seeds, seeds: Seeds, queued: set<nat>, next: set<nat>) {
    && queued <= next
    && (forall s :: SeedOf(seeds, s) != SeedOf(before, s) ==> s in next)
    && (forall s :: s in next && s !in queued ==> SeedOf(seeds, s) != SeedOf(before, s))
  }

  method HandOnOne(ghost image: Image, ghost bodies: map<nat, Body>, ghost start: nat, ghost used: set<nat>, call: CallSite,
                   ghost before: Seeds, ghost queued: set<nat>, known: Seeds, current: set<nat>)
    returns (seeds: Seeds, next: set<nat>)
    requires ValidBodies(bodies) && SoundSeeds(image, bodies, known) && start in bodies && used <= SeedOf(known, start)
    requires HandedOn(GraphOf(bodies[start]), used, call) && call.at < |bodies[start].words|
    requires call.target == CalleeOf(bodies[start], image, call.at)
    requires Grown(before, known) && Queued(before, known, queued, current)
    ensures Grown(before, seeds) && Grown(known, seeds) && SoundSeeds(image, bodies, seeds)
    ensures Queued(before, seeds, queued, next) && Contained([call], seeds)
    ensures seeds == if call.target.None? then known
                     else known[call.target.value := SeedOf(known, call.target.value) + call.tracked]
  {
    seeds, next := known, current;
    if call.target.Some? {
      var target := call.target.value;
      var grew := !(call.tracked <= SeedOf(seeds, target));
      HandingOnIsSound(image, bodies, known, start, used, call, target);
      seeds := seeds[target := SeedOf(seeds, target) + call.tracked];
      if grew {
        next := next + {target};
      }
      QueuedStep(before, known, seeds, queued, current, next, target, call.tracked);
    }
  }

  lemma QueuedStep(before: Seeds, known: Seeds, seeds: Seeds, queued: set<nat>, current: set<nat>, next: set<nat>, target: nat,
                   tracked: set<nat>)
    requires Grown(before, known) && Grown(known, seeds) && Queued(before, known, queued, current)
    requires seeds == known[target := SeedOf(known, target) + tracked]
    requires next == if tracked <= SeedOf(known, target) then current else current + {target}
    ensures Grown(before, seeds) && Queued(before, seeds, queued, next)
  {
    if tracked <= SeedOf(known, target) {
      assert SeedOf(known, target) + tracked == SeedOf(known, target);
    }
    assert forall s :: s != target ==> SeedOf(seeds, s) == SeedOf(known, s);
    forall s
      ensures SeedOf(before, s) <= SeedOf(seeds, s)
      ensures SeedOf(known, s) != SeedOf(seeds, s) ==> SeedOf(before, s) != SeedOf(seeds, s)
    {
      assert SeedOf(before, s) <= SeedOf(known, s) <= SeedOf(seeds, s);
    }
  }

  lemma StillContained(calls: seq<CallSite>, before: Seeds, after: Seeds)
    requires Contained(calls, before) && Grown(before, after)
    ensures Contained(calls, after)
  {
    forall c | c in calls && c.target.Some? ensures c.tracked <= SeedOf(after, c.target.value) {
      assert SeedOf(before, c.target.value) <= SeedOf(after, c.target.value);
    }
  }

  lemma GrownBits(before: Seeds, after: Seeds, s: nat)
    requires Grown(before, after)
    ensures Handed(before) <= Handed(after)
    ensures SeedOf(before, s) != SeedOf(after, s) ==> Handed(before) < Handed(after)
  {
    forall p | p in Bits(before) ensures p in Bits(after) {
      assert SeedOf(before, p.0) <= SeedOf(after, p.0);
    }
    if SeedOf(before, s) != SeedOf(after, s) {
      assert SeedOf(before, s) <= SeedOf(after, s);
      var r :| r in SeedOf(after, s) && r !in SeedOf(before, s);
      assert (s, r) in Bits(after) && (s, r) !in Bits(before);
      ProperSubsetSize(Bits(before), Bits(after));
    }
    SubsetSize(Bits(before), Bits(after));
  }

  // Analyse one function with its present seed and hand its calls on.
  method Analyse(image: Image, bodies: map<nat, Body>, start: nat, before: Seeds, ghost last: map<nat, LastRun>,
                 ghost waiting: set<nat>, queued: set<nat>, found: set<(nat, Line)>)
    returns (seeds: Seeds, ghost runs: map<nat, LastRun>, next: set<nat>, violations: set<(nat, Line)>)
    requires start in bodies
    requires Progress(image, bodies, before, last, waiting + {start} + queued, found) && Relevant(bodies, before, start)
    ensures Progress(image, bodies, seeds, runs, waiting + next, violations)
    ensures queued <= next && Grown(before, seeds)
    ensures Handed(before) <= Handed(seeds) && (next != queued ==> Handed(before) < Handed(seeds))
  {
    var seed := SeedOf(before, start);
    SeedInRegisters(image, bodies, before, start);
    var reported, calls := RunOne(image, bodies[start], seed);
    var lines := set v | v in reported :: (start, v);
    violations := found + lines;
    seeds, next := HandOn(image, bodies, start, seed, calls, before, queued);
    ghost var run := LastRun(seed, calls);
    runs := last[start := run];
    ProgressGrows(image, bodies, before, seeds, last, waiting + {start} + queued, next, found);
    assert SeedOf(before, start) <= SeedOf(seeds, start);
    RunKept(image, bodies, seeds, last, waiting + {start} + queued + next, waiting + next, start, run, found, lines);
    GrownBits(before, seeds, start);
    if next != queued {
      var s :| s in next && s !in queued;
      GrownBits(before, seeds, s);
    }
  }

  method RunOne(image: Image, f: Body, seed: set<nat>) returns (lines: set<Line>, calls: seq<CallSite>)
    requires f.Valid() && seed <= REGISTERS
    ensures forall v :: v in lines <==> Reported(GraphOf(f), seed, v)
    ensures RunOf(image, f, LastRun(seed, calls)) && forall c :: c in calls ==> c.at < |f.words|
  {
    var analysis := new FunctionAnalysis(f, image);
    analysis.Run(seed);
    RunRecorded(analysis, seed);
    return analysis.violations, analysis.calls;
  }

  lemma RunKept(image: Image, bodies: map<nat, Body>, seeds: Seeds, last: map<nat, LastRun>, waiting: set<nat>, after: set<nat>,
                start: nat, run: LastRun, found: set<(nat, Line)>, lines: set<(nat, Line)>)
    requires Progress(image, bodies, seeds, last, waiting, found) && Relevant(bodies, seeds, start)
    requires RunOf(image, bodies[start], run) && Contained(run.calls, seeds) && run.seed <= SeedOf(seeds, start)
    requires start in last ==> last[start].seed <= run.seed
    requires after <= waiting <= after + {start} && (start !in after ==> run.seed == SeedOf(seeds, start))
    requires forall s, v :: (s, v) in lines <==> s == start && Reported(GraphOf(bodies[start]), run.seed, v)
    ensures Progress(image, bodies, seeds, last[start := run], after, found + lines)
  {
    WaitsKept(bodies, seeds, last, waiting, after, start, run);
    RunsKept(image, bodies, seeds, last, start, run);
    LinesKept(bodies, last, start, run, found, lines);
  }

  lemma WaitsKept(bodies: map<nat, Body>, seeds: Seeds, last: map<nat, LastRun>, waiting: set<nat>, after: set<nat>, start: nat,
                  run: LastRun)
    requires Waits(bodies, seeds, last, waiting)
    requires after <= waiting <= after + {start} && (start !in after ==> run.seed == SeedOf(seeds, start))
    ensures Waits(bodies, seeds, last[start := run], after)
  {
  }

  lemma RunsKept(image: Image, bodies: map<nat, Body>, seeds: Seeds, last: map<nat, LastRun>, start: nat, run: LastRun)
    requires Runs(image, bodies, seeds, last) && Relevant(bodies, seeds, start)
    requires RunOf(image, bodies[start], run) && Contained(run.calls, seeds) && run.seed <= SeedOf(seeds, start)
    ensures Runs(image, bodies, seeds, last[start := run])
  {
  }

  lemma LinesKept(bodies: map<nat, Body>, last: map<nat, LastRun>, start: nat, run: LastRun, found: set<(nat, Line)>,
                  lines: set<(nat, Line)>)
    requires LinesOf(bodies, last, found) && start in bodies && (start in last ==> last[start].seed <= run.seed)
    requires forall s, v :: (s, v) in lines <==> s == start && Reported(GraphOf(bodies[start]), run.seed, v)
    ensures LinesOf(bodies, last[start := run], found + lines)
  {
    var runs := last[start := run];
    forall s, v | (s, v) in found + lines ensures s in runs && Reported(GraphOf(bodies[s]), runs[s].seed, v) {
      if (s, v) in found && s == start {
        ReportedMonotone(GraphOf(bodies[s]), last[s].seed, run.seed, v);
      }
    }
  }

  lemma SeedInRegisters(image: Image, bodies: map<nat, Body>, seeds: Seeds, start: nat)
    requires SoundSeeds(image, bodies, seeds)
    ensures SeedOf(seeds, start) <= REGISTERS
  {
    if start in seeds {
      assert seeds[start] <= CALLEE_SAVED;
    }
  }

  lemma RunRecorded(analysis: FunctionAnalysis, seed: set<nat>)
    requires analysis.f.Valid() && analysis.g == GraphOf(analysis.f) && analysis.g.Valid()
    requires analysis.CallsSound(seed) && analysis.CallsComplete(seed) && analysis.CallsForemost(seed)
    ensures RunOf(analysis.image, analysis.f, LastRun(seed, analysis.calls))
  {
    forall a: nat | a < |analysis.f.words| && IsCallAt(analysis.g, a)
      ensures CallSite(a, CalleeOf(analysis.f, analysis.image, a), Saved(Certain(analysis.g, seed, a))) in analysis.calls
      ensures CallSite(a, CalleeOf(analysis.f, analysis.image, a), Saved(Foremost(analysis.g, seed, a))) in analysis.calls
    {
      assert analysis.Site(a, Certain(analysis.g, seed, a)) in analysis.calls;
      assert analysis.Site(a, Foremost(analysis.g, seed, a)) in analysis.calls;
    }
  }

  // One round: every pending function once, in any order.
  method Round(image: Image, bodies: map<nat, Body>, before: Seeds, ghost last: map<nat, LastRun>, pending: set<nat>,
               found: set<(nat, Line)>)
    returns (seeds: Seeds, ghost runs: map<nat, LastRun>, next: set<nat>, violations: set<(nat, Line)>)
    requires Progress(image, bodies, before, last, pending, found)
    ensures Progress(image, bodies, seeds, runs, next, violations)
    ensures Handed(before) <= Handed(seeds) && (next != {} ==> Handed(before) < Handed(seeds))
  {
    hide Progress, Handed;
    seeds, runs, next, violations := before, last, {}, found;
    var todo := pending;
    assert todo + {} == todo;
    while todo != {}
      invariant Progress(image, bodies, seeds, runs, todo + next, violations)
      invariant Handed(before) <= Handed(seeds) && (next != {} ==> Handed(before) < Handed(seeds))
      decreases |todo|
    {
      var start :| start in todo;
      TakeOut(todo, start, next);
      todo := todo - {start};
      seeds, runs, next, violations := Visit(image, bodies, start, seeds, runs, todo, next, violations);
    }
    assert todo + next == next;
  }

  lemma TakeOut(todo: set<nat>, start: nat, next: set<nat>)
    requires start in todo
    ensures todo - {start} + {start} + next == todo + next
  {
  }

  method Visit(image: Image, bodies: map<nat, Body>, start: nat, before: Seeds, ghost last: map<nat, LastRun>,
               ghost rest: set<nat>, queued: set<nat>, found: set<(nat, Line)>)
    returns (seeds: Seeds, ghost runs: map<nat, LastRun>, next: set<nat>, violations: set<(nat, Line)>)
    requires Progress(image, bodies, before, last, rest + {start} + queued, found)
    ensures Progress(image, bodies, seeds, runs, rest + next, violations)
    ensures Handed(before) <= Handed(seeds) && (next != queued ==> Handed(before) < Handed(seeds))
  {
    ghost var waiting := rest + {start} + queued;
    if start in bodies {
      WaitingMatters(bodies, before, last, waiting, start);
      seeds, runs, next, violations := Analyse(image, bodies, start, before, last, rest, queued, found);
    } else {
      seeds, runs, next, violations := before, last, queued, found;
      SkipUnknown(image, bodies, seeds, runs, waiting, rest + next, start, violations);
    }
  }

  lemma WaitingMatters(bodies: map<nat, Body>, seeds: Seeds, last: map<nat, LastRun>, waiting: set<nat>, start: nat)
    requires Waits(bodies, seeds, last, waiting) && start in waiting && start in bodies
    ensures Relevant(bodies, seeds, start)
  {
  }

  lemma SkipUnknown(image: Image, bodies: map<nat, Body>, seeds: Seeds, last: map<nat, LastRun>, waiting: set<nat>,
                    after: set<nat>, start: nat, found: set<(nat, Line)>)
    requires Progress(image, bodies, seeds, last, waiting, found) && start !in bodies
    requires after <= waiting <= after + {start}
    ensures Progress(image, bodies, seeds, last, after, found)
  {
  }

  // The scan. It settles within 10 * (call targets) + 1 rounds, so the cap is never met by an image with fewer than 409
  // call targets. Every register ever seeded came over a chain of calls from an mrs. When it settles, every function that has
  // an mrs or a seed was last analysed with its final seed, every call of that run hands on a set inside the callee's seed, the
  // seeds are the least family closed under the calls, and the lines are exactly those of every function under its final seed.
  method ScanTSDOffsets(image: Image, bodies: map<nat, Body>)
    returns (accepted: bool, settled: bool, rounds: nat, seeds: Seeds, violations: set<(nat, Line)>,
             ghost last: map<nat, LastRun>)
    requires ValidBodies(bodies)
    ensures accepted <==> settled && violations == {}
    ensures settled ==> rounds <= 10 * |CallTargets(image, bodies)| + 1
    ensures !settled ==> rounds == 4097 && 4096 <= 10 * |CallTargets(image, bodies)|
    ensures SoundSeeds(image, bodies, seeds)
    ensures settled ==> LeastSeeds(image, bodies, seeds)
    ensures settled ==> Waits(bodies, seeds, last, {}) && Runs(image, bodies, seeds, last)
    ensures settled ==> forall s, v :: (s, v) in violations <==> s in bodies && LineAt(bodies[s], SeedOf(seeds, s), v)
    ensures settled ==> SeedsClosed(image, bodies, seeds)
    ensures settled ==> SeedsAreHanded(image, bodies, seeds) && LeastHanded(image, bodies, seeds)
  {
    hide CallTargets;
    seeds, violations, rounds, last := map[], {}, 0, map[];
    var pending := StartingPoints(bodies);
    while pending != {}
      invariant Progress(image, bodies, seeds, last, pending, violations)
      invariant rounds <= Handed(seeds) + 1 && (pending != {} ==> rounds <= Handed(seeds))
      invariant rounds <= MAX_ROUNDS
      decreases MAX_ROUNDS - rounds
    {
      TargetsBound(image, bodies, seeds);
      rounds := rounds + 1;
      if rounds > MAX_ROUNDS {
        return false, false, rounds, seeds, violations, last;
      }
      seeds, last, pending, violations := Round(image, bodies, seeds, last, pending, violations);
    }
    TargetsBound(image, bodies, seeds);
    ProgressIsExact(image, bodies, seeds, last, violations);
    SettledIsHanded(image, bodies, seeds);
    return violations == {}, true, rounds, seeds, violations, last;
  }

  lemma TargetsBound(image: Image, bodies: map<nat, Body>, seeds: Seeds)
    requires SoundSeeds(image, bodies, seeds)
    ensures Handed(seeds) <= 10 * |CallTargets(image, bodies)|
  {
    BitsBound(seeds);
    SubsetSize(seeds.Keys, CallTargets(image, bodies));
  }

  method StartingPoints(bodies: map<nat, Body>) returns (pending: set<nat>)
    ensures forall s :: s in pending <==> s in bodies && HoldsMRS(bodies[s])
  {
    pending := {};
    var todo := bodies.Keys;
    while todo != {}
      invariant todo <= bodies.Keys
      invariant forall s :: s in pending <==> s in bodies && s !in todo && HoldsMRS(bodies[s])
      decreases |todo|
    {
      var s :| s in todo;
      var has := HasMRS(bodies[s]);
      if has {
        pending := pending + {s};
      }
      todo := todo - {s};
    }
  }

  // Function `s`, under these seeds, hands `r` to function `t` at word `a`.
  ghost predicate HandsTo(image: Image, bodies: map<nat, Body>, seeds: Seeds, s: nat, a: nat, t: nat, r: nat) {
    && s in bodies && GraphOf(bodies[s]).Valid() && CallTo(image, bodies[s], a, t)
    && 19 <= r <= 28 && r in Foremost(GraphOf(bodies[s]), SeedOf(seeds, s), a)
  }

  // A function is seeded with what its callers hand it, and with nothing else.
  ghost predicate SeedsAreHanded(image: Image, bodies: map<nat, Body>, seeds: Seeds) {
    forall t, r :: r in SeedOf(seeds, t) <==> exists s: nat, a: nat :: HandsTo(image, bodies, seeds, s, a, t, r)
  }

  // Any seeds that hold what callers hand on under them hold these.
  ghost predicate LeastHanded(image: Image, bodies: map<nat, Body>, seeds: Seeds) {
    forall other: Seeds :: HoldsHanded(image, bodies, other) ==> forall t :: SeedOf(seeds, t) <= SeedOf(other, t)
  }

  ghost predicate HoldsHanded(image: Image, bodies: map<nat, Body>, seeds: Seeds) {
    forall s, a, t, r :: HandsTo(image, bodies, seeds, s, a, t, r) ==> r in SeedOf(seeds, t)
  }

  lemma HandsToIs(image: Image, bodies: map<nat, Body>, seeds: Seeds, s: nat, a: nat, t: nat, r: nat)
    ensures HandsTo(image, bodies, seeds, s, a, t, r) <==>
            Calls(image, bodies, Hop(s, a), t) && Hands(bodies, seeds, Hop(s, a), r)
  {
    if s in bodies && a < |bodies[s].words| {
      CallsAre(image, bodies[s], a, t);
    }
  }

  lemma CallTargetsAre(image: Image, bodies: map<nat, Body>, t: nat)
    ensures t in CallTargets(image, bodies) <==> exists s: nat, a: nat :: s in bodies && CallTo(image, bodies[s], a, t)
  {
    forall s: nat, a: nat | s in bodies && a < |bodies[s].words|
      ensures Calls(image, bodies, Hop(s, a), t) <==> CallTo(image, bodies[s], a, t)
    {
      CallsAre(image, bodies[s], a, t);
    }
    hide Calls;
    if s: nat, a: nat :| s in bodies && CallTo(image, bodies[s], a, t) {
      assert Calls(image, bodies, Hop(s, a), t);
    }
  }

  lemma SettledIsHanded(image: Image, bodies: map<nat, Body>, seeds: Seeds)
    requires SoundSeeds(image, bodies, seeds) && LeastSeeds(image, bodies, seeds)
    ensures SeedsAreHanded(image, bodies, seeds) && LeastHanded(image, bodies, seeds)
  {
    hide Calls, Hands, HandsTo, CallTargets;
    forall t, r ensures r in SeedOf(seeds, t) <==> exists s: nat, a: nat :: HandsTo(image, bodies, seeds, s, a, t, r) {
      forall s, a ensures HandsTo(image, bodies, seeds, s, a, t, r) <==>
                          Calls(image, bodies, Hop(s, a), t) && Hands(bodies, seeds, Hop(s, a), r) {
        HandsToIs(image, bodies, seeds, s, a, t, r);
      }
      if r in SeedOf(seeds, t) {
        var hops :| Chain(image, bodies, seeds, hops, t, r);
        var h: Hop := hops[|hops| - 1];
        assert HandsTo(image, bodies, seeds, h.caller, h.at, t, r);
      }
    }
    forall other: Seeds | HoldsHanded(image, bodies, other) ensures forall t :: SeedOf(seeds, t) <= SeedOf(other, t) {
      forall h, t, r | Calls(image, bodies, h, t) && Hands(bodies, other, h, r) ensures r in SeedOf(other, t) {
        HandsToIs(image, bodies, other, h.caller, h.at, t, r);
      }
      assert Grown(seeds, other);
    }
  }

  ghost predicate SeedsClosed(image: Image, bodies: map<nat, Body>, seeds: Seeds) {
    forall s, a: nat :: s in bodies && a < |bodies[s].words| && GraphOf(bodies[s]).Valid() && IsCallAt(GraphOf(bodies[s]), a)
                        && CalleeOf(bodies[s], image, a).Some? ==>
      Saved(Certain(GraphOf(bodies[s]), SeedOf(seeds, s), a)) <= SeedOf(seeds, CalleeOf(bodies[s], image, a).value)
  }

  lemma ProgressIsExact(image: Image, bodies: map<nat, Body>, seeds: Seeds, last: map<nat, LastRun>, violations: set<(nat, Line)>)
    requires Progress(image, bodies, seeds, last, {}, violations)
    ensures forall s, v :: (s, v) in violations <==> s in bodies && LineAt(bodies[s], SeedOf(seeds, s), v)
    ensures LeastSeeds(image, bodies, seeds) && SeedsClosed(image, bodies, seeds)
  {
    LinesExact(bodies, seeds, last, violations);
    SettledIsClosed(image, bodies, seeds, last);
    ClosedHoldsCertain(image, bodies, seeds);
  }

  lemma LinesExact(bodies: map<nat, Body>, seeds: Seeds, last: map<nat, LastRun>, violations: set<(nat, Line)>)
    requires ValidBodies(bodies) && Waits(bodies, seeds, last, {}) && LinesOf(bodies, last, violations)
    requires forall s :: s in last ==> last[s].seed <= SeedOf(seeds, s) && Relevant(bodies, seeds, s)
    ensures forall s, v :: (s, v) in violations <==> s in bodies && LineAt(bodies[s], SeedOf(seeds, s), v)
  {
    hide LineAt;
    forall s, v | s in bodies
      ensures Reported(GraphOf(bodies[s]), SeedOf(seeds, s), v) <==> LineAt(bodies[s], SeedOf(seeds, s), v)
    {
      LinesAre(bodies[s], SeedOf(seeds, s), v);
    }
    hide GraphOf;
    forall s, v | s in bodies && Reported(GraphOf(bodies[s]), SeedOf(seeds, s), v) ensures (s, v) in violations {
      if !Relevant(bodies, seeds, s) {
        NothingFromNothing(bodies[s], v.reg, v.at);
      }
    }
  }

  // Once nothing waits, whatever is handed on has been: a function that was analysed was analysed with its final seed, and one
  // that was not has nothing to hand on.
  lemma SettledIsClosed(image: Image, bodies: map<nat, Body>, seeds: Seeds, last: map<nat, LastRun>)
    requires ValidBodies(bodies) && Waits(bodies, seeds, last, {}) && Runs(image, bodies, seeds, last)
    ensures ClosedSeeds(image, bodies, seeds)
  {
    forall h, t, r | Calls(image, bodies, h, t) && Hands(bodies, seeds, h, r) ensures r in SeedOf(seeds, t) {
      var f, seed := bodies[h.caller], SeedOf(seeds, h.caller);
      if Relevant(bodies, seeds, h.caller) {
        assert RunOf(image, f, last[h.caller]) && last[h.caller].seed == seed;
        assert CallSite(h.at, CalleeOf(f, image, h.at), Saved(Foremost(GraphOf(f), seed, h.at))) in last[h.caller].calls;
      } else {
        ForemostIsTracked(GraphOf(f), {}, h.at, r);
        NothingFromNothing(f, r, h.at);
      }
    }
  }

  lemma ClosedHoldsCertain(image: Image, bodies: map<nat, Body>, seeds: Seeds)
    requires ValidBodies(bodies) && ClosedSeeds(image, bodies, seeds)
    ensures SeedsClosed(image, bodies, seeds)
  {
    forall s, a: nat | s in bodies && a < |bodies[s].words| && GraphOf(bodies[s]).Valid() && IsCallAt(GraphOf(bodies[s]), a)
                       && CalleeOf(bodies[s], image, a).Some?
      ensures Saved(Certain(GraphOf(bodies[s]), SeedOf(seeds, s), a)) <= SeedOf(seeds, CalleeOf(bodies[s], image, a).value)
    {
      ForemostIsCertain(GraphOf(bodies[s]), SeedOf(seeds, s), a);
      assert Calls(image, bodies, Hop(s, a), CalleeOf(bodies[s], image, a).value);
      forall r | r in Saved(Certain(GraphOf(bodies[s]), SeedOf(seeds, s), a)) ensures Hands(bodies, seeds, Hop(s, a), r) {}
    }
  }

  // The functions of an image, by the ranges they take.
  ghost predicate SoundRanges(image: Image, ranges: map<nat, nat>) {
    forall s :: s in ranges ==> s <= ranges[s] && BodyOf(image, s, ranges[s]).Valid()
  }

  function Bodies(image: Image, ranges: map<nat, nat>): map<nat, Body>
    requires SoundRanges(image, ranges)
  {
    map s | s in ranges :: BodyOf(image, s, ranges[s])
  }

  // An image that is accepted has no fixed-offset load or store off the allow-list that any path brings the base to; one that
  // is refused after settling has an mrs, and a line is called for. The seeds, and with them the verdict, are the image's own.
  method ScanImage(image: Image, ranges: map<nat, nat>) returns (accepted: bool, settled: bool, rounds: nat, seeds: Seeds)
    requires SoundRanges(image, ranges)
    ensures settled ==> rounds <= 10 * |CallTargets(image, Bodies(image, ranges))| + 1
    ensures !settled ==> rounds == 4097 && 4096 <= 10 * |CallTargets(image, Bodies(image, ranges))|
    ensures SoundSeeds(image, Bodies(image, ranges), seeds)
    ensures settled ==> LeastSeeds(image, Bodies(image, ranges), seeds)
    ensures settled ==> SeedsAreHanded(image, Bodies(image, ranges), seeds) && LeastHanded(image, Bodies(image, ranges), seeds)
    ensures accepted <==> settled && forall s, v :: s in ranges ==> !LineAt(Bodies(image, ranges)[s], SeedOf(seeds, s), v)
    ensures settled && !accepted ==> exists s :: s in ranges && HoldsMRS(Bodies(image, ranges)[s])
    ensures accepted ==> forall s, a: nat, r: nat :: s in ranges ==> Harmless(Bodies(image, ranges)[s], SeedOf(seeds, s), a, r)
  {
    hide LineAt, SoundSeeds, LeastSeeds, SeedsAreHanded, LeastHanded, Body.Valid;
    var violations;
    ghost var bodies, last := Bodies(image, ranges), map[];
    BodiesAreValid(image, ranges);
    accepted, settled, rounds, seeds, violations, last := ScanTSDOffsets(image, Bodies(image, ranges));
    if accepted {
      forall s, a: nat, r: nat | s in ranges ensures Harmless(bodies[s], SeedOf(seeds, s), a, r) {
        forall v ensures !LineAt(bodies[s], SeedOf(seeds, s), v) {
          assert (s, v) !in violations;
        }
        UnreportedIsHarmless(bodies[s], SeedOf(seeds, s), a, r);
      }
    } else if settled {
      ghost var p: (nat, Line) :| p in violations;
      assert (p.0, p.1) in violations;
      assert p.0 in ranges && LineAt(bodies[p.0], SeedOf(seeds, p.0), p.1);
      if forall s :: s in bodies ==> !HoldsMRS(bodies[s]) {
        NoMRSNoLine(image, bodies, seeds, p.0, p.1);
        LinesAre(bodies[p.0], SeedOf(seeds, p.0), p.1);
      }
    }
  }

  lemma BodiesAreValid(image: Image, ranges: map<nat, nat>)
    requires SoundRanges(image, ranges)
    ensures ValidBodies(Bodies(image, ranges))
  {
  }

  // Two scans of an image that both settle give the same verdict, whatever the order of their rounds.
  lemma VerdictIsOne(image: Image, bodies: map<nat, Body>, a: Seeds, b: Seeds)
    requires LeastSeeds(image, bodies, a) && LeastSeeds(image, bodies, b)
    ensures (forall s, v :: s in bodies ==> !LineAt(bodies[s], SeedOf(a, s), v)) <==>
            (forall s, v :: s in bodies ==> !LineAt(bodies[s], SeedOf(b, s), v))
  {
    hide LineAt, LeastSeeds;
    LeastIsOne(image, bodies, a, b);
  }

  // No way through the function brings the base in `r` to a load or store at word `a` with an offset other than 0x358.
  ghost predicate Harmless(f: Body, seed: set<nat>, a: nat, r: nat) {
    a < |f.words| && f.words[a].Some? && r < 31 && OffsetAccess(f.words[a].value, r) && HeldAt(f, seed, r, a) ==>
      f.words[a].value.offset % 0x1_0000_0000_0000_0000 == 0x358
  }

  lemma UnreportedIsHarmless(f: Body, seed: set<nat>, a: nat, r: nat)
    requires f.Valid() && forall v :: !LineAt(f, seed, v)
    ensures Harmless(f, seed, a, r)
  {
    GraphIsValid(f);
    if a < |f.words| && f.words[a].Some? {
      assert !LineAt(f, seed, OffList(a, r, f.words[a].value.offset % 0x1_0000_0000_0000_0000));
    }
  }
}
