/** What the scan's terms come to over the decoded words of a function, opcode by opcode: its words, the control flow between
  * them, what makes and keeps the base, the calls, and the lines.
  */
module TsdMeaning {
  import opened Wrappers
  import opened TsdInstructions
  import opened TsdGraph
  import opened TsdBlocks

  // Word k of a function is what the code holds at its address, unless the image says data is there or it does not decode.
  lemma WordsAre(image: Image, start: nat, end: nat, k: nat, i: Inst)
    requires start <= end && k < (end - start) / 4
    ensures |BodyOf(image, start, end).words| == (end - start) / 4
    ensures BodyOf(image, start, end).words[k] == Some(i) <==>
            && start + 4 * k in image.code && image.code[start + 4 * k] == i && i.op != ERROR && i.op != UNKNOWN
            && forall s :: s in image.dataInCode ==> !(s.addr <= start + 4 * k < s.addr + s.length)
  {
  }

  predicate Falls(f: Body, j: nat)
    requires j < |f.words|
  {
    f.words[j].Some? ==>
      && f.words[j].value.op !in {RET, SVC, BRK, HVC, SMC, DCPS1, DCPS2, DCPS3, B, BR, BLR}
      && !(f.words[j].value.op == BCOND && f.words[j].value.alwaysTaken)
  }

  predicate BranchesTo(f: Body, j: nat, t: nat)
    requires j < |f.words|
  {
    && f.words[j].Some? && f.words[j].value.op in {B, BL, BCOND, CBZ, CBNZ, TBZ, TBNZ}
    && t == (f.start + 4 * j + f.words[j].value.offset) % 0x1_0000_0000_0000_0000
  }

  predicate Edge(f: Body, j: nat, k: nat) {
    j < |f.words| && k < |f.words| && ((k == j + 1 && Falls(f, j)) || BranchesTo(f, j, f.start + 4 * k))
  }

  predicate BreaksAfter(f: Body, j: nat)
    requires j < |f.words|
  {
    f.words[j].Some? &&
    f.words[j].value.op in {RET, SVC, BRK, HVC, SMC, DCPS1, DCPS2, DCPS3, B, BL, BR, BLR, BCOND, CBZ, CBNZ, TBZ, TBNZ}
  }

  // The scan follows these edges and no others.
  lemma EdgesAre(f: Body, j: nat, k: nat)
    requires f.Valid() && j < |f.words|
    ensures k in f.Next(j) <==> Edge(f, j, k)
  {
    JumpIs(f, j, k);
    hide Body.Jump;
  }

  lemma JumpIs(f: Body, j: nat, k: nat)
    requires f.Valid() && j < |f.words|
    ensures k in f.Jump(j) <==> k < |f.words| && BranchesTo(f, j, f.start + 4 * k)
  {
    if f.TargetOf(j).Some? {
      WordOfIs(f, f.TargetOf(j).value, k);
    }
  }

  lemma WordOfIs(f: Body, t: nat, k: nat)
    requires f.Valid()
    ensures f.WordOf(Some(t)) == Some(k) <==> k < |f.words| && t == f.start + 4 * k
  {
    hide Body.TargetOf;
    if k < |f.words| && t == f.start + 4 * k {
      assert t - f.start == 4 * k;
    } else if f.WordOf(Some(t)).Some? {
      assert t == f.start + 4 * ((t - f.start) / 4);
    }
  }

  // A block starts at the first word, at the target of a branch, and after every word that ends one.
  lemma LeadersAre(f: Body, k: nat)
    requires f.Valid() && k < |f.words|
    ensures GraphOf(f).leader[k] <==>
            k == 0 || exists j: nat :: j < |f.words| && BreaksAfter(f, j) && (k == j + 1 || BranchesTo(f, j, f.start + 4 * k))
  {
    forall j: nat | j < |f.words|
      ensures k in f.Leads(j) <==> BreaksAfter(f, j) && (k == j + 1 || BranchesTo(f, j, f.start + 4 * k))
    {
      JumpIs(f, j, k);
      hide Body.Jump;
    }
    hide Body.Leads, BreaksAfter, BranchesTo, Body.Valid;
  }

  // An mrs of TPIDRRO_EL0 makes the base, in any register but the zero register.
  predicate Makes(i: Inst, r: nat) {
    i.op == MRS && i.imm == 0xde83 && i.rd == r && r != 31
  }

  predicate Keeps(i: Inst, r: nat) {
    match i.op
    case MRS => i.imm == 0xde83 || i.rd != r
    case BL | BLR => 18 <= r && r != 30 && i.rd != r
    case LDP | LDNP | LDXP => i.rd != r && i.rm != r
    case STNP | STP | STR | STXR | STXP | CBZ | CBNZ | TBZ | TBNZ | VECTOR => true
    case _ => i.rd != r
  }

  lemma StepIs(i: Inst, s: set<nat>, r: nat)
    requires r < 31
    ensures r in Step(Some(i), s) <==> Makes(i, r) || (r in s && Keeps(i, r))
    ensures r in Step(None, s) <==> r in s
    ensures Gens(Some(i), r) <==> Makes(i, r)
    ensures Kills(Some(i), r) <==> !Keeps(i, r)
  {
  }

  // `p` is a way through the function along which register `r` has the base just before its last word: from the entry, where
  // the seed gives it, or from an mrs.
  ghost predicate Holds(f: Body, seed: set<nat>, r: nat, p: seq<nat>) {
    && 0 < |p| && (forall n :: 0 <= n < |p| ==> p[n] < |f.words|)
    && (forall m, n :: 0 <= m < |p| && n == m + 1 < |p| ==> Edge(f, p[m], p[n]))
    && (|| (p[0] == 0 && r in seed && KeptFrom(f, r, p, 0))
        || (|p| >= 2 && f.words[p[0]].Some? && Makes(f.words[p[0]].value, r) && KeptFrom(f, r, p, 1)))
  }

  ghost predicate KeptFrom(f: Body, r: nat, p: seq<nat>, from: nat)
    requires forall n :: 0 <= n < |p| ==> p[n] < |f.words|
  {
    forall n :: from <= n < |p| - 1 && f.words[p[n]].Some? ==> Keeps(f.words[p[n]].value, r)
  }

  ghost predicate HeldAt(f: Body, seed: set<nat>, r: nat, a: nat) {
    exists p :: Holds(f, seed, r, p) && p[|p| - 1] == a
  }

  lemma HoldsIsCarries(f: Body, seed: set<nat>, r: nat, p: seq<nat>)
    requires f.Valid() && r < 31
    ensures Holds(f, seed, r, p) <==> Carries(GraphOf(f), seed, r, p)
  {
    GraphIsValid(f);
    if 0 < |p| && forall n :: 0 <= n < |p| ==> p[n] < |f.words| {
      PathIs(f, p);
      if Path(GraphOf(f), p) {
        KeptIs(f, r, p, 0);
        KeptIs(f, r, p, 1);
      }
      if f.words[p[0]].Some? {
        StepIs(f.words[p[0]].value, {}, r);
      }
      hide Edge, Path, KeptFrom, KeptBetween, Makes, Body.Valid;
    }
  }

  lemma PathIs(f: Body, p: seq<nat>)
    requires f.Valid() && 0 < |p| && forall n :: 0 <= n < |p| ==> p[n] < |f.words|
    ensures Path(GraphOf(f), p) <==> forall m, n :: 0 <= m < |p| && n == m + 1 < |p| ==> Edge(f, p[m], p[n])
  {
    GraphIsValid(f);
    forall m, n | 0 <= m < |p| && n == m + 1 < |p| ensures p[n] in GraphOf(f).next[p[m]] <==> Edge(f, p[m], p[n]) {
      EdgesAre(f, p[m], p[n]);
      hide Edge, Body.Next;
    }
    hide Edge, Body.Next, Body.Valid, Graph.Valid;
  }

  lemma KeptIs(f: Body, r: nat, p: seq<nat>, from: nat)
    requires f.Valid() && r < 31 && Path(GraphOf(f), p)
    ensures KeptFrom(f, r, p, from) <==> KeptBetween(GraphOf(f), r, p, from)
  {
    assert forall n :: 0 <= n < |p| ==> p[n] < |f.words|;
    hide Path, Body.Valid;
    forall n | from <= n < |p| - 1 && f.words[p[n]].Some?
      ensures Keeps(f.words[p[n]].value, r) <==> !Kills(GraphOf(f).words[p[n]], r)
    {
      StepIs(f.words[p[n]].value, {}, r);
    }
  }

  // What the analysis tracks is what some way through the function holds.
  lemma TrackedIsHeld(f: Body, seed: set<nat>, r: nat, a: nat)
    requires f.Valid() && r < 31
    ensures Reaches(GraphOf(f), seed, r, a) <==> HeldAt(f, seed, r, a)
  {
    hide Holds, Carries, GraphOf, Body.Valid;
    forall p ensures Holds(f, seed, r, p) <==> Carries(GraphOf(f), seed, r, p) {
      HoldsIsCarries(f, seed, r, p);
    }
  }

  // A run of words lets `r` through when an mrs among them makes it and the rest keep it, or they are entered with it and all
  // keep it.
  lemma {:induction false} FlowIs(g: Graph, l: nat, a: nat, s: set<nat>, r: nat)
    requires l <= a <= |g.words|
    ensures r in Flow(g, l, a, s) <==>
            || (r in s && forall k :: l <= k < a ==> !Kills(g.words[k], r))
            || exists j :: l <= j < a && Gens(g.words[j], r) && forall k :: j < k < a ==> !Kills(g.words[k], r)
    decreases a - l
  {
    if l < a {
      FlowSnoc(g, l, a - 1, s);
      FlowIs(g, l, a - 1, s, r);
      StepMeaning(g.words[a - 1], Flow(g, l, a - 1, s), r);
      hide Flow, Step, Gens, Kills;
      if r in s && forall k :: l <= k < a ==> !Kills(g.words[k], r) {
        assert forall k :: l <= k < a - 1 ==> !Kills(g.words[k], r);
      }
    }
  }

  // Along the words of [l, e), in order, `r` comes to have the base: an mrs among them makes it, or it is held before them, and
  // the words after that keep it.
  predicate Straight(f: Body, held: bool, r: nat, l: nat, e: nat)
    requires e <= |f.words|
  {
    || (held && KeptOver(f, r, l, e))
    || exists j :: l <= j < e && f.words[j].Some? && Makes(f.words[j].value, r) && KeptOver(f, r, j + 1, e)
  }

  predicate KeptOver(f: Body, r: nat, l: nat, e: nat)
    requires e <= |f.words|
  {
    forall k :: l <= k < e && f.words[k].Some? ==> Keeps(f.words[k].value, r)
  }

  lemma StraightIs(f: Body, s: set<nat>, r: nat, l: nat, e: nat)
    requires f.Valid() && r < 31 && l <= e <= |f.words|
    ensures r in Flow(GraphOf(f), l, e, s) <==> Straight(f, r in s, r, l, e)
  {
    var g := GraphOf(f);
    FlowIs(g, l, e, s, r);
    forall k | 0 <= k < |f.words| && f.words[k].Some?
      ensures Gens(g.words[k], r) <==> Makes(f.words[k].value, r)
      ensures Kills(g.words[k], r) <==> !Keeps(f.words[k].value, r)
    {
      StepIs(f.words[k].value, {}, r);
    }
    hide Makes, Keeps, Body.Valid;
  }

  // The block of a word starts at the last leader not after it.
  lemma {:induction false} BlockOfIs(g: Graph, a: nat, l: nat)
    requires g.Valid() && a < |g.words|
    ensures LeaderOf(g, a) == l <==> l <= a && g.leader[l] && forall k :: l < k <= a ==> !g.leader[k]
    decreases a
  {
    if !g.leader[a] {
      BlockOfIs(g, a - 1, l);
    }
  }

  // What the last word of `x`'s block up to `x` passes on, when the entry is entered with `r` and other blocks with nothing.
  ghost predicate PassesOn(f: Body, held: bool, r: nat, x: nat)
    requires GraphOf(f).Valid() && x < |f.words|
  {
    Straight(f, held && LeaderOf(GraphOf(f), x) == 0, r, LeaderOf(GraphOf(f), x), x + 1)
  }

  lemma PassesOnIs(f: Body, entry: set<nat>, r: nat, x: nat)
    requires f.Valid() && GraphOf(f).Valid() && x < |f.words| && r < 31
    ensures r in After(GraphOf(f), entry, x) <==> PassesOn(f, r in entry, r, x)
    ensures r in Before(GraphOf(f), entry, x) <==>
            Straight(f, r in entry && LeaderOf(GraphOf(f), x) == 0, r, LeaderOf(GraphOf(f), x), x)
  {
    var g := GraphOf(f);
    var l := LeaderOf(g, x);
    var s := if l == 0 then entry else {};
    FlowSnoc(g, l, x, s);
    StraightIs(f, s, r, l, x);
    StraightIs(f, s, r, l, x + 1);
    hide GraphOf, Straight, Flow, Step, Graph.Valid;
  }

  // Certain at a word: the base comes straight from an mrs of the word's own block, or, in the first block, from a seed that
  // every edge back to the entry passes on.
  lemma CertainIs(f: Body, seed: set<nat>, a: nat, r: nat)
    requires f.Valid() && GraphOf(f).Valid() && a < |f.words| && r < 31
    ensures r in Certain(GraphOf(f), seed, a) <==>
            var l := LeaderOf(GraphOf(f), a);
            var given := l == 0 && r in seed && forall x: nat :: x < |f.words| && Edge(f, x, 0) ==> PassesOn(f, true, r, x);
            Straight(f, given, r, l, a)
  {
    var g := GraphOf(f);
    PassesOnIs(f, MustEntry(g, seed), r, a);
    forall x: nat | x < |f.words|
      ensures 0 in g.next[x] <==> Edge(f, x, 0)
      ensures r in After(g, {r}, x) <==> PassesOn(f, true, r, x)
    {
      EdgesAre(f, x, 0);
      PassesOnIs(f, {r}, r, x);
    }
    hide Straight, PassesOn, After, Edge, Body.Valid, Graph.Valid, Body.Next;
    assert EntryKeeps(g, r) <==> forall x: nat :: x < |f.words| && Edge(f, x, 0) ==> PassesOn(f, true, r, x);
  }

  // A word of another block than the first that leads back to the entry without all of the seed.
  ghost predicate CutsSeed(f: Body, seed: set<nat>, x: nat)
    requires GraphOf(f).Valid() && x < |f.words|
  {
    Edge(f, x, 0) && LeaderOf(GraphOf(f), x) != 0 && exists q :: q in seed && !PassesOn(f, false, q, x)
  }

  // What a call is first recorded with: the same, but only the last word that cuts the seed has been run before the entry.
  lemma ForemostIs(f: Body, seed: set<nat>, a: nat, r: nat)
    requires f.Valid() && GraphOf(f).Valid() && a < |f.words| && r < 31 && forall q :: q in seed ==> q < 31
    ensures r in Foremost(GraphOf(f), seed, a) <==>
            var l := LeaderOf(GraphOf(f), a);
            Straight(f, l == 0 && r in seed && PassedFirst(f, seed, r, |f.words|), r, l, a)
  {
    var g := GraphOf(f);
    PassesOnIs(f, FirstEntry(g, seed, |g.words|), r, a);
    FirstIs(f, seed, r, |f.words|);
    hide Straight, PassesOn, After, Edge, Body.Valid, Graph.Valid, Body.Next;
  }

  ghost predicate PassedFirst(f: Body, seed: set<nat>, r: nat, n: nat)
    requires GraphOf(f).Valid() && n <= |f.words|
  {
    forall x: nat :: x < n && CutsSeed(f, seed, x) && (forall y :: x < y < n ==> !CutsSeed(f, seed, y)) ==>
      PassesOn(f, false, r, x)
  }

  lemma {:induction false} FirstIs(f: Body, seed: set<nat>, r: nat, n: nat)
    requires f.Valid() && GraphOf(f).Valid() && n <= |f.words| && r < 31 && forall q :: q in seed ==> q < 31
    ensures r in FirstEntry(GraphOf(f), seed, n) <==> r in seed && PassedFirst(f, seed, r, n)
  {
    hide GraphOf, Body.Valid, Graph.Valid, Cuts, After, CutsSeed, PassesOn, PassedFirst;
    if n == 0 {
      NothingPassedFirst(f, seed, r);
    } else {
      FirstIs(f, seed, r, n - 1);
      CutsAre(f, seed, n - 1);
      PassesOnIs(f, {}, r, n - 1);
      PassedFirstStep(f, seed, r, n - 1);
    }
  }

  lemma NothingPassedFirst(f: Body, seed: set<nat>, r: nat)
    requires GraphOf(f).Valid()
    ensures PassedFirst(f, seed, r, 0)
  {
  }

  lemma PassedFirstStep(f: Body, seed: set<nat>, r: nat, x: nat)
    requires GraphOf(f).Valid() && x < |f.words|
    ensures PassedFirst(f, seed, r, x + 1) <==>
            if CutsSeed(f, seed, x) then PassesOn(f, false, r, x) else PassedFirst(f, seed, r, x)
  {
    hide CutsSeed, PassesOn, GraphOf, Graph.Valid;
    if CutsSeed(f, seed, x) && PassesOn(f, false, r, x) {
      assert PassedFirst(f, seed, r, x + 1);
    }
  }

  lemma CutsAre(f: Body, seed: set<nat>, x: nat)
    requires f.Valid() && GraphOf(f).Valid() && x < |f.words| && forall q :: q in seed ==> q < 31
    ensures Cuts(GraphOf(f), seed, x) <==> CutsSeed(f, seed, x)
  {
    EdgesAre(f, x, 0);
    forall q | q in seed ensures q in After(GraphOf(f), {}, x) <==> PassesOn(f, false, q, x) {
      PassesOnIs(f, {}, q, x);
    }
    hide PassesOn, After, Edge, Body.Valid, Graph.Valid, Body.Next;
  }

  predicate OffsetAccess(i: Inst, r: nat) {
    (i.op == LDR || i.op == STR) && i.rn == r && i.immediateOffset
  }

  // The lines: an access at a fixed offset that is not 0x358 where the base is held on some way there, and any other use of a
  // register as an address where it is certain to hold the base.
  ghost predicate LineAt(f: Body, seed: set<nat>, line: Line) {
    && GraphOf(f).Valid() && line.at < |f.words| && line.reg < 31 && f.words[line.at].Some?
    && match line
       case OffList(a, r, offset) =>
         && OffsetAccess(f.words[a].value, r) && HeldAt(f, seed, r, a)
         && offset == f.words[a].value.offset % 0x1_0000_0000_0000_0000 && offset != 0x358
       case Unmodelled(a, r, op) =>
         && f.words[a].value.op == op != MRS && !OffsetAccess(f.words[a].value, r)
         && (f.words[a].value.rn == r || f.words[a].value.rm == r) && r in Certain(GraphOf(f), seed, a)
  }

  lemma LinesAre(f: Body, seed: set<nat>, line: Line)
    requires f.Valid()
    ensures Reported(GraphOf(f), seed, line) <==> LineAt(f, seed, line)
  {
    GraphIsValid(f);
    if line.at < |f.words| && line.reg < 31 {
      TrackedIsHeld(f, seed, line.reg, line.at);
      if line.reg in Certain(GraphOf(f), seed, line.at) {
        CertainIsTracked(GraphOf(f), seed, line.at, line.reg);
      }
    }
    hide HeldAt, Reaches, Certain, Body.Valid, Graph.Valid;
  }

  // A call that leads to a function of the image: a bl to its start.
  predicate CallTo(image: Image, f: Body, a: nat, t: nat) {
    && a < |f.words| && f.words[a].Some? && f.words[a].value.op == BL && t in image.functionStarts
    && t == (f.start + 4 * a + f.words[a].value.offset) % 0x1_0000_0000_0000_0000
  }

  lemma CallsAre(image: Image, f: Body, a: nat, t: nat)
    requires a < |f.words|
    ensures IsCallAt(GraphOf(f), a) && CalleeOf(f, image, a) == Some(t) <==> CallTo(image, f, a, t)
  {
  }
}
