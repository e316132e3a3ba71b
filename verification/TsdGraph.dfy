/** The dataflow theory of the TPIDRRO_EL0 scan, over the instruction-level graph of one function: what "a path brings
  * the base here" means, what the must pass is certain of, and how the two are related.
  */
module TsdGraph {
  import opened Wrappers
  import opened TsdInstructions

  // Word k has the edges next[k]; leader[k] says that a block starts at it.
  datatype Graph = Graph(words: seq<Option<Inst>>, next: seq<set<nat>>, leader: seq<bool>)
  {
    ghost predicate Valid() {
      && 0 < |words| == |next| == |leader|
      && leader[0]
      && (forall k, a :: 0 <= k < |words| && a in next[k] ==> a < |words|)
      // A word that starts no block is entered exactly from the word before it, which goes nowhere else.
      && (forall k, a :: 0 <= k < |words| && a in next[k] && !leader[a] ==> a == k + 1)
      && (forall k :: 0 < k < |words| && !leader[k] ==> next[k - 1] == {k})
    }
  }

  // The state after the words of [a, e), in address order.
  function Flow(g: Graph, a: nat, e: nat, s: set<nat>): set<nat>
    requires e <= |g.words|
    decreases if a < e then e - a else 0
  {
    if a >= e then s else Flow(g, a + 1, e, Step(g.words[a], s))
  }

  ghost predicate Path(g: Graph, p: seq<nat>) {
    && g.Valid() && 0 < |p|
    && (forall k :: 0 <= k < |p| ==> p[k] < |g.words|)
    && (forall j, k :: 0 <= j < |p| && k == j + 1 < |p| ==> p[k] in g.next[p[j]])
  }

  ghost predicate KeptBetween(g: Graph, r: nat, p: seq<nat>, from: nat)
    requires Path(g, p)
  {
    forall k :: from <= k < |p| - 1 ==> !Kills(g.words[p[k]], r)
  }

  // `p` brings the base to its last word in `r`: from an mrs it starts at, or from the entry.
  ghost predicate Carries(g: Graph, seed: set<nat>, r: nat, p: seq<nat>) {
    && Path(g, p)
    && (|| (p[0] == 0 && r in seed && KeptBetween(g, r, p, 0))
        || (|p| >= 2 && Gens(g.words[p[0]], r) && KeptBetween(g, r, p, 1)))
  }

  // Some path brings the base to just before word `a` in `r`.
  ghost predicate Reaches(g: Graph, seed: set<nat>, r: nat, a: nat) {
    exists p :: Carries(g, seed, r, p) && p[|p| - 1] == a
  }

  // The must pass. It starts every block but the entry block empty, so what it is certain of at `a` comes from the
  // entry block's start or from an mrs of `a`'s own block.
  ghost function LeaderOf(g: Graph, a: nat): (l: nat)
    requires g.Valid() && a < |g.words|
    ensures l <= a && g.leader[l]
  {
    if g.leader[a] then a else LeaderOf(g, a - 1)
  }

  ghost function Before(g: Graph, entry: set<nat>, a: nat): set<nat>
    requires g.Valid() && a < |g.words|
  {
    Flow(g, LeaderOf(g, a), a, if LeaderOf(g, a) == 0 then entry else {})
  }

  ghost function After(g: Graph, entry: set<nat>, a: nat): set<nat>
    requires g.Valid() && a < |g.words|
  {
    Step(g.words[a], Before(g, entry, a))
  }

  // Every edge back to the entry hands `r` on.
  ghost predicate EntryKeeps(g: Graph, r: nat)
    requires g.Valid()
  {
    forall x :: 0 <= x < |g.words| && 0 in g.next[x] ==> r in After(g, {r}, x)
  }

  ghost function MustEntry(g: Graph, seed: set<nat>): set<nat>
    requires g.Valid()
  {
    set r | r in seed && EntryKeeps(g, r)
  }

  ghost function Certain(g: Graph, seed: set<nat>, a: nat): set<nat>
    requires g.Valid() && a < |g.words|
  {
    Before(g, MustEntry(g, seed), a)
  }

  // A block other than the entry's whose edge to word 0 does not hand on all of the seed.
  ghost predicate Cuts(g: Graph, seed: set<nat>, x: nat)
    requires g.Valid() && x < |g.words|
  {
    0 in g.next[x] && LeaderOf(g, x) != 0 && !(seed <= After(g, {}, x))
  }

  // What the entry block is first run with. The worklist takes the blocks last first, so the last of the first n words that
  // cuts the seed does so before any other.
  ghost function FirstEntry(g: Graph, seed: set<nat>, n: nat): (first: set<nat>)
    requires g.Valid() && n <= |g.words|
    ensures first <= seed
  {
    if n == 0 then seed
    else if Cuts(g, seed, n - 1) then seed * After(g, {}, n - 1)
    else FirstEntry(g, seed, n - 1)
  }

  // The most a call at `a` is ever recorded with.
  ghost function Foremost(g: Graph, seed: set<nat>, a: nat): set<nat>
    requires g.Valid() && a < |g.words|
  {
    Before(g, FirstEntry(g, seed, |g.words|), a)
  }

  lemma {:induction false} MustEntryIsFirst(g: Graph, seed: set<nat>, n: nat)
    requires g.Valid() && n <= |g.words|
    ensures MustEntry(g, seed) <= FirstEntry(g, seed, n)
  {
    if n > 0 {
      var x := n - 1;
      if Cuts(g, seed, x) {
        forall r | r in MustEntry(g, seed) ensures r in After(g, {}, x) {
          assert EntryKeeps(g, r);
        }
      } else {
        MustEntryIsFirst(g, seed, x);
      }
    }
  }

  // The state a run along `p` leaves just before its last word.
  ghost function Along(g: Graph, seed: set<nat>, p: seq<nat>): set<nat>
    requires Path(g, p)
  {
    if |p| == 1 then seed else
      PathPrefix(g, p);
      Step(g.words[p[|p| - 2]], Along(g, seed, p[..|p| - 1]))
  }

  lemma PathPrefix(g: Graph, p: seq<nat>)
    requires Path(g, p) && 2 <= |p|
    ensures Path(g, p[..|p| - 1]) && p[|p| - 1] in g.next[p[|p| - 2]]
  {
    var j, k := |p| - 2, |p| - 1;
    assert k == j + 1 && p[k] in g.next[p[j]];
  }

  lemma {:induction false} FlowSnoc(g: Graph, a: nat, e: nat, s: set<nat>)
    requires a <= e < |g.words|
    ensures Flow(g, a, e + 1, s) == Step(g.words[e], Flow(g, a, e, s))
    decreases e - a
  {
    if a < e {
      FlowSnoc(g, a + 1, e, Step(g.words[a], s));
    }
  }

  // Registers do not influence each other.
  lemma {:induction false} FlowPointwise(g: Graph, a: nat, e: nat, s: set<nat>, t: set<nat>, r: nat)
    requires e <= |g.words| && (r in s ==> r in t)
    ensures r in Flow(g, a, e, s) ==> r in Flow(g, a, e, t)
    decreases if a < e then e - a else 0
  {
    if a < e {
      StepMeaning(g.words[a], s, r);
      StepMeaning(g.words[a], t, r);
      FlowPointwise(g, a + 1, e, Step(g.words[a], s), Step(g.words[a], t), r);
    }
  }

  lemma BeforePointwise(g: Graph, s: set<nat>, t: set<nat>, a: nat, r: nat)
    requires g.Valid() && a < |g.words| && (r in s ==> r in t)
    ensures r in Before(g, s, a) ==> r in Before(g, t, a)
    ensures r in After(g, s, a) ==> r in After(g, t, a)
  {
    var l := LeaderOf(g, a);
    FlowPointwise(g, l, a, if l == 0 then s else {}, if l == 0 then t else {}, r);
    StepMeaning(g.words[a], Before(g, s, a), r);
    StepMeaning(g.words[a], Before(g, t, a), r);
  }

  lemma BeforeUnfold(g: Graph, entry: set<nat>, a: nat)
    requires g.Valid() && a < |g.words|
    ensures g.leader[a] ==> Before(g, entry, a) == if a == 0 then entry else {}
    ensures !g.leader[a] ==> a > 0 && Before(g, entry, a) == After(g, entry, a - 1)
  {
    if !g.leader[a] {
      FlowSnoc(g, LeaderOf(g, a - 1), a - 1, if LeaderOf(g, a) == 0 then entry else {});
    }
  }

  // What a state carries to `a`, one instruction carries over every edge out of `a`.
  lemma ReachStep(g: Graph, seed: set<nat>, r: nat, a: nat, b: nat)
    requires g.Valid() && a < |g.words| && b in g.next[a]
    requires Gens(g.words[a], r) || (Reaches(g, seed, r, a) && !Kills(g.words[a], r))
    ensures Reaches(g, seed, r, b)
  {
    if Gens(g.words[a], r) {
      assert Carries(g, seed, r, [a, b]);
    } else {
      var p :| Carries(g, seed, r, p) && p[|p| - 1] == a;
      CarriesOn(g, seed, r, p, b);
    }
  }

  lemma CarriesOn(g: Graph, seed: set<nat>, r: nat, p: seq<nat>, b: nat)
    requires Carries(g, seed, r, p) && b in g.next[p[|p| - 1]] && !Kills(g.words[p[|p| - 1]], r)
    ensures Carries(g, seed, r, p + [b])
  {
    var q := p + [b];
    assert Path(g, q);
    forall k | 0 <= k < |q| - 1 ensures q[k] == p[k] {}
  }

  // The other way: what a path carries past its last edge was made there, or carried there and kept.
  lemma CarriesUnfold(g: Graph, seed: set<nat>, r: nat, p: seq<nat>)
    requires Carries(g, seed, r, p) && 2 <= |p|
    ensures || Gens(g.words[p[|p| - 2]], r)
            || (!Kills(g.words[p[|p| - 2]], r) && Carries(g, seed, r, p[..|p| - 1]))
  {
    PathPrefix(g, p);
  }

  // Soundness of the must pass: what it is certain of just before an instruction holds on every path from the entry.
  lemma {:induction false} MustIsSound(g: Graph, seed: set<nat>, p: seq<nat>, r: nat)
    requires Path(g, p) && p[0] == 0 && r in Certain(g, seed, p[|p| - 1])
    ensures r in Along(g, seed, p)
    decreases |p|
  {
    var a := p[|p| - 1];
    BeforeUnfold(g, MustEntry(g, seed), a);
    if |p| > 1 {
      var x := p[|p| - 2];
      PathPrefix(g, p);
      CertainBack(g, seed, x, a, r);
      StepMeaning(g.words[x], Certain(g, seed, x), r);
      StepMeaning(g.words[x], Along(g, seed, p[..|p| - 1]), r);
      if r in Certain(g, seed, x) {
        MustIsSound(g, seed, p[..|p| - 1], r);
      }
    }
  }

  // The must pass is closed under the edges, backwards.
  lemma CertainBack(g: Graph, seed: set<nat>, x: nat, a: nat, r: nat)
    requires g.Valid() && x < |g.words| && a in g.next[x] && r in Certain(g, seed, a)
    ensures r in After(g, MustEntry(g, seed), x)
  {
    BeforeUnfold(g, MustEntry(g, seed), a);
    if g.leader[a] {
      assert a == 0 && EntryKeeps(g, r);
      BeforePointwise(g, {r}, MustEntry(g, seed), x, r);
    }
  }

  // At every instruction the certain set is contained in the tracked set.
  lemma {:induction false} CertainIsTracked(g: Graph, seed: set<nat>, a: nat, r: nat)
    requires g.Valid() && a < |g.words| && r in Certain(g, seed, a)
    ensures Reaches(g, seed, r, a)
    decreases a
  {
    BeforeUnfold(g, MustEntry(g, seed), a);
    if g.leader[a] {
      assert Carries(g, seed, r, [a]);
    } else {
      StepMeaning(g.words[a - 1], Certain(g, seed, a - 1), r);
      if r in Certain(g, seed, a - 1) {
        CertainIsTracked(g, seed, a - 1, r);
      }
      ReachStep(g, seed, r, a - 1, a);
    }
  }

  // A larger seed loses nothing.
  lemma ReachesMonotone(g: Graph, s: set<nat>, t: set<nat>, r: nat, a: nat)
    requires s <= t && Reaches(g, s, r, a)
    ensures Reaches(g, t, r, a)
  {
    var p :| Carries(g, s, r, p) && p[|p| - 1] == a;
    assert Carries(g, t, r, p);
  }

  lemma CertainMonotone(g: Graph, s: set<nat>, t: set<nat>, r: nat, a: nat)
    requires g.Valid() && a < |g.words| && s <= t && r in Certain(g, s, a)
    ensures r in Certain(g, t, a)
  {
    BeforePointwise(g, MustEntry(g, s), MustEntry(g, t), a, r);
  }

  // What cuts a seed cuts every larger one, so the larger is cut no earlier in the address order and loses no more.
  lemma {:induction false} FirstMonotone(g: Graph, s: set<nat>, t: set<nat>, n: nat)
    requires g.Valid() && n <= |g.words| && s <= t
    ensures FirstEntry(g, s, n) <= FirstEntry(g, t, n)
  {
    if n > 0 && !Cuts(g, t, n - 1) {
      FirstMonotone(g, s, t, n - 1);
    }
  }

  lemma ForemostMonotone(g: Graph, s: set<nat>, t: set<nat>, a: nat)
    requires g.Valid() && a < |g.words| && s <= t
    ensures Foremost(g, s, a) <= Foremost(g, t, a)
  {
    FirstMonotone(g, s, t, |g.words|);
    forall r | r in Foremost(g, s, a) ensures r in Foremost(g, t, a) {
      BeforePointwise(g, FirstEntry(g, s, |g.words|), FirstEntry(g, t, |g.words|), a, r);
    }
  }

  // What the first run of a block has at `a`, some path brings there.
  lemma {:induction false} ForemostIsTracked(g: Graph, seed: set<nat>, a: nat, r: nat)
    requires g.Valid() && a < |g.words| && r in Foremost(g, seed, a)
    ensures Reaches(g, seed, r, a)
    decreases a
  {
    BeforeUnfold(g, FirstEntry(g, seed, |g.words|), a);
    if g.leader[a] {
      assert Carries(g, seed, r, [a]);
    } else {
      StepMeaning(g.words[a - 1], Foremost(g, seed, a - 1), r);
      if r in Foremost(g, seed, a - 1) {
        ForemostIsTracked(g, seed, a - 1, r);
      }
      ReachStep(g, seed, r, a - 1, a);
    }
  }

  // At least what the must pass ends with, and outside the entry block just that.
  lemma ForemostIsCertain(g: Graph, seed: set<nat>, a: nat)
    requires g.Valid() && a < |g.words|
    ensures Certain(g, seed, a) <= Foremost(g, seed, a)
    ensures LeaderOf(g, a) != 0 ==> Foremost(g, seed, a) == Certain(g, seed, a)
  {
    MustEntryIsFirst(g, seed, |g.words|);
    forall r | r in Certain(g, seed, a) ensures r in Foremost(g, seed, a) {
      BeforePointwise(g, MustEntry(g, seed), FirstEntry(g, seed, |g.words|), a, r);
    }
  }
}
