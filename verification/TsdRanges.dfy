/** The ranges of code the scan takes for functions: from each start to the next, and from the last of each section to the
  * section's end.
  */
module TsdRanges {
  import opened Ordering

  datatype Section = Section(address: nat, size: nat)
  {
    predicate Holds(a: nat) {
      address <= a < address + size
    }
  }

  datatype Range = Range(start: nat, end: nat)

  // Some section has an instruction there.
  predicate HasCode(sections: seq<Section>, a: nat) {
    exists i :: 0 <= i < |sections| && sections[i].address <= a && a + 4 <= sections[i].address + sections[i].size
  }

  ghost predicate Apart(sections: seq<Section>) {
    forall i, j, a: nat :: 0 <= i < |sections| && 0 <= j < |sections| && sections[i].Holds(a) && sections[j].Holds(a) ==> i == j
  }

  // From a start that has code to the next start.
  ghost predicate IsOwn(functions: set<nat>, sections: seq<Section>, r: Range) {
    && r.start in functions && HasCode(sections, r.start) && r.end in functions && r.start < r.end
    && forall s :: s in functions && r.start < s ==> r.end <= s
  }

  // From the last such start of a section to its end; a start of 0 counts for none.
  ghost predicate IsTail(functions: set<nat>, sections: seq<Section>, i: nat, r: Range) {
    && i < |sections| && r.end == sections[i].address + sections[i].size && r.start != 0 && sections[i].Holds(r.start)
    && (exists own :: IsOwn(functions, sections, own) && own.start == r.start)
    && (forall own :: IsOwn(functions, sections, own) && sections[i].Holds(own.start) ==> own.start <= r.start)
  }

  ghost predicate AreRanges(functions: set<nat>, sections: seq<Section>, ranges: seq<Range>) {
    forall r :: r in ranges <==> IsOwn(functions, sections, r) || exists i :: IsTail(functions, sections, i, r)
  }

  // The own ranges of the first n starts, in order.
  ghost predicate OwnOf(functions: set<nat>, sections: seq<Section>, starts: seq<nat>, n: nat, ranges: seq<Range>) {
    && (forall r :: r in ranges <==> IsOwn(functions, sections, r) && r.start in starts[..if n <= |starts| then n else |starts|])
    && (forall i, j :: 0 <= i < j < |ranges| ==> ranges[i].start < ranges[j].start)
  }

  method OwnRanges(functions: set<nat>, sections: seq<Section>) returns (ranges: seq<Range>)
    ensures AreOwn(functions, sections, ranges)
  {
    hide IsOwn, OwnOf;
    var starts := Sorted(functions);
    ranges := [];
    NothingOwn(functions, sections, starts);
    for i := 0 to |starts|
      invariant OwnOf(functions, sections, starts, i, ranges)
    {
      OwnMore(functions, sections, starts, i, ranges);
      if i + 1 < |starts| && HasCode(sections, starts[i]) {
        ranges := ranges + [Range(starts[i], starts[i + 1])];
      }
    }
    AllOwn(functions, sections, starts, ranges);
  }

  lemma NothingOwn(functions: set<nat>, sections: seq<Section>, starts: seq<nat>)
    ensures OwnOf(functions, sections, starts, 0, [])
  {
  }

  lemma AllOwn(functions: set<nat>, sections: seq<Section>, starts: seq<nat>, ranges: seq<Range>)
    requires OwnOf(functions, sections, starts, |starts|, ranges) && forall s :: s in starts <==> s in functions
    ensures AreOwn(functions, sections, ranges)
  {
    assert starts[..|starts|] == starts;
  }

  lemma OwnMore(functions: set<nat>, sections: seq<Section>, starts: seq<nat>, i: nat, ranges: seq<Range>)
    requires Increasing(starts) && (forall s :: s in starts <==> s in functions) && i < |starts|
    requires OwnOf(functions, sections, starts, i, ranges)
    ensures OwnOf(functions, sections, starts, i + 1,
                  if i + 1 < |starts| && HasCode(sections, starts[i]) then ranges + [Range(starts[i], starts[i + 1])] else ranges)
  {
    assert starts[..i + 1] == starts[..i] + [starts[i]];
    forall s | s in starts[..i] ensures s < starts[i] {}
    forall r ensures IsOwn(functions, sections, r) && r.start == starts[i] <==>
                     i + 1 < |starts| && HasCode(sections, starts[i]) && r == Range(starts[i], starts[i + 1])
    {
      NextStart(functions, sections, starts, i, r);
    }
    forall k | 0 <= k < |ranges| ensures ranges[k].start < starts[i] {
      assert ranges[k] in ranges;
    }
    hide IsOwn, HasCode;
    assert forall r :: r in ranges + [Range(starts[i], if i + 1 < |starts| then starts[i + 1] else 0)] <==>
      r in ranges || r == Range(starts[i], if i + 1 < |starts| then starts[i + 1] else 0);
  }

  lemma NextStart(functions: set<nat>, sections: seq<Section>, starts: seq<nat>, i: nat, r: Range)
    requires Increasing(starts) && (forall s :: s in starts <==> s in functions) && i < |starts|
    ensures IsOwn(functions, sections, r) && r.start == starts[i] <==>
            i + 1 < |starts| && HasCode(sections, starts[i]) && r == Range(starts[i], starts[i + 1])
  {
    hide HasCode;
    assert starts[i] in starts;
    if i + 1 < |starts| {
      assert starts[i + 1] in starts;
    }
    if IsOwn(functions, sections, r) && r.start == starts[i] {
      var j :| 0 <= j < |starts| && starts[j] == r.end;
      assert j > i;
    }
  }


  ghost predicate AreOwn(functions: set<nat>, sections: seq<Section>, own: seq<Range>) {
    && (forall r :: r in own <==> IsOwn(functions, sections, r))
    && (forall i, j :: 0 <= i < j < |own| ==> own[i].start < own[j].start)
  }

  // The tails of the first n sections.
  ghost predicate AreTails(functions: set<nat>, sections: seq<Section>, tails: seq<Range>, n: nat) {
    forall r :: r in tails <==> exists i: nat :: i < n && IsTail(functions, sections, i, r)
  }

  // The functions' ranges, and for each section one more from its last start to its end.
  method FunctionRanges(functions: set<nat>, sections: seq<Section>) returns (ranges: seq<Range>)
    requires Apart(sections)
    ensures AreRanges(functions, sections, ranges)
  {
    ranges := OwnRanges(functions, sections);
    ghost var own := ranges;
    ghost var tails: seq<Range> := [];
    assert own + tails == own;
    for n := 0 to |sections|
      invariant ranges == own + tails && AreTails(functions, sections, tails, n)
    {
      var last := LastIn(sections[n], ranges);
      ghost var before := tails;
      if last != 0 {
        var tail := Range(last, sections[n].address + sections[n].size);
        assert ranges + [tail] == own + (tails + [tail]);
        ranges := ranges + [tail];
        tails := tails + [tail];
      }
      TailAdded(functions, sections, own, before, n, last);
    }
  }

  // The start of the last range of the list that starts in the section, or 0.
  method LastIn(section: Section, ranges: seq<Range>) returns (last: nat)
    ensures IsLastIn(section, ranges, last)
  {
    last := 0;
    for k := 0 to |ranges|
      invariant IsLastIn(section, ranges[..k], last)
    {
      if section.Holds(ranges[k].start) {
        last := ranges[k].start;
      }
      LastMore(section, ranges, k, last);
    }
    assert ranges[..|ranges|] == ranges;
  }

  ghost predicate IsLastIn(section: Section, ranges: seq<Range>, last: nat) {
    || (last == 0 && forall k :: 0 <= k < |ranges| ==> !section.Holds(ranges[k].start))
    || exists k :: 0 <= k < |ranges| && LastAt(section, ranges, k) && ranges[k].start == last
  }

  ghost predicate LastAt(section: Section, ranges: seq<Range>, k: nat) {
    k < |ranges| && section.Holds(ranges[k].start) && forall m :: k < m < |ranges| ==> !section.Holds(ranges[m].start)
  }

  lemma LastMore(section: Section, ranges: seq<Range>, k: nat, last: nat)
    requires k < |ranges|
    requires if section.Holds(ranges[k].start) then last == ranges[k].start else IsLastIn(section, ranges[..k], last)
    ensures IsLastIn(section, ranges[..k + 1], last)
  {
    var more := ranges[..k + 1];
    if section.Holds(ranges[k].start) {
      assert LastAt(section, more, k);
    } else if j :| 0 <= j < k && LastAt(section, ranges[..k], j) && ranges[..k][j].start == last {
      assert LastAt(section, more, j);
    }
  }

  lemma TailAdded(functions: set<nat>, sections: seq<Section>, own: seq<Range>, tails: seq<Range>, n: nat, last: nat)
    requires Apart(sections) && n < |sections| && AreOwn(functions, sections, own) && AreTails(functions, sections, tails, n)
    requires IsLastIn(sections[n], own + tails, last)
    ensures AreTails(functions, sections,
                     if last != 0 then tails + [Range(last, sections[n].address + sections[n].size)] else tails, n + 1)
  {
    forall r | r in tails ensures !sections[n].Holds(r.start) {
      var i: nat :| i < n && IsTail(functions, sections, i, r);
    }
    LastIsOwn(sections[n], own, tails, last);
    var tail := Range(last, sections[n].address + sections[n].size);
    forall r ensures IsTail(functions, sections, n, r) <==> last != 0 && r == tail {
      OnlyTail(functions, sections, own, n, last, r);
    }
    hide IsTail, IsOwn, AreOwn, IsLastIn;
    forall r ensures (exists i: nat :: i < n + 1 && IsTail(functions, sections, i, r)) <==>
                     r in tails || IsTail(functions, sections, n, r) {}
    assert forall r :: r in tails + [tail] <==> r in tails || r == tail;
  }

  // The last of the list that starts in a section no tail starts in is a function's own.
  lemma LastIsOwn(section: Section, own: seq<Range>, tails: seq<Range>, last: nat)
    requires IsLastIn(section, own + tails, last) && forall r :: r in tails ==> !section.Holds(r.start)
    ensures IsLastIn(section, own, last)
  {
    var all := own + tails;
    forall k | 0 <= k < |own| ensures all[k] == own[k] {}
    forall k | |own| <= k < |all| ensures !section.Holds(all[k].start) {
      assert tails[k - |own|] in tails;
    }
    if k :| 0 <= k < |all| && LastAt(section, all, k) && all[k].start == last {
      assert LastAt(section, own, k);
    }
  }

  lemma OnlyTail(functions: set<nat>, sections: seq<Section>, own: seq<Range>, n: nat, last: nat, r: Range)
    requires n < |sections| && AreOwn(functions, sections, own) && IsLastIn(sections[n], own, last)
    ensures IsTail(functions, sections, n, r) <==>
            last != 0 && r == Range(last, sections[n].address + sections[n].size)
  {
    hide IsOwn;
    if IsTail(functions, sections, n, r) {
      var o :| IsOwn(functions, sections, o) && o.start == r.start;
      var j :| 0 <= j < |own| && own[j] == o;
      var k :| 0 <= k < |own| && LastAt(sections[n], own, k) && own[k].start == last;
      assert own[k] in own;
      assert j <= k;
    }
    if last != 0 {
      var k :| 0 <= k < |own| && LastAt(sections[n], own, k) && own[k].start == last;
      assert own[k] in own;
      forall o | IsOwn(functions, sections, o) && sections[n].Holds(o.start) ensures o.start <= last {
        var j :| 0 <= j < |own| && own[j] == o;
        assert j <= k;
      }
    }
  }

  // --- which functions are scanned ---

  ghost predicate Scanned(ranges: seq<Range>, start: nat) {
    exists r :: r in ranges && r.start == start
  }

  // A function is scanned exactly where it has code and another comes after it: never the last of an image.
  lemma ScannedExactly(functions: set<nat>, sections: seq<Section>, ranges: seq<Range>, start: nat)
    requires AreRanges(functions, sections, ranges)
    ensures Scanned(ranges, start) <==>
            start in functions && HasCode(sections, start) && exists s :: s in functions && start < s
  {
    if start in functions && HasCode(sections, start) && exists s :: s in functions && start < s {
      var next := NextOf(functions, start);
      assert IsOwn(functions, sections, Range(start, next));
      assert Range(start, next) in ranges;
    }
    if Scanned(ranges, start) {
      var r :| r in ranges && r.start == start;
      if !IsOwn(functions, sections, r) {
        var i :| IsTail(functions, sections, i, r);
      }
    }
  }

  lemma NextOf(functions: set<nat>, start: nat) returns (next: nat)
    requires exists s :: s in functions && start < s
    ensures next in functions && start < next && forall s :: s in functions && start < s ==> next <= s
  {
    next :| next in functions && start < next;
    var others := functions;
    while others != {}
      invariant next in functions && start < next && others <= functions
      invariant forall s :: s in functions && s !in others && start < s ==> next <= s
      decreases others
    {
      var s :| s in others;
      others := others - {s};
      if start < s < next {
        next := s;
      }
    }
  }

  // Two functions in one section: the first gets two ranges, up to the second and up to the end, and the second none.
  lemma LastFunctionUnscanned(ranges: seq<Range>)
    requires AreRanges({0x1000, 0x2000}, [Section(0x1000, 0x2000)], ranges)
    ensures forall r :: r in ranges <==> r == Range(0x1000, 0x2000) || r == Range(0x1000, 0x3000)
    ensures !Scanned(ranges, 0x2000)
  {
    var functions, sections := {0x1000, 0x2000}, [Section(0x1000, 0x2000)];
    assert sections[0].Holds(0x1000) && HasCode(sections, 0x1000);
    assert forall r :: IsOwn(functions, sections, r) <==> r == Range(0x1000, 0x2000);
    assert IsOwn(functions, sections, Range(0x1000, 0x2000));
    assert forall i, r :: IsTail(functions, sections, i, r) ==> i == 0 && r == Range(0x1000, 0x3000);
    assert IsTail(functions, sections, 0, Range(0x1000, 0x3000));
  }
}
