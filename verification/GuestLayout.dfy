/** Host segments: which guest segments share one, and the address the host linker is given for each. */
module GuestLayout {
  import opened Wrappers
  import opened GuestData

  // A guest segment emitted into a host segment.
  datatype Entry = Entry(image: nat, segment: Segment, slide: int, host: HostSegment)

  datatype GuestImage = GuestImage(segments: seq<Segment>, slide: int)

  predicate Emits(s: Segment) {
    s.name != "__PAGEZERO" && s.name != "__LINKEDIT" && s.bytes != []
  }

  predicate IsData(s: Segment) {
    Emits(s) && s.name != "__TEXT"
  }

  // Where the last data segment among the first n ends.
  function DataEnd(segments: seq<Segment>, n: nat): Option<nat>
    requires n <= |segments|
  {
    if n == 0 then None
    else if IsData(segments[n - 1]) then Some(segments[n - 1].End())
    else DataEnd(segments, n - 1)
  }

  // Each of the first n data segments starts where the one before it ends.
  predicate Contiguous(segments: seq<Segment>, n: nat)
    requires n <= |segments|
  {
    n == 0 ||
    (Contiguous(segments, n - 1)
     && (IsData(segments[n - 1]) ==> DataEnd(segments, n - 1) in {None, Some(segments[n - 1].vmaddr)}))
  }

  method MergeData(segments: seq<Segment>) returns (merge: bool)
    ensures merge <==> Contiguous(segments, |segments|)
  {
    merge := true;
    var previousEnd, first := 0, true;
    for n := 0 to |segments|
      invariant merge <==> Contiguous(segments, n)
      invariant DataEnd(segments, n) == if first then None else Some(previousEnd)
    {
      var s := segments[n];
      if IsData(s) {
        if !first && s.vmaddr != previousEnd {
          merge := false;
        }
        first, previousEnd := false, s.End();
      }
    }
  }

  // The first twelve characters after the leading underscores.
  function Suffix(name: string): string
    requires 2 <= |name|
  {
    name[2..if |name| < 14 then |name| else 14]
  }

  // The globals of one host segment, in emission order.
  function Section(globals: seq<Global>, h: HostSegment): seq<Global> {
    if globals == [] then []
    else (if globals[0].section == h then [globals[0]] else []) + Section(globals[1..], h)
  }

  lemma {:induction false} SectionConcat(a: seq<Global>, b: seq<Global>, h: HostSegment)
    ensures Section(a + b, h) == Section(a, h) + Section(b, h)
  {
    if a == [] {
      assert a + b == b;
    } else {
      assert (a + b)[0] == a[0] && (a + b)[1..] == a[1..] + b;
      SectionConcat(a[1..], b, h);
    }
  }

  lemma {:induction false} SectionOfRun(run: seq<Global>, host: HostSegment, h: HostSegment)
    requires InSection(run, host)
    ensures Section(run, h) == if h == host then run else []
  {
    if run != [] {
      assert run[0] in run;
      assert InSection(run[1..], host);
      SectionOfRun(run[1..], host, h);
    }
  }

  // Where host segment h's chain of guest segments starts and ends.
  function First(out: seq<Entry>, h: HostSegment): Option<nat> {
    if out == [] then None
    else
      var before := out[..|out| - 1];
      var last := out[|out| - 1];
      if First(before, h).Some? then First(before, h) else if last.host == h then Some(last.segment.vmaddr) else None
  }

  function EndOf(out: seq<Entry>, h: HostSegment): Option<nat> {
    if out == [] then None
    else
      var last := out[|out| - 1];
      if last.host == h then Some(last.segment.End()) else EndOf(out[..|out| - 1], h)
  }

  // The guest segments of h follow each other without a gap, in one image.
  ghost predicate Chain(out: seq<Entry>, h: HostSegment) {
    out == [] ||
    (var before := out[..|out| - 1];
     var last := out[|out| - 1];
     Chain(before, h)
     && (last.host == h ==> EndOf(before, h) in {None, Some(last.segment.vmaddr)}))
  }

  // A segment's globals hold its bytes, and laid from its address each is where its name says, every named override among them.
  ghost predicate RunExact(overrides: map<nat, Piece>, e: Entry, run: seq<Global>) {
    && InSection(run, e.host) && |Bytes(run)| == |e.segment.bytes|
    && NamesExact(Names(e.image, e.slide, overrides), run, e.segment.vmaddr)
    && Symbols(Local(e.segment, e.slide, overrides), run, e.segment.vmaddr)
  }

  // Every run is in its own host segment, and those of h are exact.
  ghost predicate RunsExact(overrides: map<nat, Piece>, out: seq<Entry>, runs: seq<seq<Global>>, h: HostSegment) {
    && |runs| == |out|
    && (forall k :: 0 <= k < |out| ==> InSection(runs[k], out[k].host))
    && (forall k :: 0 <= k < |out| && out[k].host == h ==> RunExact(overrides, out[k], runs[k]))
  }

  function Flat(runs: seq<seq<Global>>): seq<Global> {
    if runs == [] then [] else Flat(runs[..|runs| - 1]) + runs[|runs| - 1]
  }

  ghost predicate OneSlide(out: seq<Entry>, h: HostSegment, slide: int) {
    forall k :: 0 <= k < |out| && out[k].host == h ==> out[k].slide == slide && out[k].image == h.image
  }

  // Laying a host segment's globals end to end from its first guest address puts every one of them where its name says.
  lemma {:induction false} SectionExact(overrides: map<nat, Piece>, out: seq<Entry>, runs: seq<seq<Global>>, h: HostSegment,
                                        slide: int)
    requires RunsExact(overrides, out, runs, h) && Chain(out, h) && OneSlide(out, h, slide)
    ensures First(out, h).Some? <==> EndOf(out, h).Some?
    ensures First(out, h).None? ==> Section(Flat(runs), h) == []
    ensures First(out, h).Some? ==>
      && NamesExact(Names(h.image, slide, overrides), Section(Flat(runs), h), First(out, h).value)
      && First(out, h).value + |Bytes(Section(Flat(runs), h))| == EndOf(out, h).value
    decreases |out|
  {
    hide NamesExact, Bytes, Section;
    if out == [] {
      EmptySection(overrides, slide, h);
    } else {
      var n := |out| - 1;
      var before, earlier := out[..n], runs[..n];
      ShorterRuns(overrides, out, runs, h);
      SectionExact(overrides, before, earlier, h, slide);
      SectionGrows(overrides, out, runs, h);
      if out[n].host == h {
        BytesConcat(Section(Flat(earlier), h), runs[n]);
        if First(before, h).Some? {
          NamesConcat(Names(h.image, slide, overrides), Section(Flat(earlier), h), runs[n], First(before, h).value);
        } else {
          assert Section(Flat(earlier), h) + runs[n] == runs[n];
        }
      }
    }
  }

  lemma EmptySection(overrides: map<nat, Piece>, slide: int, h: HostSegment)
    ensures Section(Flat([]), h) == []
  {
  }

  lemma ShorterRuns(overrides: map<nat, Piece>, out: seq<Entry>, runs: seq<seq<Global>>, h: HostSegment)
    requires RunsExact(overrides, out, runs, h) && out != []
    ensures RunsExact(overrides, out[..|out| - 1], runs[..|out| - 1], h)
    ensures InSection(runs[|out| - 1], out[|out| - 1].host)
    ensures out[|out| - 1].host == h ==>
      RunExact(overrides, out[|out| - 1], runs[|out| - 1]) && |Bytes(runs[|out| - 1])| == |out[|out| - 1].segment.bytes|
    ensures |runs| == |out|
  {
  }

  lemma ShorterChain(out: seq<Entry>, h: HostSegment, slide: int)
    requires Chain(out, h) && OneSlide(out, h, slide) && out != []
    ensures Chain(out[..|out| - 1], h) && OneSlide(out[..|out| - 1], h, slide)
    ensures var last := out[|out| - 1]; last.host == h ==> EndOf(out[..|out| - 1], h) in {None, Some(last.segment.vmaddr)}
    ensures EndOf(out, h) == if out[|out| - 1].host == h then Some(out[|out| - 1].segment.End()) else EndOf(out[..|out| - 1], h)
    ensures First(out, h) == if First(out[..|out| - 1], h).Some? || out[|out| - 1].host != h then First(out[..|out| - 1], h)
                             else Some(out[|out| - 1].segment.vmaddr)
  {
  }

  lemma SectionGrows(overrides: map<nat, Piece>, out: seq<Entry>, runs: seq<seq<Global>>, h: HostSegment)
    requires RunsExact(overrides, out, runs, h) && out != []
    ensures var n := |out| - 1;
            var before := Section(Flat(runs[..n]), h);
            Section(Flat(runs), h) == if out[n].host == h then before + runs[n] else before
  {
    var n := |out| - 1;
    ShorterRuns(overrides, out, runs, h);
    SectionConcat(Flat(runs[..n]), runs[n], h);
    SectionOfRun(runs[n], out[n].host, h);
    assert Section(Flat(runs[..n]), h) + [] == Section(Flat(runs[..n]), h);
  }

  // Laid from guest address `first`, the bytes hold `part` from `at` on.
  ghost predicate Holds(bytes: Field, first: nat, at: nat, part: Field) {
    first <= at && at - first + |part| <= |bytes| && bytes[at - first..at - first + |part|] == part
  }

  lemma HoldsStill(bytes: Field, more: Field, first: nat, at: nat, part: Field)
    requires Holds(bytes, first, at, part)
    ensures Holds(bytes + more, first, at, part)
  {
  }

  lemma HoldsLast(bytes: Field, part: Field, first: nat)
    ensures Holds(bytes + part, first, first + |bytes|, part)
  {
  }

  // And every byte of every guest segment in it at its guest address.
  lemma {:induction false} SegmentInSection(overrides: map<nat, Piece>, out: seq<Entry>, runs: seq<seq<Global>>, h: HostSegment,
                                            slide: int, k: nat)
    requires RunsExact(overrides, out, runs, h) && Chain(out, h) && OneSlide(out, h, slide)
    requires k < |out| && out[k].host == h
    ensures First(out, h).Some? && |runs| == |out|
    ensures Holds(Bytes(Section(Flat(runs), h)), First(out, h).value, out[k].segment.vmaddr, Bytes(runs[k]))
    decreases |out|
  {
    hide NamesExact, Bytes, Section, RunExact, RunsExact, OneSlide, Chain, Flat, First, EndOf, Holds;
    ShorterRuns(overrides, out, runs, h);
    var n := |out| - 1;
    var before, earlier := out[..n], runs[..n];
    ShorterChain(out, h, slide);
    SectionExact(overrides, before, earlier, h, slide);
    SectionGrows(overrides, out, runs, h);
    var part := Bytes(Section(Flat(earlier), h));
    BytesConcat(Section(Flat(earlier), h), runs[n]);
    if k < n {
      SegmentInSection(overrides, before, earlier, h, slide, k);
      HoldsStill(part, Bytes(runs[n]), First(before, h).value, out[k].segment.vmaddr, Bytes(runs[k]));
    } else {
      NoBytes();
      assert First(before, h).None? ==> part == [];
      HoldsLast(part, Bytes(runs[n]), First(out, h).value);
    }
  }

  lemma NoBytes()
    ensures Bytes([]) == []
  {
  }

  // And every named override of it under its name.
  lemma {:induction false} SymbolInSection(overrides: map<nat, Piece>, out: seq<Entry>, runs: seq<seq<Global>>, h: HostSegment,
                                           slide: int, k: nat, v: nat)
    requires RunsExact(overrides, out, runs, h) && Chain(out, h) && OneSlide(out, h, slide)
    requires k < |out| && out[k].host == h
    requires var mine := Local(out[k].segment, out[k].slide, overrides); v in mine && mine[v].global.Some?
    ensures First(out, h).Some?
    ensures var mine := Local(out[k].segment, out[k].slide, overrides);
            HasSymbol(Section(Flat(runs), h), First(out, h).value, v, mine[v].global.value, mine[v].fields)
    decreases |out|
  {
    hide NamesExact, Bytes, Section, HasSymbol, Local;
    var n := |out| - 1;
    var before, earlier := out[..n], runs[..n];
    var piece := Local(out[k].segment, out[k].slide, overrides)[v];
    ShorterRuns(overrides, out, runs, h);
    SectionExact(overrides, before, earlier, h, slide);
    SectionGrows(overrides, out, runs, h);
    if k < n {
      SymbolInSection(overrides, before, earlier, h, slide, k, v);
      if out[n].host == h {
        SymbolStays(Section(Flat(earlier), h), runs[n], First(out, h).value, v, piece.global.value, piece.fields);
      }
    } else {
      assert Symbols(Local(out[k].segment, out[k].slide, overrides), runs[n], out[n].segment.vmaddr);
      if First(before, h).None? {
        assert Section(Flat(earlier), h) + runs[n] == runs[n];
      } else {
        SymbolMoves(Section(Flat(earlier), h), runs[n], First(before, h).value, v, piece.global.value, piece.fields);
      }
    }
  }

  function LowestOf(out: seq<Entry>, h: HostSegment): Option<int> {
    if out == [] then None
    else
      var last := out[|out| - 1];
      var before := LowestOf(out[..|out| - 1], h);
      if last.host != h then before
      else if before == None || last.segment.vmaddr + last.slide < before.value then Some(last.segment.vmaddr + last.slide)
      else before
  }

  // The address the linker is given is where the chain starts.
  lemma {:induction false} LowestIsFirst(out: seq<Entry>, h: HostSegment, slide: int)
    requires Chain(out, h) && OneSlide(out, h, slide)
    ensures LowestOf(out, h) == match First(out, h) case Some(a) => Some(a + slide) case None => None
    ensures First(out, h).Some? <==> EndOf(out, h).Some?
    ensures First(out, h).Some? ==> First(out, h).value <= EndOf(out, h).value
  {
    if out != [] {
      LowestIsFirst(out[..|out| - 1], h, slide);
    }
  }

  function WritableOf(out: seq<Entry>, h: HostSegment): bool {
    out != [] && (WritableOf(out[..|out| - 1], h) || (out[|out| - 1].host == h && out[|out| - 1].segment.writable))
  }

  // One line of linker flags.
  datatype Flags = Flags(host: HostSegment, address: int, writable: bool)

  // The host segments in the order in which they first appear.
  function Appearance(out: seq<Entry>): seq<HostSegment> {
    if out == [] then []
    else
      var before, last := Appearance(out[..|out| - 1]), out[|out| - 1];
      if last.host in before then before else before + [last.host]
  }

  // What WriteLayout has gathered from a list of entries.
  ghost predicate Gathered(out: seq<Entry>, order: seq<HostSegment>, lowest: map<HostSegment, int>,
                           writable: map<HostSegment, bool>) {
    && order == Appearance(out)
    && (forall i, j :: 0 <= i < j < |order| ==> order[i] != order[j])
    && (forall h :: h in order <==> h in lowest)
    && (forall h :: LowestOf(out, h) == if h in lowest then Some(lowest[h]) else None)
    && (forall h :: WritableOf(out, h) <==> h in writable && writable[h])
    && (forall h :: h in lowest ==> h in writable)
  }

  // One line of flags for each host segment, in order of appearance.
  method WriteLayout(out: seq<Entry>) returns (lines: seq<Flags>)
    ensures |lines| == |Appearance(out)| && forall i :: 0 <= i < |lines| ==> lines[i].host == Appearance(out)[i]
    ensures forall i, j :: 0 <= i < j < |lines| ==> lines[i].host != lines[j].host
    ensures forall l: Flags :: l in lines <==> LowestOf(out, l.host) == Some(l.address) && l.writable == WritableOf(out, l.host)
  {
    var order: seq<HostSegment> := [];
    var lowest: map<HostSegment, int> := map[];
    var writable: map<HostSegment, bool> := map[];
    for n := 0 to |out|
      invariant Gathered(out[..n], order, lowest, writable)
    {
      assert out[..n + 1][..n] == out[..n];
      order, lowest, writable := Gather(out[..n], out[n], order, lowest, writable);
      assert out[..n + 1] == out[..n] + [out[n]];
    }
    assert out[..|out|] == out;
    lines := LinesFor(out, order, lowest, writable);
  }

  method LinesFor(ghost out: seq<Entry>, order: seq<HostSegment>, lowest: map<HostSegment, int>, writable: map<HostSegment, bool>)
    returns (lines: seq<Flags>)
    requires Gathered(out, order, lowest, writable)
    ensures |lines| == |Appearance(out)| && forall i :: 0 <= i < |lines| ==> lines[i].host == Appearance(out)[i]
    ensures forall i, j :: 0 <= i < j < |lines| ==> lines[i].host != lines[j].host
    ensures forall l: Flags :: l in lines <==> LowestOf(out, l.host) == Some(l.address) && l.writable == WritableOf(out, l.host)
  {
    hide Appearance, LowestOf, WritableOf;
    lines := [];
    for i := 0 to |order|
      invariant |lines| == i
      invariant forall j :: 0 <= j < i ==> order[j] in lowest && lines[j] == Flags(order[j], lowest[order[j]], writable[order[j]])
    {
      assert order[i] in order;
      lines := lines + [Flags(order[i], lowest[order[i]], writable[order[i]])];
    }
    forall l: Flags | LowestOf(out, l.host) == Some(l.address) && l.writable == WritableOf(out, l.host) ensures l in lines {
      var j :| 0 <= j < |order| && order[j] == l.host;
      assert lines[j] == l;
    }
  }

  method Gather(ghost before: seq<Entry>, e: Entry, order0: seq<HostSegment>, lowest0: map<HostSegment, int>,
                writable0: map<HostSegment, bool>)
    returns (order: seq<HostSegment>, lowest: map<HostSegment, int>, writable: map<HostSegment, bool>)
    requires Gathered(before, order0, lowest0, writable0)
    ensures Gathered(before + [e], order, lowest, writable)
  {
    order, lowest := order0, lowest0;
    var address := e.segment.vmaddr + e.slide;
    if e.host !in lowest {
      order := order + [e.host];
      lowest := lowest[e.host := address];
    } else if address < lowest[e.host] {
      lowest := lowest[e.host := address];
    }
    writable := writable0[e.host := (e.host in writable0 && writable0[e.host]) || e.segment.writable];
    assert (before + [e])[..|before|] == before;
  }

  function HostOf(i: nat, segments: seq<Segment>, merge: bool, s: Segment): HostSegment
    requires 2 <= |s.name|
  {
    if merge && s.name != "__TEXT" then Merged(i) else Own(i, Suffix(s.name))
  }

  // Each byte of the segment, at its address: the override's, else the slot's, else the image's own.
  ghost predicate BytesInPlace(s: Segment, pieces: Pieces, run: seq<Global>)
    requires AllValid(s, pieces)
  {
    |Bytes(run)| == |s.bytes| && forall a: nat :: s.Contains(a) ==> Bytes(run)[a - s.vmaddr] == At(s, pieces, a)
  }

  // What one emitted segment amounts to, if its slots and overrides are sound.
  ghost predicate Emission(overrides: map<nat, Piece>, e: Entry, run: seq<Global>, pieces: Pieces) {
    var mine := Local(e.segment, e.slide, overrides);
    && InSection(run, e.host) && PiecesOf(e.segment.slots, mine, pieces) && AllValid(e.segment, pieces)
    && (Sound(e.segment, mine) <==> |Bytes(run)| == |e.segment.bytes|)
    && (Sound(e.segment, mine) ==> RunExact(overrides, e, run) && BytesInPlace(e.segment, pieces, run))
  }

  ghost predicate Emissions(overrides: map<nat, Piece>, out: seq<Entry>, runs: seq<seq<Global>>, pieces: seq<Pieces>) {
    |runs| == |out| == |pieces| && forall k :: 0 <= k < |out| ==> Emission(overrides, out[k], runs[k], pieces[k])
  }

  // --- which segment goes where ---

  // Every segment's name has its two leading underscores.
  ghost predicate Named(images: seq<GuestImage>) {
    forall i, n :: 0 <= i < |images| && 0 <= n < |images[i].segments| ==> 2 <= |images[i].segments[n].name|
  }

  // What becomes of the n-th segment of image i.
  function EntryFor(images: seq<GuestImage>, i: nat, n: nat): Entry
    requires i < |images| && n < |images[i].segments| && Named(images)
  {
    var segments := images[i].segments;
    Entry(i, segments[n], images[i].slide, HostOf(i, segments, Contiguous(segments, |segments|), segments[n]))
  }

  // The emitted ones among the first n segments of image i, and those of the first i images.
  function EntriesOf(images: seq<GuestImage>, i: nat, n: nat): seq<Entry>
    requires i < |images| && n <= |images[i].segments| && Named(images)
  {
    if n == 0 then []
    else EntriesOf(images, i, n - 1) + if Emits(images[i].segments[n - 1]) then [EntryFor(images, i, n - 1)] else []
  }

  function AllEntries(images: seq<GuestImage>, i: nat): seq<Entry>
    requires i <= |images| && Named(images)
  {
    if i == 0 then [] else AllEntries(images, i - 1) + EntriesOf(images, i - 1, |images[i - 1].segments|)
  }

  method EmitImage(images: seq<GuestImage>, overrides: map<nat, Piece>, i: nat, globals0: seq<Global>, out0: seq<Entry>,
                   ghost runs0: seq<seq<Global>>, ghost pieces0: seq<Pieces>)
    returns (globals: seq<Global>, out: seq<Entry>, ghost runs: seq<seq<Global>>, ghost pieces: seq<Pieces>)
    requires i < |images| && Named(images) && globals0 == Flat(runs0) && Emissions(overrides, out0, runs0, pieces0)
    requires forall n :: 0 <= n < |images[i].segments| ==> Valid(images[i].segments[n], overrides)
    ensures out == out0 + EntriesOf(images, i, |images[i].segments|)
    ensures globals == Flat(runs) && Emissions(overrides, out, runs, pieces)
  {
    hide Emissions, Emission, Valid, Contiguous, Flat;
    globals, out, runs, pieces := globals0, out0, runs0, pieces0;
    var segments := images[i].segments;
    var merge := MergeData(segments);
    for n := 0 to |segments|
      invariant globals == Flat(runs) && Emissions(overrides, out, runs, pieces)
      invariant out == out0 + EntriesOf(images, i, n)
    {
      if Emits(segments[n]) {
        var e := Entry(i, segments[n], images[i].slide, HostOf(i, segments, merge, segments[n]));
        var run, made := EmitOne(overrides, e);
        globals := globals + run;
        EmissionsStep(overrides, out, runs, pieces, e, run, made);
        out, runs, pieces := out + [e], runs + [run], pieces + [made];
      }
    }
  }

  lemma EmissionsStep(overrides: map<nat, Piece>, out: seq<Entry>, runs: seq<seq<Global>>, pieces: seq<Pieces>, e: Entry,
                      run: seq<Global>, made: Pieces)
    requires Emissions(overrides, out, runs, pieces) && Emission(overrides, e, run, made)
    ensures Emissions(overrides, out + [e], runs + [run], pieces + [made])
    ensures Flat(runs + [run]) == Flat(runs) + run
  {
    assert (runs + [run])[..|runs|] == runs;
  }

  method EmitOne(overrides: map<nat, Piece>, e: Entry) returns (run: seq<Global>, ghost made: Pieces)
    requires Valid(e.segment, overrides)
    ensures Emission(overrides, e, run, made)
  {
    hide *;
    var pieces; ghost var keys;
    run, pieces, keys := EmitSegment(e.segment, e.slide, overrides, e.image, e.host);
    made := pieces;
    MakesEmission(overrides, e, run, made, keys);
  }

  lemma LocalSizes(s: Segment, slide: int, overrides: map<nat, Piece>)
    requires Valid(s, overrides)
    ensures forall v :: v in Local(s, slide, overrides) ==> Local(s, slide, overrides)[v].size > 0
  {
  }

  lemma MakesEmission(overrides: map<nat, Piece>, e: Entry, run: seq<Global>, pieces: Pieces, keys: seq<nat>)
    requires Valid(e.segment, overrides) && InSection(run, e.host)
    requires PiecesOf(e.segment.slots, Local(e.segment, e.slide, overrides), pieces) && AllValid(e.segment, pieces)
    requires IsOrder(pieces, keys)
    requires Bytes(run) == Emitted(e.segment, pieces, keys, 0, e.segment.vmaddr)
    requires Disjoint(e.segment, pieces) ==>
      && NamesExact(Names(e.image, e.slide, overrides), run, e.segment.vmaddr)
      && Symbols(Local(e.segment, e.slide, overrides), run, e.segment.vmaddr)
    ensures Emission(overrides, e, run, pieces)
  {
    hide Valid, InSection, PiecesOf, Local, AllValid, IsOrder, Bytes, Emitted, Disjoint, NamesExact, Symbols, At, Sound;
    LocalSizes(e.segment, e.slide, overrides);
    SegmentExact(e.segment, Local(e.segment, e.slide, overrides), pieces, keys);
    SoundIsDisjoint(e.segment, Local(e.segment, e.slide, overrides), pieces);
  }

  // --- the members of a host segment ---

  ghost predicate Joins(images: seq<GuestImage>, i: nat, n: nat, h: HostSegment)
    requires i < |images| && n < |images[i].segments| && Named(images)
  {
    Emits(images[i].segments[n]) && EntryFor(images, i, n).host == h
  }

  // Where the last member of h among the first n segments of image i ends.
  ghost function MemberEnd(images: seq<GuestImage>, i: nat, h: HostSegment, n: nat): Option<nat>
    requires i < |images| && n <= |images[i].segments| && Named(images)
  {
    if n == 0 then None
    else if Joins(images, i, n - 1, h) then Some(images[i].segments[n - 1].End())
    else MemberEnd(images, i, h, n - 1)
  }

  // Each of them starts where the one before it ends.
  ghost predicate Adjoin(images: seq<GuestImage>, i: nat, h: HostSegment, n: nat)
    requires i < |images| && n <= |images[i].segments| && Named(images)
  {
    n == 0 ||
    (Adjoin(images, i, h, n - 1)
     && (Joins(images, i, n - 1, h) ==> MemberEnd(images, i, h, n - 1) in {None, Some(images[i].segments[n - 1].vmaddr)}))
  }

  lemma {:induction false} ContiguousPrefix(segments: seq<Segment>, n: nat, m: nat)
    requires n <= m <= |segments| && Contiguous(segments, m)
    ensures Contiguous(segments, n)
    decreases m
  {
    if n < m {
      ContiguousPrefix(segments, n, m - 1);
    }
  }

  // The members of a merged host segment adjoin: an image's data segments are merged only if they do.
  lemma {:induction false} MergedAdjoin(images: seq<GuestImage>, i: nat, n: nat)
    requires i < |images| && n <= |images[i].segments| && Named(images)
    ensures Adjoin(images, i, Merged(i), n)
    ensures Contiguous(images[i].segments, |images[i].segments|) ==>
      MemberEnd(images, i, Merged(i), n) == DataEnd(images[i].segments, n)
  {
    if n > 0 {
      MergedAdjoin(images, i, n - 1);
      if Contiguous(images[i].segments, |images[i].segments|) {
        ContiguousPrefix(images[i].segments, n, |images[i].segments|);
      }
    }
  }

  // A segment that has its host segment to itself adjoins nothing.
  lemma {:induction false} SingleAdjoins(images: seq<GuestImage>, i: nat, h: HostSegment, n: nat, only: nat)
    requires i < |images| && n <= |images[i].segments| && Named(images)
    requires forall m :: 0 <= m < |images[i].segments| && Joins(images, i, m, h) ==> m == only
    ensures Adjoin(images, i, h, n) && (n <= only ==> MemberEnd(images, i, h, n) == None)
  {
    if n > 0 {
      SingleAdjoins(images, i, h, n - 1, only);
    }
  }

  // --- where an image's segments stand among all ---

  ghost predicate OfImage(out: seq<Entry>, i: nat) {
    forall k :: 0 <= k < |out| ==> out[k].image == i && out[k].host.image == i
  }

  lemma {:induction false} EntriesOfImage(images: seq<GuestImage>, i: nat, n: nat)
    requires i < |images| && n <= |images[i].segments| && Named(images)
    ensures OfImage(EntriesOf(images, i, n), i)
  {
    if n > 0 {
      EntriesOfImage(images, i, n - 1);
    }
  }

  lemma ChainSnoc(out: seq<Entry>, e: Entry, h: HostSegment, slide: int)
    ensures Chain(out + [e], h) <==> Chain(out, h) && (e.host == h ==> EndOf(out, h) in {None, Some(e.segment.vmaddr)})
    ensures OneSlide(out + [e], h, slide) <==>
            OneSlide(out, h, slide) && (e.host == h ==> e.slide == slide && e.image == h.image)
    ensures EndOf(out + [e], h) == if e.host == h then Some(e.segment.End()) else EndOf(out, h)
  {
    var all := out + [e];
    assert all[..|out|] == out;
    forall k | 0 <= k < |out| ensures all[k] == out[k] {}
    assert all[|out|] == e;
  }

  // Entries of other images change nothing about h.
  lemma {:induction false} OthersApart(out: seq<Entry>, more: seq<Entry>, h: HostSegment, slide: int)
    requires Chain(out, h) && OneSlide(out, h, slide) && forall k :: 0 <= k < |more| ==> more[k].host != h
    ensures Chain(out + more, h) && OneSlide(out + more, h, slide) && EndOf(out + more, h) == EndOf(out, h)
    decreases |more|
  {
    if more == [] {
      assert out + more == out;
    } else {
      hide Chain, OneSlide, EndOf;
      var n := |more| - 1;
      OthersApart(out, more[..n], h, slide);
      assert out + more == out + more[..n] + [more[n]];
      ChainSnoc(out + more[..n], more[n], h, slide);
    }
  }

  lemma {:induction false} ImageChained(images: seq<GuestImage>, i: nat, h: HostSegment, n: nat, before: seq<Entry>)
    requires i < |images| && n <= |images[i].segments| && Named(images) && h.image == i
    requires Chain(before, h) && OneSlide(before, h, images[i].slide) && EndOf(before, h) == None
    requires Adjoin(images, i, h, n)
    ensures var out := before + EntriesOf(images, i, n);
            Chain(out, h) && OneSlide(out, h, images[i].slide) && EndOf(out, h) == MemberEnd(images, i, h, n)
  {
    hide Chain, OneSlide, EndOf, Contiguous;
    if n == 0 {
      assert before + [] == before;
    } else {
      ImageChained(images, i, h, n - 1, before);
      var out := before + EntriesOf(images, i, n - 1);
      if Emits(images[i].segments[n - 1]) {
        var e := EntryFor(images, i, n - 1);
        assert before + EntriesOf(images, i, n) == out + [e];
        ChainSnoc(out, e, h, images[i].slide);
      } else {
        assert before + EntriesOf(images, i, n) == out;
      }
    }
  }

  // Over all images, the members of a host segment follow each other if in their own image they adjoin.
  lemma {:induction false} HostChained(images: seq<GuestImage>, i: nat, h: HostSegment, upTo: nat)
    requires i < |images| && upTo <= |images| && Named(images) && h.image == i
    requires Adjoin(images, i, h, |images[i].segments|)
    ensures Chain(AllEntries(images, upTo), h) && OneSlide(AllEntries(images, upTo), h, images[i].slide)
    ensures upTo <= i ==> EndOf(AllEntries(images, upTo), h) == None
  {
    hide Adjoin, Chain, OneSlide, EndOf, EntriesOf;
    if upTo == 0 {
      NothingChained(h, images[i].slide);
    } else {
      var j := upTo - 1;
      HostChained(images, i, h, j);
      if j == i {
        ImageChained(images, i, h, |images[i].segments|, AllEntries(images, j));
      } else {
        EntriesOfImage(images, j, |images[j].segments|);
        OthersApart(AllEntries(images, j), EntriesOf(images, j, |images[j].segments|), h, images[i].slide);
      }
    }
  }

  lemma NothingChained(h: HostSegment, slide: int)
    ensures Chain([], h) && OneSlide([], h, slide) && EndOf([], h) == None
  {
  }

  // Every emitted segment of the input is among the entries,
  lemma {:induction false} SegmentEntered(images: seq<GuestImage>, i: nat, n: nat, m: nat) returns (k: nat)
    requires i < |images| && n < m <= |images[i].segments| && Named(images) && Emits(images[i].segments[n])
    ensures k < |EntriesOf(images, i, m)| && EntriesOf(images, i, m)[k] == EntryFor(images, i, n)
    decreases m
  {
    if n == m - 1 {
      k := |EntriesOf(images, i, n)|;
    } else {
      k := SegmentEntered(images, i, n, m - 1);
    }
  }

  lemma {:induction false} EntryPlace(images: seq<GuestImage>, i: nat, n: nat, upTo: nat) returns (k: nat)
    requires i < upTo <= |images| && n < |images[i].segments| && Named(images) && Emits(images[i].segments[n])
    ensures k < |AllEntries(images, upTo)| && AllEntries(images, upTo)[k] == EntryFor(images, i, n)
    decreases upTo
  {
    hide EntriesOf, EntryFor;
    if i == upTo - 1 {
      k := SegmentEntered(images, i, n, |images[i].segments|);
      k := k + |AllEntries(images, i)|;
    } else {
      k := EntryPlace(images, i, n, upTo - 1);
    }
  }

  // and every entry is one.
  lemma {:induction false} EntrySource(images: seq<GuestImage>, i: nat, m: nat, k: nat) returns (n: nat)
    requires i < |images| && m <= |images[i].segments| && Named(images) && k < |EntriesOf(images, i, m)|
    ensures n < m && Emits(images[i].segments[n]) && EntriesOf(images, i, m)[k] == EntryFor(images, i, n)
    decreases m
  {
    if k < |EntriesOf(images, i, m - 1)| {
      n := EntrySource(images, i, m - 1, k);
    } else {
      n := m - 1;
    }
  }

  lemma {:induction false} EntryOrigin(images: seq<GuestImage>, upTo: nat, k: nat) returns (i: nat, n: nat)
    requires upTo <= |images| && Named(images) && k < |AllEntries(images, upTo)|
    ensures i < upTo && n < |images[i].segments| && Emits(images[i].segments[n])
    ensures AllEntries(images, upTo)[k] == EntryFor(images, i, n)
    decreases upTo
  {
    hide EntriesOf, EntryFor;
    var before := AllEntries(images, upTo - 1);
    if k < |before| {
      i, n := EntryOrigin(images, upTo - 1, k);
    } else {
      i := upTo - 1;
      n := EntrySource(images, i, |images[i].segments|, k - |before|);
    }
  }

  // --- the whole way ---

  // What guest address `a` of a segment has to hold: the override's field, else the slot's constant, else the image's byte.
  ghost predicate Meant(s: Segment, mine: Pieces, a: nat, cell: Cell)
    requires s.Contains(a)
  {
    && (forall v :: v in mine && v <= a < v + mine[v].size ==>
          a - v < |Cells(mine[v].fields)| && cell == Cells(mine[v].fields)[a - v])
    && (forall b: nat :: Kept(s, mine, b) && b <= a < b + 8 ==> cell == Part(s.slots[b], a - b))
    && (!StartsInside(mine, a) && (forall b: nat :: Kept(s, mine, b) ==> !(b <= a < b + 8)) ==>
          cell == Byte(s.bytes[a - s.vmaddr]))
  }

  // The members of h in image i adjoin, and each one's slots and overrides are sound.
  ghost predicate SoundHost(images: seq<GuestImage>, overrides: map<nat, Piece>, i: nat, h: HostSegment)
    requires i < |images| && Named(images)
  {
    && h.image == i && Adjoin(images, i, h, |images[i].segments|)
    && forall m :: 0 <= m < |images[i].segments| && Joins(images, i, m, h) ==>
         Sound(images[i].segments[m], Local(images[i].segments[m], images[i].slide, overrides))
  }

  lemma HostExact(images: seq<GuestImage>, overrides: map<nat, Piece>, out: seq<Entry>, runs: seq<seq<Global>>,
                  pieces: seq<Pieces>, i: nat, h: HostSegment)
    requires Named(images) && out == AllEntries(images, |images|) && Emissions(overrides, out, runs, pieces)
    requires i < |images| && SoundHost(images, overrides, i, h)
    ensures RunsExact(overrides, out, runs, h) && Chain(out, h) && OneSlide(out, h, images[i].slide)
  {
    hide AllEntries, Chain, OneSlide, RunExact, Sound, Local, BytesInPlace, Adjoin, InSection;
    HostChained(images, i, h, |images|);
    forall k | 0 <= k < |out|
      ensures InSection(runs[k], out[k].host) && (out[k].host == h ==> RunExact(overrides, out[k], runs[k]))
    {
      assert Emission(overrides, out[k], runs[k], pieces[k]);
      var j, n := EntryOrigin(images, |images|, k);
      if out[k].host == h {
        assert Joins(images, i, n, h);
      }
    }
  }

  // Laid from the address the linker is given for it, a host segment holds what every guest address of its segments has to
  // hold. This is segment n of image i of the input, whatever became of the others.
  lemma SegmentAtAddress(images: seq<GuestImage>, overrides: map<nat, Piece>, out: seq<Entry>, runs: seq<seq<Global>>,
                         pieces: seq<Pieces>, i: nat, n: nat, a: nat)
    requires Named(images) && out == AllEntries(images, |images|) && Emissions(overrides, out, runs, pieces)
    requires i < |images| && n < |images[i].segments| && Emits(images[i].segments[n]) && images[i].segments[n].Contains(a)
    requires SoundHost(images, overrides, i, EntryFor(images, i, n).host)
    ensures var h := EntryFor(images, i, n).host;
            var section := Bytes(Section(Flat(runs), h));
            && LowestOf(out, h).Some?
            && var at := a + images[i].slide - LowestOf(out, h).value;
               && 0 <= at < |section|
               && Meant(images[i].segments[n], Local(images[i].segments[n], images[i].slide, overrides), a, section[at])
  {
    hide *;
    var e := EntryFor(images, i, n);
    var h, slide := e.host, images[i].slide;
    EntryParts(images, i, n);
    HostExact(images, overrides, out, runs, pieces, i, h);
    var k := EntryPlace(images, i, n, |images|);
    SegmentInSection(overrides, out, runs, h, slide, k);
    LowestIsFirst(out, h, slide);
    MemberSound(images, overrides, i, n);
    SoundBytes(overrides, out, runs, pieces, k, a);
    HeldByte(Bytes(Section(Flat(runs), h)), First(out, h).value, e.segment.vmaddr, Bytes(runs[k]), a);
  }

  lemma HeldByte(bytes: Field, first: nat, at: nat, part: Field, a: nat)
    requires Holds(bytes, first, at, part) && at <= a < at + |part|
    ensures first <= a && a - first < |bytes| && bytes[a - first] == part[a - at]
  {
    assert bytes[at - first..at - first + |part|][a - at] == bytes[a - first];
  }

  lemma EntryParts(images: seq<GuestImage>, i: nat, n: nat)
    requires Named(images) && i < |images| && n < |images[i].segments| && Emits(images[i].segments[n])
    ensures var e := EntryFor(images, i, n);
            e.image == i && e.segment == images[i].segments[n] && e.slide == images[i].slide && Joins(images, i, n, e.host)
  {
  }

  lemma MemberSound(images: seq<GuestImage>, overrides: map<nat, Piece>, i: nat, n: nat)
    requires Named(images) && i < |images| && n < |images[i].segments| && Emits(images[i].segments[n])
    requires SoundHost(images, overrides, i, EntryFor(images, i, n).host)
    ensures Sound(images[i].segments[n], Local(images[i].segments[n], images[i].slide, overrides))
  {
    hide Sound, Local, Adjoin;
    EntryParts(images, i, n);
  }

  // And every override that is a global of its own is a symbol there, at its guest address.
  lemma OverrideAtAddress(images: seq<GuestImage>, overrides: map<nat, Piece>, out: seq<Entry>, runs: seq<seq<Global>>,
                          pieces: seq<Pieces>, i: nat, n: nat, v: nat)
    requires Named(images) && out == AllEntries(images, |images|) && Emissions(overrides, out, runs, pieces)
    requires i < |images| && n < |images[i].segments| && Emits(images[i].segments[n])
    requires SoundHost(images, overrides, i, EntryFor(images, i, n).host)
    requires var mine := Local(images[i].segments[n], images[i].slide, overrides); v in mine && mine[v].global.Some?
    ensures var h := EntryFor(images, i, n).host;
            var piece := Local(images[i].segments[n], images[i].slide, overrides)[v];
            && First(out, h).Some? && LowestOf(out, h) == Some(First(out, h).value + images[i].slide)
            && HasSymbol(Section(Flat(runs), h), First(out, h).value, v, piece.global.value, piece.fields)
  {
    hide *;
    var e := EntryFor(images, i, n);
    EntryParts(images, i, n);
    HostExact(images, overrides, out, runs, pieces, i, e.host);
    var k := EntryPlace(images, i, n, |images|);
    SymbolInSection(overrides, out, runs, e.host, images[i].slide, k, v);
    LowestIsFirst(out, e.host, images[i].slide);
  }

  lemma SoundBytes(overrides: map<nat, Piece>, out: seq<Entry>, runs: seq<seq<Global>>, pieces: seq<Pieces>, k: nat, a: nat)
    requires Emissions(overrides, out, runs, pieces) && k < |out| && out[k].segment.Contains(a)
    requires Sound(out[k].segment, Local(out[k].segment, out[k].slide, overrides))
    ensures |runs| == |out| == |pieces| && |Bytes(runs[k])| == |out[k].segment.bytes|
    ensures out[k].segment.vmaddr <= a < out[k].segment.vmaddr + |out[k].segment.bytes|
    ensures Meant(out[k].segment, Local(out[k].segment, out[k].slide, overrides), a, Bytes(runs[k])[a - out[k].segment.vmaddr])
  {
    hide Sound, Local, RunExact, AllValid, Bytes, At, Disjoint, PiecesOf, Cells, Kept, StartsInside;
    assert Emission(overrides, out[k], runs[k], pieces[k]);
    var s, mine := out[k].segment, Local(out[k].segment, out[k].slide, overrides);
    LocalPositive(s, out[k].slide, overrides, pieces[k]);
    SoundIsDisjoint(s, mine, pieces[k]);
    AtMeaning(s, mine, pieces[k], a);
  }

  lemma LocalPositive(s: Segment, slide: int, overrides: map<nat, Piece>, pieces: Pieces)
    requires PiecesOf(s.slots, Local(s, slide, overrides), pieces) && AllValid(s, pieces)
    ensures forall v :: v in Local(s, slide, overrides) ==> Local(s, slide, overrides)[v].size > 0
  {
    forall v | v in Local(s, slide, overrides) ensures Local(s, slide, overrides)[v].size > 0 {
      assert v in pieces;
    }
  }
}
