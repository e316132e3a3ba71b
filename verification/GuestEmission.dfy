/** EmitGuestData over all images, and what it comes to in terms of the overrides, segments and names it is given. */
module GuestEmission {
  import opened Wrappers
  import opened GuestData
  import opened GuestLayout

  // --- overrides and slots of a segment ---

  // The override at host address `h` starts in the segment, at guest address `v`.
  predicate StartsAt(s: Segment, slide: int, overrides: map<nat, Piece>, h: nat, v: nat) {
    h in overrides && h == v + slide && s.vmaddr <= v < s.vmaddr + |s.bytes|
  }

  ghost predicate Covered(s: Segment, slide: int, overrides: map<nat, Piece>, a: nat) {
    exists h: nat, v: nat :: StartsAt(s, slide, overrides, h, v) && v <= a < v + overrides[h].size
  }

  ghost predicate SlotStands(s: Segment, slide: int, overrides: map<nat, Piece>, b: nat) {
    b in s.slots && !Covered(s, slide, overrides, b)
  }

  // Overrides lie apart and inside the segment, and so do the slots that stand, clear of the overrides too.
  ghost predicate Clear(s: Segment, slide: int, overrides: map<nat, Piece>) {
    && (forall h: nat, v: nat :: StartsAt(s, slide, overrides, h, v) ==> v + overrides[h].size <= s.vmaddr + |s.bytes|)
    && (forall h: nat, v: nat, k: nat, w: nat :: StartsAt(s, slide, overrides, h, v) && StartsAt(s, slide, overrides, k, w) ==>
          v < w ==> v + overrides[h].size <= w)
    && (forall b: nat :: SlotStands(s, slide, overrides, b) ==> b + 8 <= s.vmaddr + |s.bytes|)
    && (forall b: nat, h: nat, v: nat :: SlotStands(s, slide, overrides, b) && StartsAt(s, slide, overrides, h, v) ==>
          !(b < v < b + 8))
    && (forall b: nat, c: nat :: SlotStands(s, slide, overrides, b) && SlotStands(s, slide, overrides, c) ==>
          b < c ==> b + 8 <= c)
  }

  // What guest address `a` of a segment has to hold: the field of the override there, else the slot's constant, else the image's
  // byte.
  ghost predicate HasToHold(s: Segment, slide: int, overrides: map<nat, Piece>, a: nat, cell: Cell)
    requires s.vmaddr <= a < s.vmaddr + |s.bytes|
  {
    && (forall h: nat, v: nat :: StartsAt(s, slide, overrides, h, v) && v <= a < v + overrides[h].size ==>
          a - v < |Cells(overrides[h].fields)| && cell == Cells(overrides[h].fields)[a - v])
    && (forall b: nat :: SlotStands(s, slide, overrides, b) && b <= a < b + 8 ==> cell == Part(s.slots[b], a - b))
    && (!Covered(s, slide, overrides, a) && (forall b: nat :: SlotStands(s, slide, overrides, b) ==> !(b <= a < b + 8)) ==>
          cell == Byte(s.bytes[a - s.vmaddr]))
  }

  lemma LocalIs(s: Segment, slide: int, overrides: map<nat, Piece>, v: nat)
    ensures v in Local(s, slide, overrides) <==> v + slide >= 0 && StartsAt(s, slide, overrides, v + slide, v)
    ensures v in Local(s, slide, overrides) ==> Local(s, slide, overrides)[v] == overrides[v + slide]
  {
    var mine := Local(s, slide, overrides);
    if v + slide >= 0 && StartsAt(s, slide, overrides, v + slide, v) {
      assert s.Contains(v) && v + slide in overrides;
      assert v in mine;
    }
    if v in mine {
      assert s.Contains(v) && v + slide >= 0 && v + slide in overrides;
    }
  }

  // Which is to say that what is local to a segment are the overrides that start in it.
  lemma LocalOverrides(s: Segment, slide: int, overrides: map<nat, Piece>)
    ensures var mine := Local(s, slide, overrides);
            && (forall h: nat, v: nat :: StartsAt(s, slide, overrides, h, v) ==> v in mine && mine[v] == overrides[h])
            && (forall v: nat :: v in mine ==> exists h: nat :: StartsAt(s, slide, overrides, h, v))
  {
    var mine := Local(s, slide, overrides);
    forall h: nat, v: nat | StartsAt(s, slide, overrides, h, v) ensures v in mine && mine[v] == overrides[h] {
      LocalIs(s, slide, overrides, v);
    }
    forall v: nat | v in mine ensures exists h: nat :: StartsAt(s, slide, overrides, h, v) {
      LocalIs(s, slide, overrides, v);
    }
  }

  lemma CoveredIs(s: Segment, slide: int, overrides: map<nat, Piece>)
    ensures var mine := Local(s, slide, overrides);
            forall a: nat :: && (StartsInside(mine, a) <==> Covered(s, slide, overrides, a))
                             && (Kept(s, mine, a) <==> SlotStands(s, slide, overrides, a))
  {
    var mine := Local(s, slide, overrides);
    LocalOverrides(s, slide, overrides);
    hide Local, StartsAt;
    forall a: nat ensures StartsInside(mine, a) <==> Covered(s, slide, overrides, a) {
      if StartsInside(mine, a) {
        var v :| v in mine && v <= a < v + mine[v].size;
        var h: nat :| StartsAt(s, slide, overrides, h, v);
      }
    }
  }

  lemma ClearIs(s: Segment, slide: int, overrides: map<nat, Piece>)
    ensures Sound(s, Local(s, slide, overrides)) <==> Clear(s, slide, overrides)
  {
    var mine := Local(s, slide, overrides);
    LocalOverrides(s, slide, overrides);
    LocalInside(s, slide, overrides);
    CoveredIs(s, slide, overrides);
    hide Local, StartsAt, Kept, SlotStands, StartsInside, Covered;
    if Clear(s, slide, overrides) {
      forall v, w | v in mine && w in mine && v < w ensures v + mine[v].size <= w {
        var h: nat :| StartsAt(s, slide, overrides, h, v);
        var k: nat :| StartsAt(s, slide, overrides, k, w);
      }
    }
  }

  lemma LocalInside(s: Segment, slide: int, overrides: map<nat, Piece>)
    ensures forall v :: v in Local(s, slide, overrides) ==> s.vmaddr <= v
  {
  }

  lemma MeantIs(s: Segment, slide: int, overrides: map<nat, Piece>, a: nat, cell: Cell)
    requires s.Contains(a)
    ensures Meant(s, Local(s, slide, overrides), a, cell) <==> HasToHold(s, slide, overrides, a, cell)
  {
    LocalOverrides(s, slide, overrides);
    CoveredIs(s, slide, overrides);
    hide Local, StartsAt, Kept, SlotStands, StartsInside, Covered, Cells;
  }

  // --- the segments of a host segment ---

  predicate IsEmitted(s: Segment) {
    s.name !in {"__PAGEZERO", "__LINKEDIT"} && 0 < |s.bytes|
  }

  // Segments m < n of the chosen ones, with none of them between.
  ghost predicate Next(chosen: seq<bool>, m: nat, n: nat) {
    m < n < |chosen| && chosen[m] && chosen[n] && forall k :: m < k < n ==> !chosen[k]
  }

  // Each chosen segment starts where the chosen one before it ends.
  ghost predicate EndToEnd(segments: seq<Segment>, chosen: seq<bool>) {
    |chosen| <= |segments| &&
    forall m: nat, n: nat :: Next(chosen, m, n) ==> segments[n].vmaddr == segments[m].vmaddr + |segments[m].bytes|
  }

  function DataAmong(segments: seq<Segment>, n: nat): seq<bool>
    requires n <= |segments|
  {
    seq(n, k requires 0 <= k < n => IsEmitted(segments[k]) && segments[k].name != "__TEXT")
  }

  // The host segment a segment goes into: its image's data segment if it is not __TEXT and the data segments adjoin, else the
  // one with up to twelve characters of its own name.
  ghost predicate GoesInto(images: seq<GuestImage>, i: nat, n: nat, h: HostSegment)
    requires i < |images| && n < |images[i].segments| && 2 <= |images[i].segments[n].name|
  {
    var segments := images[i].segments;
    var name := segments[n].name;
    if name != "__TEXT" && EndToEnd(segments, DataAmong(segments, |segments|)) then h == Merged(i)
    else h.Own? && h.image == i && h.suffix <= name[2..] && |h.suffix| == if |name| > 14 then 12 else |name| - 2
  }

  // The last chosen segment of the first n.
  ghost predicate LastChosen(chosen: seq<bool>, n: nat, m: nat) {
    m < n <= |chosen| && chosen[m] && forall k :: m < k < n ==> !chosen[k]
  }

  // One more segment: it has to start where the last chosen one ends.
  lemma EndToEndMore(segments: seq<Segment>, chosen: seq<bool>, n: nat)
    requires n < |chosen| <= |segments|
    ensures EndToEnd(segments, chosen[..n + 1]) <==>
      && EndToEnd(segments, chosen[..n])
      && (chosen[n] ==> forall m: nat :: LastChosen(chosen[..n], n, m) ==>
            segments[n].vmaddr == segments[m].vmaddr + |segments[m].bytes|)
  {
    var more, less := chosen[..n + 1], chosen[..n];
    forall m: nat, k: nat ensures Next(more, m, k) <==> Next(less, m, k) || (k == n && chosen[n] && LastChosen(less, n, m)) {}
    hide LastChosen, Next;
    if EndToEnd(segments, more) && chosen[n] {
      forall m: nat | LastChosen(less, n, m) ensures segments[n].vmaddr == segments[m].vmaddr + |segments[m].bytes| {
        assert Next(more, m, n);
      }
    }
    if EndToEnd(segments, more) {
      forall m: nat, k: nat | Next(less, m, k) ensures segments[k].vmaddr == segments[m].vmaddr + |segments[m].bytes| {
        assert Next(more, m, k);
      }
    }
  }

  lemma LastChosenMore(chosen: seq<bool>, n: nat, m: nat)
    requires n < |chosen|
    ensures LastChosen(chosen[..n + 1], n + 1, m) <==> if chosen[n] then m == n else LastChosen(chosen[..n], n, m)
  {
  }

  // `end` is where the last chosen segment ends.
  ghost predicate EndsAt(segments: seq<Segment>, chosen: seq<bool>, end: Option<nat>) {
    && |chosen| <= |segments|
    && (forall m: nat :: LastChosen(chosen, |chosen|, m) ==> end == Some(segments[m].vmaddr + |segments[m].bytes|))
    && (end.Some? ==> exists m: nat :: LastChosen(chosen, |chosen|, m))
  }

  lemma EndsAtMore(segments: seq<Segment>, chosen: seq<bool>, n: nat, end: Option<nat>)
    requires n < |chosen| <= |segments| && EndsAt(segments, chosen[..n], end)
    ensures EndsAt(segments, chosen[..n + 1], if chosen[n] then Some(segments[n].End()) else end)
    ensures EndToEnd(segments, chosen[..n + 1]) <==>
      EndToEnd(segments, chosen[..n]) && (chosen[n] ==> end in {None, Some(segments[n].vmaddr)})
  {
    forall m: nat
      ensures LastChosen(chosen[..n + 1], n + 1, m) <==> if chosen[n] then m == n else LastChosen(chosen[..n], n, m)
    {
      LastChosenMore(chosen, n, m);
    }
    EndToEndMore(segments, chosen, n);
    hide LastChosen, EndToEnd;
    if end.Some? {
      var m: nat :| LastChosen(chosen[..n], n, m);
      assert if chosen[n] then LastChosen(chosen[..n + 1], n + 1, n) else LastChosen(chosen[..n + 1], n + 1, m);
    } else if chosen[n] {
      assert LastChosen(chosen[..n + 1], n + 1, n);
    }
  }

  lemma {:induction false} ContiguousIs(segments: seq<Segment>, n: nat)
    requires n <= |segments|
    ensures Contiguous(segments, n) <==> EndToEnd(segments, DataAmong(segments, n))
    ensures EndsAt(segments, DataAmong(segments, n), DataEnd(segments, n))
  {
    hide EndsAt, EndToEnd;
    if n == 0 {
      assert DataAmong(segments, n) == [];
      NoneChosen(segments);
    } else {
      var chosen := DataAmong(segments, n);
      assert chosen[..n - 1] == DataAmong(segments, n - 1) && chosen[..n] == chosen;
      ContiguousIs(segments, n - 1);
      EndsAtMore(segments, chosen, n - 1, DataEnd(segments, n - 1));
    }
  }

  lemma NoneChosen(segments: seq<Segment>)
    ensures EndToEnd(segments, []) && EndsAt(segments, [], None)
  {
  }

  lemma GoesIntoIs(images: seq<GuestImage>, i: nat, n: nat, h: HostSegment)
    requires i < |images| && n < |images[i].segments| && GuestLayout.Named(images)
    ensures GoesInto(images, i, n, h) <==> EntryFor(images, i, n).host == h
  {
    ContiguousIs(images[i].segments, |images[i].segments|);
    hide EndToEnd, Contiguous, EndsAt;
  }

  ghost function MembersAmong(images: seq<GuestImage>, i: nat, h: HostSegment, n: nat): seq<bool>
    requires i < |images| && n <= |images[i].segments| && GuestLayout.Named(images)
  {
    seq(n, k requires 0 <= k < n => IsEmitted(images[i].segments[k]) && GoesInto(images, i, k, h))
  }

  lemma {:induction false} AdjoinIs(images: seq<GuestImage>, i: nat, h: HostSegment, n: nat)
    requires i < |images| && n <= |images[i].segments| && GuestLayout.Named(images)
    ensures Adjoin(images, i, h, n) <==> EndToEnd(images[i].segments, MembersAmong(images, i, h, n))
    ensures EndsAt(images[i].segments, MembersAmong(images, i, h, n), MemberEnd(images, i, h, n))
  {
    hide EndsAt, EndToEnd, GoesInto, EntryFor;
    if n == 0 {
      assert MembersAmong(images, i, h, n) == [];
      NoneChosen(images[i].segments);
    } else {
      var chosen := MembersAmong(images, i, h, n);
      assert chosen[..n - 1] == MembersAmong(images, i, h, n - 1) && chosen[..n] == chosen;
      AdjoinIs(images, i, h, n - 1);
      GoesIntoIs(images, i, n - 1, h);
      EndsAtMore(images[i].segments, chosen, n - 1, MemberEnd(images, i, h, n - 1));
    }
  }

  // Segment n of image i is one of those laid into `h`.
  ghost predicate LaidInto(images: seq<GuestImage>, i: nat, n: nat, h: HostSegment) {
    && i < |images| && n < |images[i].segments| && 2 <= |images[i].segments[n].name|
    && IsEmitted(images[i].segments[n]) && GoesInto(images, i, n, h)
  }

  // The segments laid into `h` follow each other without a gap, and the slots and overrides of each are clear of each other.
  ghost predicate ClearHost(images: seq<GuestImage>, overrides: map<nat, Piece>, h: HostSegment)
    requires GuestLayout.Named(images)
  {
    h.image < |images| &&
    var image := images[h.image];
    && EndToEnd(image.segments, MembersAmong(images, h.image, h, |image.segments|))
    && forall n: nat :: LaidInto(images, h.image, n, h) ==> Clear(image.segments[n], image.slide, overrides)
  }

  // Segment n of its image is laid into `h`, and has this address in the host.
  ghost predicate LaidAt(images: seq<GuestImage>, h: HostSegment, n: nat, address: int) {
    LaidInto(images, h.image, n, h) && address == images[h.image].segments[n].vmaddr + images[h.image].slide
  }

  // The least address a segment of `h` has in the host, which is the one the linker is given.
  ghost predicate LeastAddress(images: seq<GuestImage>, h: HostSegment, least: int) {
    && (exists n: nat :: LaidAt(images, h, n, least))
    && (forall n: nat, address: int :: LaidAt(images, h, n, address) ==> least <= address)
  }

  ghost predicate SomeWritable(images: seq<GuestImage>, h: HostSegment) {
    exists n: nat :: LaidInto(images, h.image, n, h) && images[h.image].segments[n].writable
  }

  // --- the linker's lines ---

  // One of the entries of `h` has this address.
  ghost predicate HasAddress(out: seq<Entry>, h: HostSegment, k: nat, address: int) {
    k < |out| && out[k].host == h && out[k].segment.vmaddr + out[k].slide == address
  }

  lemma {:induction false} LowestIs(out: seq<Entry>, h: HostSegment, least: int)
    ensures LowestOf(out, h) == Some(least) <==>
            && (exists k: nat :: HasAddress(out, h, k, least))
            && (forall k: nat, address: int :: HasAddress(out, h, k, address) ==> least <= address)
    ensures LowestOf(out, h) == None ==> forall k: nat, address: int :: !HasAddress(out, h, k, address)
  {
    if out != [] {
      var n := |out| - 1;
      var before := out[..n];
      var last := out[n].segment.vmaddr + out[n].slide;
      if LowestOf(before, h).Some? {
        LowestIs(before, h, LowestOf(before, h).value);
      }
      LowestIs(before, h, least);
      forall k: nat, address: int
        ensures HasAddress(out, h, k, address) <==>
                HasAddress(before, h, k, address) || (k == n && out[n].host == h && address == last)
      {}
      hide HasAddress;
      if out[n].host == h {
        assert HasAddress(out, h, n, last);
      }
    }
  }

  lemma {:induction false} WritableIs(out: seq<Entry>, h: HostSegment)
    ensures WritableOf(out, h) <==> exists k: nat :: k < |out| && out[k].host == h && out[k].segment.writable
  {
    if out != [] {
      WritableIs(out[..|out| - 1], h);
    }
  }

  // An entry of `h` is a segment laid into it, and the other way round.
  lemma EntryIsLaid(images: seq<GuestImage>, h: HostSegment, k: nat) returns (n: nat)
    requires GuestLayout.Named(images) && k < |AllEntries(images, |images|)| && AllEntries(images, |images|)[k].host == h
    ensures LaidInto(images, h.image, n, h)
    ensures AllEntries(images, |images|)[k] == Entry(h.image, images[h.image].segments[n], images[h.image].slide, h)
  {
    hide GoesInto, AllEntries;
    var j;
    j, n := EntryOrigin(images, |images|, k);
    GoesIntoIs(images, j, n, h);
    hide Contiguous;
  }

  lemma LaidIsEntry(images: seq<GuestImage>, h: HostSegment, n: nat) returns (k: nat)
    requires GuestLayout.Named(images) && LaidInto(images, h.image, n, h)
    ensures k < |AllEntries(images, |images|)|
    ensures AllEntries(images, |images|)[k] == Entry(h.image, images[h.image].segments[n], images[h.image].slide, h)
  {
    hide GoesInto, AllEntries, Contiguous;
    k := EntryPlace(images, h.image, n, |images|);
    GoesIntoIs(images, h.image, n, h);
  }

  // The lines WriteLayout writes: the least address, and whether some segment is writable.
  lemma LinesAre(images: seq<GuestImage>, h: HostSegment, least: int)
    requires GuestLayout.Named(images)
    ensures LowestOf(AllEntries(images, |images|), h) == Some(least) <==> LeastAddress(images, h, least)
    ensures WritableOf(AllEntries(images, |images|), h) <==> SomeWritable(images, h)
  {
    var out := AllEntries(images, |images|);
    LowestIs(out, h, least);
    WritableIs(out, h);
    hide AllEntries, LowestOf, WritableOf, LaidInto;
    forall n: nat, address: int ensures LaidAt(images, h, n, address) ==> exists k: nat :: HasAddress(out, h, k, address) {
      if LaidAt(images, h, n, address) {
        var k := LaidIsEntry(images, h, n);
        assert HasAddress(out, h, k, address);
      }
    }
    forall k: nat, address: int
      ensures HasAddress(out, h, k, address) ==> exists n: nat :: LaidAt(images, h, n, address)
    {
      if HasAddress(out, h, k, address) {
        var n := EntryIsLaid(images, h, k);
        assert LaidAt(images, h, n, address);
      }
    }
    if k: nat :| k < |out| && out[k].host == h && out[k].segment.writable {
      var n := EntryIsLaid(images, h, k);
    }
    if n: nat :| LaidInto(images, h.image, n, h) && images[h.image].segments[n].writable {
      var k := LaidIsEntry(images, h, n);
    }
  }

  // Entry k is the first one of `h`.
  ghost predicate FirstOf(out: seq<Entry>, k: nat, h: HostSegment) {
    k < |out| && out[k].host == h && forall m :: 0 <= m < k ==> out[m].host != h
  }

  lemma NotFirst(out: seq<Entry>, h: HostSegment)
    requires forall m: nat :: !FirstOf(out, m, h)
    ensures forall k :: 0 <= k < |out| ==> out[k].host != h
  {
    NotUpTo(out, |out|, h);
  }

  lemma {:induction false} NotUpTo(out: seq<Entry>, k: nat, h: HostSegment)
    requires k <= |out| && forall m: nat :: !FirstOf(out, m, h)
    ensures forall j :: 0 <= j < k ==> out[j].host != h
  {
    if k > 0 {
      NotUpTo(out, k - 1, h);
      assert !FirstOf(out, k - 1, h);
    }
  }

  // The host segments come in the order of their first entries.
  lemma {:induction false} AppearanceIs(out: seq<Entry>)
    ensures forall h :: h in Appearance(out) <==> exists k: nat :: FirstOf(out, k, h)
    ensures forall i, j, k: nat, m: nat :: 0 <= i < j < |Appearance(out)| ==>
      FirstOf(out, k, Appearance(out)[i]) && FirstOf(out, m, Appearance(out)[j]) ==> k < m
  {
    if out != [] {
      var n := |out| - 1;
      var before, last := out[..n], out[n].host;
      AppearanceIs(before);
      if last !in Appearance(before) {
        NotFirst(before, last);
        assert forall m :: 0 <= m < n ==> before[m] == out[m];
      }
      assert last !in Appearance(before) ==> FirstOf(out, n, last);
      assert forall k: nat, h :: FirstOf(before, k, h) ==> FirstOf(out, k, h);
      assert forall k: nat, h :: FirstOf(out, k, h) ==> if k < n then FirstOf(before, k, h) else h == last;
    }
  }

  // --- the whole way ---

  // Laid from host address `least`, a host segment's bytes hold what guest address `a` of this segment has to.
  ghost predicate CellInPlace(s: Segment, slide: int, overrides: map<nat, Piece>, section: Field, least: int, a: nat) {
    s.vmaddr <= a < s.vmaddr + |s.bytes| ==>
      && 0 <= a + slide - least < |section|
      && HasToHold(s, slide, overrides, a, section[a + slide - least])
  }

  // And the override at host address `h`, if it is a global of its own, stands at that address under its name.
  ghost predicate SymbolInPlace(globals: seq<Global>, least: int, piece: Piece, h: nat) {
    piece.global.Some? ==>
      exists k :: 0 <= k < |globals| && globals[k].name == Named(piece.global.value) && globals[k].fields == piece.fields
                  && least + |Bytes(globals[..k])| == h
  }

  ghost predicate SegmentInPlace(s: Segment, slide: int, overrides: map<nat, Piece>, globals: seq<Global>, least: int) {
    && (forall a: nat :: CellInPlace(s, slide, overrides, Bytes(globals), least, a))
    && (forall h: nat, v: nat :: StartsAt(s, slide, overrides, h, v) ==> SymbolInPlace(globals, least, overrides[h], h))
  }

  ghost predicate LaidInPlace(images: seq<GuestImage>, overrides: map<nat, Piece>, globals: seq<Global>, host: HostSegment,
                              n: nat, least: int)
    requires GuestLayout.Named(images)
  {
    LaidInto(images, host.image, n, host) && LeastAddress(images, host, least) && ClearHost(images, overrides, host) ==>
      SegmentInPlace(images[host.image].segments[n], images[host.image].slide, overrides, Section(globals, host), least)
  }

  // Every host segment whose guest segments are clear holds every byte of each of them, and every named override, at its place.
  ghost predicate InPlace(images: seq<GuestImage>, overrides: map<nat, Piece>, globals: seq<Global>)
    requires GuestLayout.Named(images)
  {
    forall host: HostSegment, n: nat, least: int :: LaidInPlace(images, overrides, globals, host, n, least)
  }

  lemma ClearHostIs(images: seq<GuestImage>, overrides: map<nat, Piece>, h: HostSegment)
    requires GuestLayout.Named(images) && h.image < |images| && ClearHost(images, overrides, h)
    ensures SoundHost(images, overrides, h.image, h)
  {
    hide GoesInto, EndToEnd, Clear, Sound, Local, EntryFor;
    var image := images[h.image];
    AdjoinIs(images, h.image, h, |image.segments|);
    forall n: nat | n < |image.segments| && Joins(images, h.image, n, h)
      ensures Sound(image.segments[n], Local(image.segments[n], image.slide, overrides))
    {
      GoesIntoIs(images, h.image, n, h);
      assert LaidInto(images, h.image, n, h);
      ClearIs(image.segments[n], image.slide, overrides);
    }
  }

  lemma LaidIntoIs(images: seq<GuestImage>, h: HostSegment, n: nat)
    requires LaidInto(images, h.image, n, h)
    ensures h.image < |images| && n < |images[h.image].segments|
  {
  }

  lemma EmittedInPlace(images: seq<GuestImage>, overrides: map<nat, Piece>, runs: seq<seq<Global>>, pieces: seq<Pieces>,
                       host: HostSegment, n: nat, least: int, a: nat)
    requires GuestLayout.Named(images) && Emissions(overrides, AllEntries(images, |images|), runs, pieces)
    requires LaidInto(images, host.image, n, host) && LeastAddress(images, host, least) && ClearHost(images, overrides, host)
    ensures var s, slide := images[host.image].segments[n], images[host.image].slide;
            CellInPlace(s, slide, overrides, Bytes(Section(Flat(runs), host)), least, a)
  {
    hide ClearHost, SoundHost, LaidInto, LeastAddress, AllEntries, Emissions, Meant, HasToHold, LowestOf, Section, Bytes, Flat;
    hide EntryFor, Emits;
    LaidIntoIs(images, host, n);
    LaidEmits(images, host, n);
    ClearHostIs(images, overrides, host);
    LinesAre(images, host, least);
    var s, slide := images[host.image].segments[n], images[host.image].slide;
    var section := Bytes(Section(Flat(runs), host));
    if s.Contains(a) {
      SegmentAtAddress(images, overrides, AllEntries(images, |images|), runs, pieces, host.image, n, a);
      MeantIs(s, slide, overrides, a, section[a + slide - least]);
    }
  }

  lemma LaidEmits(images: seq<GuestImage>, h: HostSegment, n: nat)
    requires GuestLayout.Named(images) && LaidInto(images, h.image, n, h)
    ensures h.image < |images| && n < |images[h.image].segments| && Emits(images[h.image].segments[n])
    ensures EntryFor(images, h.image, n).host == h
  {
    GoesIntoIs(images, h.image, n, h);
  }

  lemma NamedInPlace(images: seq<GuestImage>, overrides: map<nat, Piece>, runs: seq<seq<Global>>, pieces: seq<Pieces>,
                     host: HostSegment, n: nat, least: int, h: nat, v: nat)
    requires GuestLayout.Named(images) && Emissions(overrides, AllEntries(images, |images|), runs, pieces)
    requires LaidInto(images, host.image, n, host) && LeastAddress(images, host, least) && ClearHost(images, overrides, host)
    requires StartsAt(images[host.image].segments[n], images[host.image].slide, overrides, h, v)
    ensures SymbolInPlace(Section(Flat(runs), host), least, overrides[h], h)
  {
    hide ClearHost, SoundHost, LaidInto, LeastAddress, AllEntries, Emissions, Local, LowestOf, Section, Bytes, Flat;
    hide EntryFor, Emits, First, Valid;
    LaidIntoIs(images, host, n);
    LaidEmits(images, host, n);
    ClearHostIs(images, overrides, host);
    LinesAre(images, host, least);
    var s, slide := images[host.image].segments[n], images[host.image].slide;
    LocalOverrides(s, slide, overrides);
    if overrides[h].global.Some? {
      OverrideAtAddress(images, overrides, AllEntries(images, |images|), runs, pieces, host.image, n, v);
    }
  }

  // Every image's segments, each into its host segment, the non-TEXT ones of an image into one if they adjoin: the entries are
  // those segments in order, and every host segment whose guest segments are clear holds each of them in its place.
  method EmitGuestData(images: seq<GuestImage>, overrides: map<nat, Piece>)
    returns (globals: seq<Global>, out: seq<Entry>, ghost runs: seq<seq<Global>>, ghost pieces: seq<Pieces>)
    requires GuestLayout.Named(images)
    requires forall i, n :: 0 <= i < |images| && 0 <= n < |images[i].segments| ==> Valid(images[i].segments[n], overrides)
    ensures out == AllEntries(images, |images|)
    ensures globals == Flat(runs) && Emissions(overrides, out, runs, pieces)
    ensures InPlace(images, overrides, globals)
  {
    globals, out, runs, pieces := [], [], [], [];
    hide InPlace;
    for i := 0 to |images|
      invariant out == AllEntries(images, i)
      invariant globals == Flat(runs) && Emissions(overrides, out, runs, pieces)
    {
      hide Emissions, Contiguous, Valid;
      globals, out, runs, pieces := EmitImage(images, overrides, i, globals, out, runs, pieces);
    }
    AllInPlace(images, overrides, runs, pieces);
  }

  lemma AllInPlace(images: seq<GuestImage>, overrides: map<nat, Piece>, runs: seq<seq<Global>>, pieces: seq<Pieces>)
    requires GuestLayout.Named(images) && Emissions(overrides, AllEntries(images, |images|), runs, pieces)
    ensures InPlace(images, overrides, Flat(runs))
  {
    hide LaidInPlace, AllEntries, Emissions, Flat;
    forall host: HostSegment, n: nat, least: int ensures LaidInPlace(images, overrides, Flat(runs), host, n, least) {
      OneInPlace(images, overrides, runs, pieces, host, n, least);
    }
  }

  lemma OneInPlace(images: seq<GuestImage>, overrides: map<nat, Piece>, runs: seq<seq<Global>>, pieces: seq<Pieces>,
                   host: HostSegment, n: nat, least: int)
    requires GuestLayout.Named(images) && Emissions(overrides, AllEntries(images, |images|), runs, pieces)
    ensures LaidInPlace(images, overrides, Flat(runs), host, n, least)
  {
    hide ClearHost, LaidInto, LeastAddress, AllEntries, Emissions, Section, Bytes, Flat, CellInPlace, SymbolInPlace, StartsAt;
    if LaidInto(images, host.image, n, host) && LeastAddress(images, host, least) && ClearHost(images, overrides, host) {
      LaidIntoIs(images, host, n);
      LaidSegmentInPlace(images, overrides, runs, pieces, host, n, least);
    }
  }

  lemma LaidSegmentInPlace(images: seq<GuestImage>, overrides: map<nat, Piece>, runs: seq<seq<Global>>, pieces: seq<Pieces>,
                           host: HostSegment, n: nat, least: int)
    requires GuestLayout.Named(images) && Emissions(overrides, AllEntries(images, |images|), runs, pieces)
    requires LaidInto(images, host.image, n, host) && LeastAddress(images, host, least) && ClearHost(images, overrides, host)
    ensures SegmentInPlace(images[host.image].segments[n], images[host.image].slide, overrides, Section(Flat(runs), host), least)
  {
    hide ClearHost, LaidInto, LeastAddress, AllEntries, Emissions, Section, Bytes, Flat, CellInPlace, SymbolInPlace, StartsAt;
    LaidIntoIs(images, host, n);
    var s, slide := images[host.image].segments[n], images[host.image].slide;
    forall a: nat ensures CellInPlace(s, slide, overrides, Bytes(Section(Flat(runs), host)), least, a) {
      EmittedInPlace(images, overrides, runs, pieces, host, n, least, a);
    }
    forall h: nat, v: nat | StartsAt(s, slide, overrides, h, v)
      ensures h in overrides && SymbolInPlace(Section(Flat(runs), host), least, overrides[h], h)
    {
      StartIsOverride(s, slide, overrides, h, v);
      NamedInPlace(images, overrides, runs, pieces, host, n, least, h, v);
    }
  }

  lemma StartIsOverride(s: Segment, slide: int, overrides: map<nat, Piece>, h: nat, v: nat)
    requires StartsAt(s, slide, overrides, h, v)
    ensures h in overrides
  {
  }
}
