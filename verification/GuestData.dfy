/** EmitGuestData: each guest segment is cut into raw runs, slots and overrides and emitted as globals that the host
  * linker lays end to end, every byte at its guest address.
  */
module GuestData {
  import opened Ordering
  import opened Wrappers

  // One emitted byte: a byte of the image, or byte `index` of a constant.
  datatype Cell = Byte(value: bv8) | Part(constant: nat, index: nat)

  type Field = seq<Cell>

  function SlotField(constant: nat): Field {
    seq(8, k requires 0 <= k < 8 => Part(constant, k))
  }

  function Raw(bytes: seq<bv8>): Field {
    seq(|bytes|, k requires 0 <= k < |bytes| => Byte(bytes[k]))
  }

  function Cells(fields: seq<Field>): Field {
    if fields == [] then [] else fields[0] + Cells(fields[1..])
  }

  lemma {:induction false} CellsConcat(a: seq<Field>, b: seq<Field>)
    ensures Cells(a + b) == Cells(a) + Cells(b)
  {
    if a == [] {
      assert a + b == b;
    } else {
      assert (a + b)[0] == a[0] && (a + b)[1..] == a[1..] + b;
      CellsConcat(a[1..], b);
    }
  }

  // A slot, or an override; an override may be a global of its own name.
  datatype Piece = Piece(fields: seq<Field>, size: nat, global: Option<string>)
  {
    ghost predicate Valid() {
      0 < size && |Cells(fields)| == size
    }
  }

  type Pieces = map<nat, Piece>

  datatype Name = Chunk(image: nat, address: nat) | Named(name: string)

  datatype HostSegment = Merged(image: nat) | Own(image: nat, suffix: string)

  datatype Global = Global(name: Name, section: HostSegment, fields: seq<Field>)

  // A segment of vmsize == |bytes|.
  datatype Segment = Segment(name: string, vmaddr: nat, bytes: seq<bv8>, writable: bool, slots: map<nat, nat>)
  {
    function End(): nat {
      vmaddr + |bytes|
    }

    predicate Contains(a: nat) {
      vmaddr <= a < End()
    }
  }

  // The overrides that start in the segment, by guest address; the source keeps them by host address.
  function Local(s: Segment, slide: int, overrides: map<nat, Piece>): (mine: Pieces) {
    map v: nat | s.vmaddr <= v < s.End() && s.Contains(v) && v + slide >= 0 && v + slide in overrides :: overrides[v + slide]
  }

  ghost predicate StartsInside(mine: Pieces, a: nat) {
    exists v :: v in mine && v <= a < v + mine[v].size
  }

  function SlotPiece(constant: nat): Piece {
    Piece([SlotField(constant)], 8, None)
  }

  // What BuildPieces keeps: every override of the segment, and every slot that does not start inside one.
  ghost predicate PiecesOf(slots: map<nat, nat>, mine: Pieces, pieces: Pieces) {
    && (forall v :: v in mine ==> v in pieces && pieces[v] == mine[v])
    && (forall a :: a in slots && !StartsInside(mine, a) ==> a in pieces && pieces[a] == SlotPiece(slots[a]))
    && (forall a :: a in pieces ==> a in mine || (a in slots && !StartsInside(mine, a)))
  }

  ghost predicate Valid(s: Segment, overrides: map<nat, Piece>) {
    && (forall a :: a in s.slots ==> s.Contains(a))
    && (forall h :: h in overrides ==> overrides[h].Valid())
  }

  method BuildPieces(s: Segment, slide: int, overrides: map<nat, Piece>) returns (pieces: Pieces)
    requires Valid(s, overrides)
    ensures PiecesOf(s.slots, Local(s, slide, overrides), pieces)
    ensures AllValid(s, pieces)
  {
    hide PiecesOf, AllValid, Local, Override, SlotPieces, Valid;
    pieces := SlotPieces(s.slots);
    var mine := Local(s, slide, overrides);
    var rest := mine.Keys;
    ghost var taken: Pieces := map[];
    StartPieces(s, slide, overrides);
    while rest != {}
      invariant rest <= mine.Keys && Taken(mine, rest, taken)
      invariant PiecesOf(s.slots, taken, pieces) && AllValid(s, pieces)
      decreases |rest|
    {
      var v := Least(rest);
      OneMore(s, mine, rest, taken, pieces, v);
      pieces := Override(pieces, v, mine[v]);
      taken := taken[v := mine[v]];
      rest := rest - {v};
    }
    assert taken == mine;
  }

  function SlotPieces(slots: map<nat, nat>): Pieces {
    map a | a in slots :: SlotPiece(slots[a])
  }

  lemma StartPieces(s: Segment, slide: int, overrides: map<nat, Piece>)
    requires Valid(s, overrides)
    ensures AllValid(s, SlotPieces(s.slots)) && PiecesOf(s.slots, map[], SlotPieces(s.slots))
    ensures AllValid(s, Local(s, slide, overrides))
  {
    SlotPieceValid();
  }

  // The overrides taken while those of `rest` are still to come, in address order.
  ghost predicate Taken(mine: Pieces, rest: set<nat>, taken: Pieces) {
    && (forall v :: v in taken ==> v in mine && taken[v] == mine[v])
    && (forall v :: v in mine ==> v in taken || v in rest)
    && (forall v, x :: v in taken && x in rest ==> v < x)
  }

  lemma OneMore(s: Segment, mine: Pieces, rest: set<nat>, taken: Pieces, pieces: Pieces, v: nat)
    requires rest <= mine.Keys && v in rest && (forall x :: x in rest ==> v <= x) && Taken(mine, rest, taken)
    requires AllValid(s, mine) && AllValid(s, pieces) && PiecesOf(s.slots, taken, pieces)
    ensures Taken(mine, rest - {v}, taken[v := mine[v]])
    ensures PiecesOf(s.slots, taken[v := mine[v]], Override(pieces, v, mine[v])) && AllValid(s, Override(pieces, v, mine[v]))
  {
    hide PiecesOf;
    OneMoreOverride(s.slots, taken, pieces, v, mine[v]);
  }

  ghost predicate AllValid(s: Segment, pieces: Pieces) {
    forall a :: a in pieces ==> pieces[a].Valid() && s.Contains(a)
  }

  lemma SlotPieceValid()
    ensures forall c :: SlotPiece(c).Valid()
  {
    forall c ensures SlotPiece(c).Valid() {
      assert Cells([SlotField(c)]) == SlotField(c) + Cells([]);
    }
  }

  // Erase what starts inside the override, then put it in.
  function Override(pieces: Pieces, vmaddr: nat, piece: Piece): Pieces {
    (map a | a in pieces && !(vmaddr <= a < vmaddr + piece.size) :: pieces[a])[vmaddr := piece]
  }

  lemma OneMoreOverride(slots: map<nat, nat>, mine: Pieces, pieces: Pieces, v: nat, piece: Piece)
    requires PiecesOf(slots, mine, pieces) && piece.size > 0 && forall g :: g in mine ==> g < v
    ensures PiecesOf(slots, mine[v := piece], Override(pieces, v, piece))
  {
    var after, result := mine[v := piece], Override(pieces, v, piece);
    CoverGrows(mine, v, piece);
    forall a | a in slots && !StartsInside(after, a) ensures a in result && result[a] == SlotPiece(slots[a]) {
      assert !(v <= a < v + piece.size);
    }
  }

  lemma CoverGrows(mine: Pieces, v: nat, piece: Piece)
    requires v !in mine
    ensures forall a: nat :: StartsInside(mine[v := piece], a) <==> StartsInside(mine, a) || v <= a < v + piece.size
  {
    var after := mine[v := piece];
    forall a: nat ensures StartsInside(after, a) <==> StartsInside(mine, a) || v <= a < v + piece.size {
      if StartsInside(mine, a) {
        var g :| g in mine && g <= a < g + mine[g].size;
        assert g in after && after[g] == mine[g];
      }
      assert v in after;
    }
  }

  // Pieces lie apart from each other and inside the segment.
  ghost predicate Disjoint(s: Segment, pieces: Pieces) {
    && (forall p :: p in pieces ==> s.vmaddr <= p && p + pieces[p].size <= s.End())
    && (forall p, q :: p in pieces && q in pieces && p < q ==> p + pieces[p].size <= q)
  }

  ghost predicate IsOrder(pieces: Pieces, keys: seq<nat>) {
    Increasing(keys) && forall a :: a in keys <==> a in pieces
  }

  function RawRun(s: Segment, from: nat, to: nat): (run: Field)
    requires s.vmaddr <= from && to <= s.End()
    ensures |run| == if from < to then to - from else 0
    ensures forall k :: 0 <= k < |run| ==> run[k] == Byte(s.bytes[from + k - s.vmaddr])
  {
    if from < to then Raw(s.bytes[from - s.vmaddr..to - s.vmaddr]) else []
  }

  // The emitted bytes from piece i on, with the cursor at `cursor`.
  ghost function Emitted(s: Segment, pieces: Pieces, keys: seq<nat>, i: nat, cursor: nat): Field
    requires IsOrder(pieces, keys) && AllValid(s, pieces) && i <= |keys| && s.vmaddr <= cursor
    decreases |keys| - i
  {
    if i == |keys| then RawRun(s, cursor, s.End())
    else
      KeyIn(s, pieces, keys, i);
      RawRun(s, cursor, keys[i]) + Cells(pieces[keys[i]].fields) + Emitted(s, pieces, keys, i + 1, keys[i] + pieces[keys[i]].size)
  }

  lemma KeyIn(s: Segment, pieces: Pieces, keys: seq<nat>, i: nat)
    requires IsOrder(pieces, keys) && AllValid(s, pieces) && i < |keys|
    ensures keys[i] in pieces && pieces[keys[i]].Valid() && s.Contains(keys[i])
  {
    assert keys[i] in keys;
  }

  // What the guest is to find at address `a`: the piece that covers it, else the image's own byte.
  ghost function At(s: Segment, pieces: Pieces, a: nat): Cell
    requires AllValid(s, pieces) && s.Contains(a)
  {
    if p: nat :| p in pieces && p <= a < p + pieces[p].size then Cells(pieces[p].fields)[a - p] else Byte(s.bytes[a - s.vmaddr])
  }

  // The pieces from i on lie apart, from `cursor` up and inside the segment.
  ghost predicate RestApart(s: Segment, pieces: Pieces, keys: seq<nat>, i: nat, cursor: nat)
    requires IsOrder(pieces, keys) && AllValid(s, pieces) && i <= |keys|
    decreases |keys| - i
  {
    if i == |keys| then cursor <= s.End()
    else
      KeyIn(s, pieces, keys, i);
      cursor <= keys[i] && RestApart(s, pieces, keys, i + 1, keys[i] + pieces[keys[i]].size)
  }

  // Emission never loses a byte, and its length is right exactly when the pieces lie apart and inside.
  lemma {:induction false} LengthExact(s: Segment, pieces: Pieces, keys: seq<nat>, i: nat, cursor: nat)
    requires IsOrder(pieces, keys) && AllValid(s, pieces) && i <= |keys| && s.vmaddr <= cursor
    ensures |Emitted(s, pieces, keys, i, cursor)| >= s.End() - cursor
    ensures |Emitted(s, pieces, keys, i, cursor)| == s.End() - cursor <==> RestApart(s, pieces, keys, i, cursor)
    decreases |keys| - i
  {
    hide RawRun, Cells;
    if i < |keys| {
      EmittedStep(s, pieces, keys, i, cursor);
      LengthExact(s, pieces, keys, i + 1, keys[i] + pieces[keys[i]].size);
    }
  }

  lemma EmittedStep(s: Segment, pieces: Pieces, keys: seq<nat>, i: nat, cursor: nat)
    requires IsOrder(pieces, keys) && AllValid(s, pieces) && i < |keys| && s.vmaddr <= cursor
    ensures keys[i] in pieces && pieces[keys[i]].Valid() && s.Contains(keys[i])
    ensures Emitted(s, pieces, keys, i, cursor) ==
      RawRun(s, cursor, keys[i]) + Cells(pieces[keys[i]].fields) + Emitted(s, pieces, keys, i + 1, keys[i] + pieces[keys[i]].size)
    ensures |Emitted(s, pieces, keys, i, cursor)| ==
      |RawRun(s, cursor, keys[i])| + pieces[keys[i]].size + |Emitted(s, pieces, keys, i + 1, keys[i] + pieces[keys[i]].size)|
  {
    hide RawRun, Cells, AllValid, IsOrder;
    KeyIn(s, pieces, keys, i);
  }

  lemma {:induction false} ApartIsDisjoint(s: Segment, pieces: Pieces, keys: seq<nat>, i: nat, cursor: nat)
    requires IsOrder(pieces, keys) && AllValid(s, pieces) && i <= |keys|
    ensures RestApart(s, pieces, keys, i, cursor) ==>
      && cursor <= s.End()
      && (forall j :: i <= j < |keys| ==> cursor <= keys[j] && keys[j] in pieces && keys[j] + pieces[keys[j]].size <= s.End())
      && (forall j, k :: i <= j < k < |keys| ==> keys[j] in pieces && keys[j] + pieces[keys[j]].size <= keys[k])
    decreases |keys| - i
  {
    if i < |keys| {
      KeyIn(s, pieces, keys, i);
      ApartIsDisjoint(s, pieces, keys, i + 1, keys[i] + pieces[keys[i]].size);
    }
  }

  lemma {:induction false} DisjointIsApart(s: Segment, pieces: Pieces, keys: seq<nat>, i: nat, cursor: nat)
    requires IsOrder(pieces, keys) && AllValid(s, pieces) && i <= |keys| && Disjoint(s, pieces)
    requires cursor <= s.End() && (i < |keys| ==> cursor <= keys[i])
    ensures RestApart(s, pieces, keys, i, cursor)
    decreases |keys| - i
  {
    if i < |keys| {
      KeyIn(s, pieces, keys, i);
      if i + 1 < |keys| {
        KeyIn(s, pieces, keys, i + 1);
      }
      DisjointIsApart(s, pieces, keys, i + 1, keys[i] + pieces[keys[i]].size);
    }
  }

  // The emitted size is the segment's exactly when the pieces are disjoint and inside it.
  lemma SizeExact(s: Segment, pieces: Pieces, keys: seq<nat>)
    requires IsOrder(pieces, keys) && AllValid(s, pieces)
    ensures |Emitted(s, pieces, keys, 0, s.vmaddr)| == |s.bytes| <==> Disjoint(s, pieces)
  {
    LengthExact(s, pieces, keys, 0, s.vmaddr);
    if RestApart(s, pieces, keys, 0, s.vmaddr) {
      ApartIsDisjoint(s, pieces, keys, 0, s.vmaddr);
      forall p, q | p in pieces && q in pieces && p < q ensures p + pieces[p].size <= q {
        var j :| 0 <= j < |keys| && keys[j] == p;
        var k :| 0 <= k < |keys| && keys[k] == q;
      }
    }
    if Disjoint(s, pieces) {
      ApartFromStart(s, pieces, keys);
    }
  }

  lemma ApartFromStart(s: Segment, pieces: Pieces, keys: seq<nat>)
    requires IsOrder(pieces, keys) && AllValid(s, pieces) && Disjoint(s, pieces)
    ensures RestApart(s, pieces, keys, 0, s.vmaddr)
  {
    if |keys| > 0 {
      KeyIn(s, pieces, keys, 0);
    }
    DisjointIsApart(s, pieces, keys, 0, s.vmaddr);
  }

  // Every byte lands at its guest address.
  lemma {:induction false} EmittedAt(s: Segment, pieces: Pieces, keys: seq<nat>, i: nat, cursor: nat, a: nat)
    requires IsOrder(pieces, keys) && AllValid(s, pieces) && i <= |keys| && s.vmaddr <= cursor <= a < s.End()
    requires Disjoint(s, pieces) && RestApart(s, pieces, keys, i, cursor)
    requires forall j :: 0 <= j < i ==> keys[j] in pieces && keys[j] + pieces[keys[j]].size <= cursor
    ensures |Emitted(s, pieces, keys, i, cursor)| == s.End() - cursor
    ensures Emitted(s, pieces, keys, i, cursor)[a - cursor] == At(s, pieces, a)
    decreases |keys| - i
  {
    hide RawRun, Cells, At, AllValid, Disjoint;
    LengthExact(s, pieces, keys, i, cursor);
    if i < |keys| {
      EmittedStep(s, pieces, keys, i, cursor);
      var next := keys[i] + pieces[keys[i]].size;
      LengthExact(s, pieces, keys, i + 1, next);
      if a < keys[i] {
        NotCovered(s, pieces, keys, i, cursor, a);
      } else if a < next {
        OnlyCover(s, pieces, keys[i], a);
      } else {
        EmittedAt(s, pieces, keys, i + 1, next, a);
      }
    } else {
      NotCovered(s, pieces, keys, i, cursor, a);
    }
  }

  lemma OnlyCover(s: Segment, pieces: Pieces, p: nat, a: nat)
    requires AllValid(s, pieces) && Disjoint(s, pieces) && s.Contains(a) && p in pieces && p <= a < p + pieces[p].size
    ensures At(s, pieces, a) == Cells(pieces[p].fields)[a - p]
  {
  }

  lemma NotCovered(s: Segment, pieces: Pieces, keys: seq<nat>, i: nat, cursor: nat, a: nat)
    requires IsOrder(pieces, keys) && AllValid(s, pieces) && s.Contains(a) && i <= |keys| && cursor <= a
    requires forall j :: 0 <= j < i ==> keys[j] in pieces && keys[j] + pieces[keys[j]].size <= cursor
    requires i < |keys| ==> a < keys[i]
    ensures At(s, pieces, a) == Byte(s.bytes[a - s.vmaddr])
  {
    forall p: nat | p in pieces ensures !(p <= a < p + pieces[p].size) {
      KeyAfter(keys, i, p);
    }
  }

  lemma KeyAfter(keys: seq<nat>, i: nat, p: nat)
    requires Increasing(keys) && p in keys && i <= |keys|
    ensures (exists j :: 0 <= j < i && keys[j] == p) || (i < |keys| && keys[i] <= p)
  {
  }

  // The bytes of globals laid end to end.
  function Bytes(globals: seq<Global>): Field {
    if globals == [] then [] else Cells(globals[0].fields) + Bytes(globals[1..])
  }

  lemma {:induction false} BytesConcat(a: seq<Global>, b: seq<Global>)
    ensures Bytes(a + b) == Bytes(a) + Bytes(b)
  {
    if a == [] {
      assert a + b == b;
    } else {
      assert (a + b)[0] == a[0] && (a + b)[1..] == a[1..] + b;
      BytesConcat(a[1..], b);
    }
  }

  lemma BytesSnoc(a: seq<Global>, g: Global)
    ensures Bytes(a + [g]) == Bytes(a) + Cells(g.fields)
  {
    BytesConcat(a, [g]);
    assert Bytes([g]) == Cells(g.fields) + Bytes([]);
  }

  lemma CellsSnoc(a: seq<Field>, f: Field)
    ensures Cells(a + [f]) == Cells(a) + f
  {
    CellsConcat(a, [f]);
    assert Cells([f]) == f + Cells([]);
  }

  // Which override globals have to be where.
  datatype Names = Names(image: nat, slide: int, overrides: map<nat, Piece>)
  {
    predicate Has(at: nat, name: string, fields: seq<Field>) {
      && at + slide >= 0 && at + slide in overrides
      && overrides[at + slide].global == Some(name) && overrides[at + slide].fields == fields
    }
  }

  // A chunk is named by its image and its own start.
  ghost predicate NameFits(names: Names, g: Global, at: nat) {
    match g.name
    case Chunk(i, a) => i == names.image && a == at
    case Named(n) => names.Has(at, n, g.fields)
  }

  // Laid end to end from guest address `at`, every global is where its name says.
  ghost predicate NamesExact(names: Names, globals: seq<Global>, at: nat) {
    globals == [] || (NameFits(names, globals[0], at) && NamesExact(names, globals[1..], at + |Cells(globals[0].fields)|))
  }

  lemma {:induction false} NamesConcat(names: Names, a: seq<Global>, b: seq<Global>, at: nat)
    ensures NamesExact(names, a + b, at) <==> NamesExact(names, a, at) && NamesExact(names, b, at + |Bytes(a)|)
    decreases |a|
  {
    if a == [] {
      assert a + b == b;
    } else {
      assert (a + b)[0] == a[0] && (a + b)[1..] == a[1..] + b;
      NamesConcat(names, a[1..], b, at + |Cells(a[0].fields)|);
    }
  }

  lemma NamesSnoc(names: Names, a: seq<Global>, g: Global, at: nat)
    requires NamesExact(names, a, at) && NameFits(names, g, at + |Bytes(a)|)
    ensures NamesExact(names, a + [g], at)
  {
    NamesConcat(names, a, [g], at);
    assert NamesExact(names, [g][1..], at + |Bytes(a)| + |Cells(g.fields)|);
  }

  lemma NamedPieces(s: Segment, image: nat, slide: int, overrides: map<nat, Piece>, pieces: Pieces, v: nat)
    requires PiecesOf(s.slots, Local(s, slide, overrides), pieces) && v in pieces && pieces[v].global.Some?
    ensures Names(image, slide, overrides).Has(v, pieces[v].global.value, pieces[v].fields)
  {
  }

  // Laid end to end from guest address `at`, a global of this name and these fields stands at `v`.
  ghost predicate HasSymbol(globals: seq<Global>, at: nat, v: nat, name: string, fields: seq<Field>) {
    exists k :: 0 <= k < |globals| && globals[k].name == Named(name) && globals[k].fields == fields
                && at + |Bytes(globals[..k])| == v
  }

  // Every override that is a global of its own is there under its name.
  ghost predicate Symbols(mine: Pieces, globals: seq<Global>, at: nat) {
    forall v :: v in mine && mine[v].global.Some? ==> HasSymbol(globals, at, v, mine[v].global.value, mine[v].fields)
  }

  lemma SymbolStays(a: seq<Global>, b: seq<Global>, at: nat, v: nat, name: string, fields: seq<Field>)
    requires HasSymbol(a, at, v, name, fields)
    ensures HasSymbol(a + b, at, v, name, fields)
  {
    var k :| 0 <= k < |a| && a[k].name == Named(name) && a[k].fields == fields && at + |Bytes(a[..k])| == v;
    assert (a + b)[..k] == a[..k] && (a + b)[k] == a[k];
  }

  lemma SymbolMoves(a: seq<Global>, b: seq<Global>, at: nat, v: nat, name: string, fields: seq<Field>)
    requires HasSymbol(b, at + |Bytes(a)|, v, name, fields)
    ensures HasSymbol(a + b, at, v, name, fields)
  {
    var k :| 0 <= k < |b| && b[k].name == Named(name) && b[k].fields == fields && at + |Bytes(a)| + |Bytes(b[..k])| == v;
    BytesConcat(a, b[..k]);
    assert (a + b)[..|a| + k] == a + b[..k] && (a + b)[|a| + k] == b[k];
  }

  lemma SymbolAdded(a: seq<Global>, g: Global, at: nat)
    requires g.name.Named?
    ensures HasSymbol(a + [g], at, at + |Bytes(a)|, g.name.name, g.fields)
  {
    assert (a + [g])[..|a|] == a;
  }

  // The named pieces among the first i.
  ghost predicate Placed(pieces: Pieces, keys: seq<nat>, i: nat, globals: seq<Global>, at: nat)
    requires IsOrder(pieces, keys)
  {
    forall j :: 0 <= j < i && j < |keys| && keys[j] in pieces && pieces[keys[j]].global.Some? ==>
      HasSymbol(globals, at, keys[j], pieces[keys[j]].global.value, pieces[keys[j]].fields)
  }

  lemma PlacedMore(pieces: Pieces, keys: seq<nat>, i: nat, before: seq<Global>, globals: seq<Global>, at: nat)
    requires IsOrder(pieces, keys) && Placed(pieces, keys, i, before, at) && before <= globals && i < |keys|
    requires keys[i] in pieces && pieces[keys[i]].global.Some? ==>
      HasSymbol(globals, at, keys[i], pieces[keys[i]].global.value, pieces[keys[i]].fields)
    ensures Placed(pieces, keys, i + 1, globals, at)
  {
    hide HasSymbol, IsOrder;
    assert globals == before + globals[|before|..];
    forall j | 0 <= j < i && keys[j] in pieces && pieces[keys[j]].global.Some?
      ensures HasSymbol(globals, at, keys[j], pieces[keys[j]].global.value, pieces[keys[j]].fields)
    {
      SymbolStays(before, globals[|before|..], at, keys[j], pieces[keys[j]].global.value, pieces[keys[j]].fields);
    }
  }

  lemma AllPlaced(s: Segment, mine: Pieces, pieces: Pieces, keys: seq<nat>, before: seq<Global>, globals: seq<Global>, at: nat)
    requires PiecesOf(s.slots, mine, pieces) && IsOrder(pieces, keys) && Placed(pieces, keys, |keys|, before, at)
    requires before <= globals
    ensures Symbols(mine, globals, at)
  {
    hide HasSymbol;
    assert globals == before + globals[|before|..];
    forall v | v in mine && mine[v].global.Some?
      ensures HasSymbol(globals, at, v, mine[v].global.value, mine[v].fields)
    {
      assert v in pieces && pieces[v] == mine[v];
      var j :| 0 <= j < |keys| && keys[j] == v;
      SymbolStays(before, globals[|before|..], at, v, mine[v].global.value, mine[v].fields);
    }
  }

  // The emitter of one segment, at rest: closed globals, the open chunk's fields, and where they stand.
  datatype Emitter = Emitter(globals: seq<Global>, fields: seq<Field>, cursor: nat, chunkStart: nat)
  {
    function Written(): Field {
      Bytes(globals) + Cells(fields)
    }
  }

  ghost predicate InSection(globals: seq<Global>, host: HostSegment) {
    forall g :: g in globals ==> g.section == host
  }

  // Nothing has drifted: the open chunk starts where the closed globals end, and the cursor is past both.
  ghost predicate OnCourse(names: Names, start: nat, e: Emitter) {
    && e.chunkStart == start + |Bytes(e.globals)| && e.cursor == start + |e.Written()|
    && NamesExact(names, e.globals, start)
  }

  method CloseChunk(e: Emitter, image: nat, host: HostSegment, ghost names: Names, ghost start: nat)
    returns (closed: Emitter)
    requires InSection(e.globals, host) && names.image == image
    ensures closed.Written() == e.Written() == Bytes(closed.globals) && closed.fields == [] && InSection(closed.globals, host)
    ensures e.globals <= closed.globals
    ensures OnCourse(names, start, e) ==> NamesExact(names, closed.globals, start) && start + |Bytes(closed.globals)| == e.cursor
  {
    if e.fields == [] {
      return e;
    }
    var g := Global(Chunk(image, e.chunkStart), host, e.fields);
    closed := e.(globals := e.globals + [g], fields := []);
    BytesSnoc(e.globals, g);
    if OnCourse(names, start, e) {
      NamesSnoc(names, e.globals, g, start);
    }
  }

  method Flush(s: Segment, e: Emitter, until: nat, ghost names: Names, ghost start: nat) returns (flushed: Emitter)
    requires s.vmaddr <= e.cursor && until <= s.End()
    ensures flushed.Written() == e.Written() + RawRun(s, e.cursor, until)
    ensures flushed.globals == e.globals
    ensures flushed.cursor == if e.cursor < until then until else e.cursor
    ensures OnCourse(names, start, e) ==> OnCourse(names, start, flushed)
  {
    flushed := e;
    if until > e.cursor {
      var run := RawRun(s, e.cursor, until);
      flushed := e.(fields := e.fields + [run], cursor := until);
      CellsSnoc(e.fields, run);
    }
  }

  method Place(e: Emitter, vmaddr: nat, piece: Piece, image: nat, host: HostSegment, ghost names: Names,
               ghost start: nat)
    returns (placed: Emitter)
    requires piece.Valid() && InSection(e.globals, host) && names.image == image
    requires piece.global.Some? ==> names.Has(vmaddr, piece.global.value, piece.fields)
    ensures placed.Written() == e.Written() + Cells(piece.fields) && placed.cursor == vmaddr + piece.size
    ensures InSection(placed.globals, host)
    ensures OnCourse(names, start, e) && e.cursor == vmaddr ==> OnCourse(names, start, placed)
    ensures e.globals <= placed.globals
    ensures OnCourse(names, start, e) && e.cursor == vmaddr && piece.global.Some? ==>
      HasSymbol(placed.globals, start, vmaddr, piece.global.value, piece.fields)
  {
    if piece.global.Some? {
      var closed := CloseChunk(e, image, host, names, start);
      var g := Global(Named(piece.global.value), host, piece.fields);
      placed := Emitter(closed.globals + [g], [], vmaddr + piece.size, vmaddr + piece.size);
      BytesSnoc(closed.globals, g);
      SymbolAdded(closed.globals, g, start);
      if OnCourse(names, start, e) && e.cursor == vmaddr {
        NamesSnoc(names, closed.globals, g, start);
      }
    } else {
      placed := e.(fields := e.fields + piece.fields, cursor := vmaddr + piece.size);
      CellsConcat(e.fields, piece.fields);
    }
  }

  // What is written and what is still to come make up the whole; if the pieces are disjoint, nothing has drifted.
  ghost predicate Standing(s: Segment, pieces: Pieces, keys: seq<nat>, names: Names, host: HostSegment, i: nat, e: Emitter)
    requires IsOrder(pieces, keys) && AllValid(s, pieces)
  {
    && i <= |keys| && s.vmaddr <= e.cursor && InSection(e.globals, host)
    && e.Written() + Emitted(s, pieces, keys, i, e.cursor) == Emitted(s, pieces, keys, 0, s.vmaddr)
    && (Disjoint(s, pieces) ==>
          OnCourse(names, s.vmaddr, e) && RestApart(s, pieces, keys, i, e.cursor) && Placed(pieces, keys, i, e.globals, s.vmaddr))
  }

  lemma StartsStanding(s: Segment, pieces: Pieces, keys: seq<nat>, names: Names, host: HostSegment)
    requires IsOrder(pieces, keys) && AllValid(s, pieces)
    ensures Standing(s, pieces, keys, names, host, 0, Emitter([], [], s.vmaddr, s.vmaddr))
  {
    assert [] + Emitted(s, pieces, keys, 0, s.vmaddr) == Emitted(s, pieces, keys, 0, s.vmaddr);
    SizeExact(s, pieces, keys);
    LengthExact(s, pieces, keys, 0, s.vmaddr);
  }

  method EmitPiece(s: Segment, pieces: Pieces, ghost keys: seq<nat>, vmaddr: nat, image: nat, host: HostSegment,
                   ghost names: Names, ghost i: nat, e: Emitter)
    returns (after: Emitter)
    requires IsOrder(pieces, keys) && AllValid(s, pieces) && Standing(s, pieces, keys, names, host, i, e)
    requires i < |keys| && vmaddr == keys[i] && vmaddr in pieces
    requires pieces[vmaddr].global.Some? ==> names.Has(vmaddr, pieces[vmaddr].global.value, pieces[vmaddr].fields)
    requires names.image == image
    ensures Standing(s, pieces, keys, names, host, i + 1, after)
  {
    hide RawRun, Cells, Bytes, AllValid, Disjoint, OnCourse, Emitter.Written, HasSymbol, Placed;
    EmittedStep(s, pieces, keys, i, e.cursor);
    var flushed := Flush(s, e, vmaddr, names, s.vmaddr);
    after := Place(flushed, vmaddr, pieces[vmaddr], image, host, names, s.vmaddr);
    if Disjoint(s, pieces) {
      PlacedMore(pieces, keys, i, e.globals, after.globals, s.vmaddr);
    }
  }

  // One segment: its bytes in order, cut at the overrides that are globals of their own, each of which is there under its name.
  method EmitSegment(s: Segment, slide: int, overrides: map<nat, Piece>, image: nat, host: HostSegment)
    returns (globals: seq<Global>, pieces: Pieces, ghost keys: seq<nat>)
    requires Valid(s, overrides)
    ensures PiecesOf(s.slots, Local(s, slide, overrides), pieces) && AllValid(s, pieces) && IsOrder(pieces, keys)
    ensures Bytes(globals) == Emitted(s, pieces, keys, 0, s.vmaddr) && InSection(globals, host)
    ensures Disjoint(s, pieces) ==>
      NamesExact(Names(image, slide, overrides), globals, s.vmaddr) && Symbols(Local(s, slide, overrides), globals, s.vmaddr)
  {
    hide Symbols, Standing, PiecesOf, Local, AllValid, Disjoint, NamesExact, Emitted;
    pieces := BuildPieces(s, slide, overrides);
    var order := Sorted(pieces.Keys);
    keys := order;
    ghost var names := Names(image, slide, overrides);
    var e := Emitter([], [], s.vmaddr, s.vmaddr);
    StartsStanding(s, pieces, keys, names, host);
    var i := 0;
    while i < |order|
      invariant 0 <= i <= |keys| && order == keys
      invariant Standing(s, pieces, keys, names, host, i, e)
    {
      KeyIn(s, pieces, keys, i);
      var vmaddr := order[i];
      if pieces[vmaddr].global.Some? {
        NamedPieces(s, image, slide, overrides, pieces, vmaddr);
      }
      e := EmitPiece(s, pieces, keys, vmaddr, image, host, names, i, e);
      i := i + 1;
    }
    globals := FinishSegment(s, Local(s, slide, overrides), pieces, keys, image, host, names, e);
  }

  method FinishSegment(s: Segment, ghost mine: Pieces, ghost pieces: Pieces, ghost keys: seq<nat>, image: nat, host: HostSegment,
                       ghost names: Names, e: Emitter)
    returns (globals: seq<Global>)
    requires IsOrder(pieces, keys) && AllValid(s, pieces) && Standing(s, pieces, keys, names, host, |keys|, e)
    requires PiecesOf(s.slots, mine, pieces) && names.image == image
    ensures Bytes(globals) == Emitted(s, pieces, keys, 0, s.vmaddr) && InSection(globals, host)
    ensures Disjoint(s, pieces) ==> NamesExact(names, globals, s.vmaddr) && Symbols(mine, globals, s.vmaddr)
  {
    hide AllValid, Disjoint, PiecesOf, Placed, Symbols;
    var flushed := Flush(s, e, s.End(), names, s.vmaddr);
    var closed := CloseChunk(flushed, image, host, names, s.vmaddr);
    globals := closed.globals;
    if Disjoint(s, pieces) {
      AllPlaced(s, mine, pieces, keys, e.globals, globals, s.vmaddr);
    }
  }

  ghost predicate Kept(s: Segment, mine: Pieces, a: nat) {
    a in s.slots && !StartsInside(mine, a)
  }

  // What a segment's slots and overrides have to be for every byte to land at its address: overrides apart and inside
  // the segment, and every slot that does not start inside an override clear of the next override and slot.
  ghost predicate Sound(s: Segment, mine: Pieces) {
    && Disjoint(s, mine)
    && (forall a: nat :: Kept(s, mine, a) ==> a + 8 <= s.End())
    && (forall a: nat, v :: Kept(s, mine, a) && v in mine ==> !(a < v < a + 8))
    && (forall a: nat, b: nat :: Kept(s, mine, a) && Kept(s, mine, b) && a < b ==> a + 8 <= b)
  }

  lemma SoundIsDisjoint(s: Segment, mine: Pieces, pieces: Pieces)
    requires PiecesOf(s.slots, mine, pieces) && AllValid(s, pieces) && forall v :: v in mine ==> mine[v].size > 0
    ensures Sound(s, mine) <==> Disjoint(s, pieces)
  {
    if Disjoint(s, pieces) {
      DisjointIsSound(s, mine, pieces);
    }
    if Sound(s, mine) {
      forall p, q | p in pieces && q in pieces && p < q ensures p + pieces[p].size <= q {
        Apart(s, mine, pieces, p, q);
      }
      forall p | p in pieces ensures s.vmaddr <= p && p + pieces[p].size <= s.End() {
        assert p in mine || Kept(s, mine, p);
      }
    }
  }

  lemma DisjointIsSound(s: Segment, mine: Pieces, pieces: Pieces)
    requires PiecesOf(s.slots, mine, pieces) && AllValid(s, pieces) && Disjoint(s, pieces)
    ensures Sound(s, mine)
  {
    forall a: nat | Kept(s, mine, a) ensures a in pieces && pieces[a].size == 8 {}
    forall v | v in mine ensures v in pieces && pieces[v].size == mine[v].size {}
  }

  lemma Apart(s: Segment, mine: Pieces, pieces: Pieces, p: nat, q: nat)
    requires PiecesOf(s.slots, mine, pieces) && Sound(s, mine) && p in pieces && q in pieces && p < q
    ensures p + pieces[p].size <= q
  {
    if q in mine {
      assert p in mine || Kept(s, mine, p);
    } else {
      assert Kept(s, mine, q) && !StartsInside(mine, q);
      assert p in mine || Kept(s, mine, p);
    }
  }

  // Override, else slot, else the image's own byte.
  lemma AtMeaning(s: Segment, mine: Pieces, pieces: Pieces, a: nat)
    requires PiecesOf(s.slots, mine, pieces) && AllValid(s, pieces) && Disjoint(s, pieces) && s.Contains(a)
    ensures forall v :: v in mine && v <= a < v + mine[v].size ==>
      a - v < |Cells(mine[v].fields)| && At(s, pieces, a) == Cells(mine[v].fields)[a - v]
    ensures forall b: nat :: Kept(s, mine, b) && b <= a < b + 8 ==> At(s, pieces, a) == Part(s.slots[b], a - b)
    ensures !StartsInside(mine, a) && (forall b: nat :: Kept(s, mine, b) ==> !(b <= a < b + 8)) ==>
      At(s, pieces, a) == Byte(s.bytes[a - s.vmaddr])
  {
    forall v | v in mine && v <= a < v + mine[v].size
      ensures a - v < |Cells(mine[v].fields)| && At(s, pieces, a) == Cells(mine[v].fields)[a - v]
    {
      OnlyCover(s, pieces, v, a);
    }
    forall b: nat | Kept(s, mine, b) && b <= a < b + 8 ensures At(s, pieces, a) == Part(s.slots[b], a - b) {
      OnlyCover(s, pieces, b, a);
      assert Cells([SlotField(s.slots[b])]) == SlotField(s.slots[b]) + Cells([]);
    }
    if !StartsInside(mine, a) && forall b: nat :: Kept(s, mine, b) ==> !(b <= a < b + 8) {
      forall p: nat | p in pieces ensures !(p <= a < p + pieces[p].size) {
        if p !in mine {
          assert Kept(s, mine, p);
        }
      }
    }
  }

  // One segment, from its slots and overrides to the linked bytes: exact exactly when they are sound.
  lemma SegmentExact(s: Segment, mine: Pieces, pieces: Pieces, keys: seq<nat>)
    requires PiecesOf(s.slots, mine, pieces) && AllValid(s, pieces) && IsOrder(pieces, keys)
    requires forall v :: v in mine ==> mine[v].size > 0
    ensures |Emitted(s, pieces, keys, 0, s.vmaddr)| == |s.bytes| <==> Sound(s, mine)
    ensures Sound(s, mine) ==> forall a: nat :: s.Contains(a) ==>
      && a - s.vmaddr < |Emitted(s, pieces, keys, 0, s.vmaddr)|
      && Emitted(s, pieces, keys, 0, s.vmaddr)[a - s.vmaddr] == At(s, pieces, a)
  {
    hide PiecesOf, AllValid, IsOrder, Emitted, Sound, Disjoint, At, RestApart;
    SizeExact(s, pieces, keys);
    SoundIsDisjoint(s, mine, pieces);
    if Sound(s, mine) {
      ApartFromStart(s, pieces, keys);
      LengthExact(s, pieces, keys, 0, s.vmaddr);
      forall a: nat | s.Contains(a)
        ensures a - s.vmaddr < |Emitted(s, pieces, keys, 0, s.vmaddr)|
        ensures Emitted(s, pieces, keys, 0, s.vmaddr)[a - s.vmaddr] == At(s, pieces, a)
      {
        EmittedAt(s, pieces, keys, 0, s.vmaddr, a);
      }
    }
  }

  // A slot that straddles an override's start pushes every later byte up.
  lemma StraddlingSlotShifts()
    ensures var s := Segment("__DATA", 0, seq(16, _ => 0), true, map[0 := 7]);
            var mine := map[4 := Piece([SlotField(9)], 8, None)];
            !Sound(s, mine) && forall pieces, keys ::
              PiecesOf(s.slots, mine, pieces) && AllValid(s, pieces) && IsOrder(pieces, keys) ==>
              |Emitted(s, pieces, keys, 0, s.vmaddr)| > |s.bytes|
  {
    var s := Segment("__DATA", 0, seq(16, _ => 0), true, map[0 := 7]);
    var mine := map[4 := Piece([SlotField(9)], 8, None)];
    assert Kept(s, mine, 0) && 4 in mine;
    forall pieces, keys | PiecesOf(s.slots, mine, pieces) && AllValid(s, pieces) && IsOrder(pieces, keys)
      ensures |Emitted(s, pieces, keys, 0, s.vmaddr)| > |s.bytes|
    {
      SegmentExact(s, mine, pieces, keys);
      LengthExact(s, pieces, keys, 0, s.vmaddr);
    }
  }
}
