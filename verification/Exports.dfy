/** Name resolution over the images of a program: which address answers a symbol asked of a library, over re-exports that may
  * run in circles, and why the order of the images does not matter to it.
  */
module Exports {
  import opened Wrappers

  const MAX_DEPTH: nat := 8

  datatype Sent = Sent(library: string, symbol: string)

  // An image: its exports with their host addresses, the names it sends elsewhere, the libraries it re-exports whole.
  datatype Image = Image(path: string, installName: string, exports: map<string, nat>, reexports: map<string, Sent>,
                         reexportedLibraries: seq<string>)

  datatype Book = Book(images: seq<Image>, bridges: seq<Image>, byName: map<string, Image>, replaced: map<string, Image>)

  const Empty := Book([], [], map[], map[])

  // --- the book ---

  function Added(b: Book, image: Image, bridge: bool): Option<Book> {
    if image.installName != "" && image.installName in b.byName then None
    else Some(Book(b.images + [image],
                   if bridge then b.bridges + [image] else b.bridges,
                   if image.installName != "" then b.byName[image.installName := image] else b.byName,
                   b.replaced))
  }

  function WithReplaced(b: Book, library: string, image: Image): Option<Book> {
    if library in b.byName || library in b.replaced then None
    else Some(b.(replaced := b.replaced[library := image]))
  }

  datatype Input = Input(image: Image, bridge: bool)

  function AllAdded(inputs: seq<Input>): Option<Book> {
    if inputs == [] then Some(Empty)
    else
      var last := inputs[|inputs| - 1];
      match AllAdded(inputs[..|inputs| - 1])
      case None => None
      case Some(b) => Added(b, last.image, last.bridge)
  }

  datatype Claim = Claim(library: string, image: Image)

  function AllReplaced(b: Book, claims: seq<Claim>): Option<Book> {
    if claims == [] then Some(b)
    else
      var last := claims[|claims| - 1];
      match AllReplaced(b, claims[..|claims| - 1])
      case None => None
      case Some(c) => WithReplaced(c, last.library, last.image)
  }

  function ImageOf(b: Book, library: string): Option<Image> {
    if library in b.replaced then Some(b.replaced[library])
    else if library in b.byName then Some(b.byName[library])
    else None
  }

  // --- lookup ---

  function FirstExport(images: seq<Image>, symbol: string): Option<nat> {
    if images == [] then None
    else if symbol in images[0].exports then Some(images[0].exports[symbol])
    else FirstExport(images[1..], symbol)
  }

  function Answer(b: Book, library: string, symbol: string, depth: nat): Option<nat>
    requires depth <= MAX_DEPTH
    decreases MAX_DEPTH - depth, 1, 0
  {
    if library == "" then FirstExport(b.images, symbol)
    else match ImageOf(b, library)
      case None => FirstExport(b.bridges, symbol)
      case Some(image) =>
        if symbol in image.exports then Some(image.exports[symbol])
        else
          var sent := AnswerSent(b, image, symbol, depth);
          if sent.Some? then sent
          else
            var whole := AnswerWhole(b, image.reexportedLibraries, symbol, depth);
            if whole.Some? then whole else FirstExport(b.bridges, symbol)
  }

  function AnswerSent(b: Book, image: Image, symbol: string, depth: nat): Option<nat>
    requires depth <= MAX_DEPTH
    decreases MAX_DEPTH - depth, 0, 0
  {
    if symbol in image.reexports && depth < MAX_DEPTH then
      Answer(b, image.reexports[symbol].library, image.reexports[symbol].symbol, depth + 1)
    else None
  }

  function AnswerWhole(b: Book, libraries: seq<string>, symbol: string, depth: nat): Option<nat>
    requires depth <= MAX_DEPTH
    decreases MAX_DEPTH - depth, 0, |libraries|
  {
    if libraries == [] || depth == MAX_DEPTH then None
    else
      var first := if ImageOf(b, libraries[0]).Some? then Answer(b, libraries[0], symbol, depth + 1) else None;
      if first.Some? then first else AnswerWhole(b, libraries[1..], symbol, depth)
  }

  class GuestExports {
    var images: seq<Image>
    var bridges: seq<Image>
    var byName: map<string, Image>
    var replaced: map<string, Image>
    var reported: set<string>

    function Contents(): Book
      reads this
    {
      Book(images, bridges, byName, replaced)
    }

    constructor ()
      ensures Contents() == Empty && reported == {}
    {
      images, bridges, byName, replaced, reported := [], [], map[], map[], {};
    }

    // Enters an image, under its install name if it has one. Refused, with the book as it was, if the name is taken.
    method Add(image: Image, bridge: bool) returns (ok: bool)
      modifies this
      ensures ok <==> Added(old(Contents()), image, bridge).Some?
      ensures Contents() == if ok then Added(old(Contents()), image, bridge).value else old(Contents())
      ensures reported == old(reported)
    {
      if image.installName != "" {
        if image.installName in byName {
          return false;
        }
        byName := byName[image.installName := image];
      }
      images := images + [image];
      if bridge {
        bridges := bridges + [image];
      }
      return true;
    }

    // Lets an image stand for a library. Refused, with the book as it was, if something else answers to that name already.
    method Replace(library: string, image: Image) returns (ok: bool)
      modifies this
      ensures ok <==> WithReplaced(old(Contents()), library, image).Some?
      ensures Contents() == if ok then WithReplaced(old(Contents()), library, image).value else old(Contents())
      ensures reported == old(reported)
    {
      if library in byName || library in replaced {
        return false;
      }
      replaced := replaced[library := image];
      return true;
    }

    // Only libraries that are no image are reported.
    method Find(library: string, symbol: string, depth: nat) returns (r: Option<nat>)
      requires depth <= MAX_DEPTH
      modifies this`reported
      ensures r == Answer(Contents(), library, symbol, depth)
      ensures old(reported) <= reported
      ensures forall l :: l in reported ==> l in old(reported) || (l != "" && ImageOf(Contents(), l).None?)
      ensures library != "" && ImageOf(Contents(), library).None? ==> library in reported
      decreases MAX_DEPTH - depth
    {
      if library == "" {
        r := First(images, symbol);
        return;
      }
      var image := ImageOf(Contents(), library);
      if image.Some? {
        if symbol in image.value.exports {
          return Some(image.value.exports[symbol]);
        }
        if symbol in image.value.reexports && depth < MAX_DEPTH {
          var sent := image.value.reexports[symbol];
          r := Find(sent.library, sent.symbol, depth + 1);
          if r.Some? {
            return;
          }
        }
        if depth < MAX_DEPTH {
          var libraries := image.value.reexportedLibraries;
          var i := 0;
          while i < |libraries|
            invariant i <= |libraries|
            invariant AnswerWhole(Contents(), libraries, symbol, depth) == AnswerWhole(Contents(), libraries[i..], symbol, depth)
            invariant old(reported) <= reported
            invariant forall l :: l in reported ==> l in old(reported) || (l != "" && ImageOf(Contents(), l).None?)
          {
            if ImageOf(Contents(), libraries[i]).Some? {
              r := Find(libraries[i], symbol, depth + 1);
              if r.Some? {
                return;
              }
            }
            i := i + 1;
          }
        }
      } else {
        reported := reported + {library};
      }
      r := First(bridges, symbol);
    }

    method First(among: seq<Image>, symbol: string) returns (r: Option<nat>)
      ensures r == FirstExport(among, symbol)
    {
      var i := 0;
      while i < |among|
        invariant i <= |among| && FirstExport(among, symbol) == FirstExport(among[i..], symbol)
      {
        if symbol in among[i].exports {
          return Some(among[i].exports[symbol]);
        }
        i := i + 1;
      }
      return None;
    }
  }

  // --- what answers a named query ---

  // Every re-export names its library.
  ghost predicate Named(b: Book) {
    forall library :: ImageOf(b, library).Some? ==>
      var image := ImageOf(b, library).value;
      && (forall symbol :: symbol in image.reexports ==> image.reexports[symbol].library != "")
      && "" !in image.reexportedLibraries
  }

  datatype Query = Query(library: string, symbol: string)

  // One re-export step: the image does not export the symbol itself, and sends it or re-exports a whole library.
  ghost predicate Step(b: Book, q: Query, r: Query) {
    && ImageOf(b, q.library).Some?
    && var image := ImageOf(b, q.library).value;
       && q.symbol !in image.exports
       && (|| (q.symbol in image.reexports && r == Query(image.reexports[q.symbol].library, image.reexports[q.symbol].symbol))
           || (r.library in image.reexportedLibraries && ImageOf(b, r.library).Some? && r.symbol == q.symbol))
  }

  ghost predicate Route(b: Book, route: seq<Query>) {
    route != [] && forall i, j :: 0 <= i && j == i + 1 < |route| ==> Step(b, route[i], route[j])
  }

  // An address the image a query names exports its symbol at.
  ghost predicate OwnExport(b: Book, q: Query, address: nat) {
    && ImageOf(b, q.library).Some?
    && q.symbol in ImageOf(b, q.library).value.exports && ImageOf(b, q.library).value.exports[q.symbol] == address
  }

  ghost predicate Offers(b: Book, q: Query, address: nat) {
    OwnExport(b, q, address) || FirstExport(b.bridges, q.symbol) == Some(address)
  }

  // A route from a query, no longer than the steps left, to one that offers the address.
  ghost predicate Leads(b: Book, q: Query, depth: nat, route: seq<Query>, address: nat) {
    Route(b, route) && route[0] == q && |route| - 1 + depth <= 8 && Offers(b, route[|route| - 1], address)
  }

  lemma RouteFrom(b: Book, q: Query, depth: nat, route: seq<Query>, address: nat)
    requires depth < MAX_DEPTH && route != [] && Step(b, q, route[0]) && Leads(b, route[0], depth + 1, route, address)
    ensures Leads(b, q, depth, [q] + route, address)
  {
    var all := [q] + route;
    forall i, j | 0 <= i && j == i + 1 < |all|
      ensures Step(b, all[i], all[j])
    {
      if i > 0 {
        assert Step(b, route[i - 1], route[i]);
      }
    }
  }

  // An answer is the export of an image reached in at most eight re-export steps, or a bridge's.
  lemma {:induction false} AnsweredByRoute(b: Book, q: Query, depth: nat) returns (route: seq<Query>)
    requires Named(b) && q.library != "" && depth <= MAX_DEPTH && Answer(b, q.library, q.symbol, depth).Some?
    ensures Leads(b, q, depth, route, Answer(b, q.library, q.symbol, depth).value)
    decreases MAX_DEPTH - depth, 1, 0
  {
    route := [q];
    var image := ImageOf(b, q.library);
    if image.Some? && q.symbol !in image.value.exports {
      var sent := AnswerSent(b, image.value, q.symbol, depth);
      if sent.Some? {
        var to := image.value.reexports[q.symbol];
        var rest := AnsweredByRoute(b, Query(to.library, to.symbol), depth + 1);
        RouteFrom(b, q, depth, rest, sent.value);
        route := [q] + rest;
      } else if AnswerWhole(b, image.value.reexportedLibraries, q.symbol, depth).Some? {
        var rest := WholeByRoute(b, image.value.reexportedLibraries, q.symbol, depth);
        RouteFrom(b, q, depth, rest, AnswerWhole(b, image.value.reexportedLibraries, q.symbol, depth).value);
        route := [q] + rest;
      }
    }
  }

  lemma {:induction false} WholeByRoute(b: Book, libraries: seq<string>, symbol: string, depth: nat) returns (route: seq<Query>)
    requires Named(b) && "" !in libraries && depth <= MAX_DEPTH && AnswerWhole(b, libraries, symbol, depth).Some?
    ensures route != [] && route[0].library in libraries && ImageOf(b, route[0].library).Some? && route[0].symbol == symbol
    ensures depth < MAX_DEPTH && Leads(b, route[0], depth + 1, route, AnswerWhole(b, libraries, symbol, depth).value)
    decreases MAX_DEPTH - depth, 0, |libraries|
  {
    if ImageOf(b, libraries[0]).Some? && Answer(b, libraries[0], symbol, depth + 1).Some? {
      route := AnsweredByRoute(b, Query(libraries[0], symbol), depth + 1);
    } else {
      route := WholeByRoute(b, libraries[1..], symbol, depth);
    }
  }

  // A query some route answers is answered.
  lemma {:induction false} RouteIsAnswered(b: Book, q: Query, depth: nat, route: seq<Query>, address: nat)
    requires Named(b) && q.library != "" && depth <= MAX_DEPTH && Leads(b, q, depth, route, address)
    ensures Answer(b, q.library, q.symbol, depth).Some?
    decreases |route|
  {
    if |route| > 1 {
      var rest := route[1..];
      assert Step(b, q, route[1]);
      assert Route(b, rest) by {
        forall i, j | 0 <= i && j == i + 1 < |rest|
          ensures Step(b, rest[i], rest[j])
        {
          assert Step(b, route[i + 1], route[j + 1]);
        }
      }
      RouteIsAnswered(b, route[1], depth + 1, rest, address);
      var image := ImageOf(b, q.library).value;
      if q.symbol !in image.reexports || route[1] != Query(image.reexports[q.symbol].library, image.reexports[q.symbol].symbol) {
        WholeIsAnswered(b, image.reexportedLibraries, route[1].library, route[1].symbol, depth);
      }
    }
  }

  lemma {:induction false} WholeIsAnswered(b: Book, libraries: seq<string>, library: string, symbol: string, depth: nat)
    requires depth < MAX_DEPTH && library in libraries && ImageOf(b, library).Some?
    requires Answer(b, library, symbol, depth + 1).Some?
    ensures AnswerWhole(b, libraries, symbol, depth).Some?
    decreases |libraries|
  {
    if libraries[0] != library {
      WholeIsAnswered(b, libraries[1..], library, symbol, depth);
    }
  }

  // A query with a library is answered exactly where some image within eight re-export steps exports what it is sent for, or
  // a bridge does; and by one of those.
  lemma AnsweredExactly(b: Book, q: Query)
    requires Named(b) && q.library != ""
    ensures Answer(b, q.library, q.symbol, 0).Some? <==> exists route, address :: Leads(b, q, 0, route, address)
    ensures Answer(b, q.library, q.symbol, 0).Some? ==>
      exists route :: Leads(b, q, 0, route, Answer(b, q.library, q.symbol, 0).value)
  {
    if Answer(b, q.library, q.symbol, 0).Some? {
      var route := AnsweredByRoute(b, q, 0);
    }
    if route, address :| Leads(b, q, 0, route, address) {
      RouteIsAnswered(b, q, 0, route, address);
    }
  }

  // --- which of several answers ---

  // `r` is where the first of the images that export the symbol has it.
  ghost predicate FirstAmong(images: seq<Image>, symbol: string, r: Option<nat>) {
    match r
    case None => forall i :: 0 <= i < |images| ==> symbol !in images[i].exports
    case Some(address) => exists i :: 0 <= i < |images| && FirstAt(images, symbol, i) && images[i].exports[symbol] == address
  }

  ghost predicate FirstAt(images: seq<Image>, symbol: string, i: nat) {
    i < |images| && symbol in images[i].exports && forall j :: 0 <= j < i ==> symbol !in images[j].exports
  }

  lemma {:induction false} FirstIs(images: seq<Image>, symbol: string, r: Option<nat>)
    ensures FirstExport(images, symbol) == r <==> FirstAmong(images, symbol, r)
  {
    if images != [] {
      if symbol in images[0].exports {
        assert FirstAt(images, symbol, 0);
      } else {
        FirstIs(images[1..], symbol, r);
        forall i: nat ensures FirstAt(images, symbol, i) <==> i > 0 && FirstAt(images[1..], symbol, i - 1) {
          FirstFurther(images, symbol, i);
        }
        hide FirstAt;
        if r.Some? && FirstAmong(images[1..], symbol, r) {
          var i :| 0 <= i < |images[1..]| && FirstAt(images[1..], symbol, i) && images[1..][i].exports[symbol] == r.value;
          assert FirstAt(images, symbol, i + 1);
        }
      }
    }
  }

  lemma FirstFurther(images: seq<Image>, symbol: string, i: nat)
    requires images != [] && symbol !in images[0].exports
    ensures FirstAt(images, symbol, i) <==> i > 0 && FirstAt(images[1..], symbol, i - 1)
  {
    if i > 0 && FirstAt(images[1..], symbol, i - 1) {
      forall j | 0 <= j < i ensures symbol !in images[j].exports {
        if j > 0 {
          assert images[1..][j - 1] == images[j];
        }
      }
    }
  }

  // The image that answers to a library: the one that stands for it, else the one of that install name.
  predicate AnswersTo(b: Book, library: string, image: Image) {
    if library in b.replaced then b.replaced[library] == image else library in b.byName && b.byName[library] == image
  }

  // An answer to every query, by library, symbol and steps taken.
  type Answers = (string, string, nat) -> Option<nat>

  // What an image sends elsewhere is answered there.
  ghost predicate SentAnswered(image: Image, answers: Answers, symbol: string, depth: nat) {
    && symbol in image.reexports && depth < 8
    && answers(image.reexports[symbol].library, image.reexports[symbol].symbol, depth + 1).Some?
  }

  // Library i of those an image re-exports whole is some image's and answers.
  ghost predicate WholeAnswered(b: Book, libraries: seq<string>, answers: Answers, symbol: string, depth: nat, i: nat) {
    && i < |libraries| && depth < 8 && (exists image :: AnswersTo(b, libraries[i], image))
    && answers(libraries[i], symbol, depth + 1).Some?
  }

  ghost predicate FirstWhole(b: Book, libraries: seq<string>, answers: Answers, symbol: string, depth: nat, i: nat) {
    WholeAnswered(b, libraries, answers, symbol, depth, i)
    && forall j: nat :: j < i ==> !WholeAnswered(b, libraries, answers, symbol, depth, j)
  }

  // An image's own export comes before what it sends elsewhere, that before the first library it re-exports whole that
  // answers, and that before the bridges.
  ghost predicate ByImage(b: Book, image: Image, answers: Answers, symbol: string, depth: nat, r: Option<nat>) {
    if symbol in image.exports then r == Some(image.exports[symbol])
    else if SentAnswered(image, answers, symbol, depth) then
      r == answers(image.reexports[symbol].library, image.reexports[symbol].symbol, depth + 1)
    else
      var libraries := image.reexportedLibraries;
      && (forall i: nat :: FirstWhole(b, libraries, answers, symbol, depth, i) ==> r == answers(libraries[i], symbol, depth + 1))
      && ((forall i: nat :: !WholeAnswered(b, libraries, answers, symbol, depth, i)) ==> FirstAmong(b.bridges, symbol, r))
  }

  // A query without a library goes to the images in order, and one no image answers to goes to the bridges.
  ghost predicate Obeys(b: Book, answers: Answers, library: string, symbol: string, depth: nat) {
    var r := answers(library, symbol, depth);
    if library == "" then FirstAmong(b.images, symbol, r)
    else
      && (forall image :: AnswersTo(b, library, image) ==> ByImage(b, image, answers, symbol, depth, r))
      && ((forall image :: !AnswersTo(b, library, image)) ==> FirstAmong(b.bridges, symbol, r))
  }

  // The answers there are.
  ghost function Given(b: Book): Answers {
    (library: string, symbol: string, depth: nat) => if depth <= MAX_DEPTH then Answer(b, library, symbol, depth) else None
  }

  lemma AnswersToIs(b: Book, library: string, image: Image)
    ensures AnswersTo(b, library, image) <==> ImageOf(b, library) == Some(image)
  {
  }

  lemma {:induction false} FirstWholeIs(b: Book, libraries: seq<string>, symbol: string, depth: nat, i: nat)
    requires depth < MAX_DEPTH && FirstWhole(b, libraries, Given(b), symbol, depth, i)
    ensures AnswerWhole(b, libraries, symbol, depth) == Given(b)(libraries[i], symbol, depth + 1)
    decreases i
  {
    hide Answer;
    WholeFirst(b, libraries, symbol, depth);
    if i > 0 {
      assert !WholeAnswered(b, libraries, Given(b), symbol, depth, 0);
      forall j: nat ensures WholeAnswered(b, libraries[1..], Given(b), symbol, depth, j) <==>
                            WholeAnswered(b, libraries, Given(b), symbol, depth, j + 1) {}
      FirstWholeIs(b, libraries[1..], symbol, depth, i - 1);
    }
  }

  lemma WholeFirst(b: Book, libraries: seq<string>, symbol: string, depth: nat)
    requires depth < MAX_DEPTH && libraries != []
    ensures AnswerWhole(b, libraries, symbol, depth) ==
            if WholeAnswered(b, libraries, Given(b), symbol, depth, 0) then Given(b)(libraries[0], symbol, depth + 1)
            else AnswerWhole(b, libraries[1..], symbol, depth)
  {
    hide Answer;
    forall image ensures AnswersTo(b, libraries[0], image) <==> ImageOf(b, libraries[0]) == Some(image) {
      AnswersToIs(b, libraries[0], image);
    }
    hide AnswersTo, ImageOf;
    if ImageOf(b, libraries[0]).Some? {
      assert AnswersTo(b, libraries[0], ImageOf(b, libraries[0]).value);
    }
  }

  lemma {:induction false} NoneWhole(b: Book, libraries: seq<string>, symbol: string, depth: nat)
    requires depth <= MAX_DEPTH && forall i: nat :: !WholeAnswered(b, libraries, Given(b), symbol, depth, i)
    ensures AnswerWhole(b, libraries, symbol, depth) == None
    decreases |libraries|
  {
    if depth < MAX_DEPTH && libraries != [] {
      WholeFirst(b, libraries, symbol, depth);
      forall j: nat ensures !WholeAnswered(b, libraries[1..], Given(b), symbol, depth, j) {
        assert !WholeAnswered(b, libraries, Given(b), symbol, depth, j + 1);
      }
      NoneWhole(b, libraries[1..], symbol, depth);
    }
  }

  lemma GivenObeys(b: Book, library: string, symbol: string, depth: nat)
    requires depth <= MAX_DEPTH
    ensures Obeys(b, Given(b), library, symbol, depth)
  {
    FirstIs(b.images, symbol, FirstExport(b.images, symbol));
    FirstIs(b.bridges, symbol, FirstExport(b.bridges, symbol));
    hide FirstAmong, ByImage, AnswersTo, ImageOf;
    forall image ensures AnswersTo(b, library, image) <==> ImageOf(b, library) == Some(image) {
      AnswersToIs(b, library, image);
    }
    if library != "" && ImageOf(b, library).Some? {
      GivenByImage(b, library, ImageOf(b, library).value, symbol, depth);
    }
    if ImageOf(b, library).Some? {
      assert AnswersTo(b, library, ImageOf(b, library).value);
    }
  }

  lemma GivenByImage(b: Book, library: string, image: Image, symbol: string, depth: nat)
    requires depth <= MAX_DEPTH && library != "" && ImageOf(b, library) == Some(image)
    ensures ByImage(b, image, Given(b), symbol, depth, Given(b)(library, symbol, depth))
  {
    var libraries, r := image.reexportedLibraries, Given(b)(library, symbol, depth);
    GivenIs(b, library, image, symbol, depth);
    hide FirstAmong, FirstWhole, WholeAnswered, Given, Answer, AnswerWhole, AnswerSent, SentAnswered, ImageOf;
    forall i: nat | FirstWhole(b, libraries, Given(b), symbol, depth, i)
      ensures i < |libraries| && depth < MAX_DEPTH && Given(b)(libraries[i], symbol, depth + 1).Some?
      ensures AnswerWhole(b, libraries, symbol, depth) == Given(b)(libraries[i], symbol, depth + 1)
    {
      WholeIs(b, libraries, Given(b), symbol, depth, i);
      FirstWholeIs(b, libraries, symbol, depth, i);
    }
    if forall i: nat :: !WholeAnswered(b, libraries, Given(b), symbol, depth, i) {
      NoneWhole(b, libraries, symbol, depth);
    }
    SentIs(image, Given(b), symbol, depth);
  }

  lemma SentIs(image: Image, answers: Answers, symbol: string, depth: nat)
    ensures SentAnswered(image, answers, symbol, depth) ==> symbol in image.reexports
  {
  }

  lemma GivenIs(b: Book, library: string, image: Image, symbol: string, depth: nat)
    requires depth <= MAX_DEPTH && library != "" && ImageOf(b, library) == Some(image)
    ensures var r := Given(b)(library, symbol, depth);
            if symbol in image.exports then r == Some(image.exports[symbol])
            else if SentAnswered(image, Given(b), symbol, depth) then
              symbol in image.reexports
              && r == Given(b)(image.reexports[symbol].library, image.reexports[symbol].symbol, depth + 1)
            else if AnswerWhole(b, image.reexportedLibraries, symbol, depth).Some? then
              r == AnswerWhole(b, image.reexportedLibraries, symbol, depth)
            else FirstAmong(b.bridges, symbol, r)
  {
    FirstIs(b.bridges, symbol, FirstExport(b.bridges, symbol));
    hide FirstAmong, AnswerWhole, ImageOf;
    var r := Given(b)(library, symbol, depth);
    assert r == Answer(b, library, symbol, depth);
    if symbol !in image.exports {
      var sent := AnswerSent(b, image, symbol, depth);
      if symbol in image.reexports && depth < MAX_DEPTH {
        var there := Given(b)(image.reexports[symbol].library, image.reexports[symbol].symbol, depth + 1);
        assert sent == there;
        assert SentAnswered(image, Given(b), symbol, depth) <==> there.Some?;
      } else {
        assert sent == None && !SentAnswered(image, Given(b), symbol, depth);
      }
      hide Given, AnswerSent, SentAnswered;
      assert sent.Some? ==> r == sent;
    }
  }

  lemma WholeIs(b: Book, libraries: seq<string>, answers: Answers, symbol: string, depth: nat, i: nat)
    requires FirstWhole(b, libraries, answers, symbol, depth, i)
    ensures i < |libraries| && depth < 8 && answers(libraries[i], symbol, depth + 1).Some?
  {
  }

  lemma {:induction false} SomeFirstWhole(b: Book, libraries: seq<string>, answers: Answers, symbol: string, depth: nat, i: nat)
    returns (k: nat)
    requires WholeAnswered(b, libraries, answers, symbol, depth, i)
    ensures FirstWhole(b, libraries, answers, symbol, depth, k)
    decreases i
  {
    hide WholeAnswered;
    if j: nat :| j < i && WholeAnswered(b, libraries, answers, symbol, depth, j) {
      k := SomeFirstWhole(b, libraries, answers, symbol, depth, j);
    } else {
      k := i;
    }
  }

  predicate Agree(x: Answers, y: Answers, library: string, symbol: string, depth: nat) {
    x(library, symbol, depth) == y(library, symbol, depth)
  }

  ghost predicate AgreeAt(x: Answers, y: Answers, depth: nat) {
    forall library, symbol :: Agree(x, y, library, symbol, depth)
  }

  lemma ByImageIsOne(b: Book, image: Image, x: Answers, y: Answers, symbol: string, depth: nat, r: Option<nat>, q: Option<nat>)
    requires depth < 8 ==> AgreeAt(x, y, depth + 1)
    requires ByImage(b, image, x, symbol, depth, r) && ByImage(b, image, y, symbol, depth, q)
    ensures r == q
  {
    FirstIs(b.bridges, symbol, r);
    FirstIs(b.bridges, symbol, q);
    var libraries := image.reexportedLibraries;
    if symbol in image.reexports && depth < 8 {
      assert Agree(x, y, image.reexports[symbol].library, image.reexports[symbol].symbol, depth + 1);
    }
    forall i: nat | i < |libraries| && depth < 8
      ensures x(libraries[i], symbol, depth + 1) == y(libraries[i], symbol, depth + 1)
    {
      assert Agree(x, y, libraries[i], symbol, depth + 1);
    }
    forall i: nat
      ensures WholeAnswered(b, libraries, x, symbol, depth, i) <==> WholeAnswered(b, libraries, y, symbol, depth, i)
    {
    }
    hide FirstAmong, WholeAnswered, AnswersTo;
    if i: nat :| WholeAnswered(b, libraries, x, symbol, depth, i) {
      var k := SomeFirstWhole(b, libraries, x, symbol, depth, i);
      WholeIs(b, libraries, x, symbol, depth, k);
      assert FirstWhole(b, libraries, y, symbol, depth, k);
    }
  }

  // They are the only ones that obey.
  lemma {:induction false} AnswersAreOne(b: Book, x: Answers, y: Answers, library: string, symbol: string, depth: nat)
    requires depth <= 8
    requires forall l, s, d: nat :: d <= 8 ==> Obeys(b, x, l, s, d) && Obeys(b, y, l, s, d)
    ensures x(library, symbol, depth) == y(library, symbol, depth)
    decreases 8 - depth
  {
    if depth < 8 {
      var next := depth + 1;
      forall l, s ensures Agree(x, y, l, s, next) {
        AnswersAreOne(b, x, y, l, s, next);
      }
    }
    assert Obeys(b, x, library, symbol, depth) && Obeys(b, y, library, symbol, depth);
    var r, q := x(library, symbol, depth), y(library, symbol, depth);
    FirstIs(b.images, symbol, r);
    FirstIs(b.images, symbol, q);
    FirstIs(b.bridges, symbol, r);
    FirstIs(b.bridges, symbol, q);
    hide FirstAmong, AnswersTo, ByImage;
    if image :| AnswersTo(b, library, image) {
      if library != "" {
        ByImageIsOne(b, image, x, y, symbol, depth, r, q);
      }
    }
  }

  // --- the order of the images ---

  function BridgesOf(inputs: seq<Input>): seq<Image> {
    if inputs == [] then []
    else
      var last := inputs[|inputs| - 1];
      BridgesOf(inputs[..|inputs| - 1]) + if last.bridge then [last.image] else []
  }

  lemma {:induction false} BridgesAre(inputs: seq<Input>)
    ensures forall image :: image in BridgesOf(inputs) <==> Input(image, true) in inputs
    ensures forall i, j :: 0 <= i < j < |inputs| && inputs[i].bridge && inputs[j].bridge ==>
      exists k, m :: 0 <= k < m < |BridgesOf(inputs)| && BridgesOf(inputs)[k] == inputs[i].image
                     && BridgesOf(inputs)[m] == inputs[j].image
  {
    if inputs != [] {
      var n := |inputs| - 1;
      var before, last := inputs[..n], inputs[n];
      BridgesAre(before);
      forall image ensures image in BridgesOf(inputs) <==> Input(image, true) in inputs {
        assert Input(image, true) in inputs <==> Input(image, true) in before || Input(image, true) == last;
      }
      forall i, j | 0 <= i < j < |inputs| && inputs[i].bridge && inputs[j].bridge
        ensures exists k, m :: 0 <= k < m < |BridgesOf(inputs)| && BridgesOf(inputs)[k] == inputs[i].image
                               && BridgesOf(inputs)[m] == inputs[j].image
      {
        if j == n {
          assert before[i] in before && before[i] == Input(inputs[i].image, true);
          var k :| 0 <= k < |BridgesOf(before)| && BridgesOf(before)[k] == inputs[i].image;
          assert BridgesOf(inputs)[k] == inputs[i].image && BridgesOf(inputs)[|BridgesOf(before)|] == inputs[j].image;
        } else {
          assert before[i] == inputs[i] && before[j] == inputs[j];
          var k, m :| 0 <= k < m < |BridgesOf(before)| && BridgesOf(before)[k] == inputs[i].image
                      && BridgesOf(before)[m] == inputs[j].image;
          assert BridgesOf(inputs)[k] == inputs[i].image && BridgesOf(inputs)[m] == inputs[j].image;
        }
      }
    }
  }

  // No claim is for a library that something answers to, or that another claims.
  ghost predicate Claimable(b: Book, claims: seq<Claim>) {
    && (forall i :: 0 <= i < |claims| ==> claims[i].library !in b.byName && claims[i].library !in b.replaced)
    && (forall i, j :: 0 <= i < j < |claims| ==> claims[i].library != claims[j].library)
  }

  // What was replaced before, and each claim.
  ghost predicate Claimed(b: Book, claims: seq<Claim>, replaced: map<string, Image>) {
    && (forall library :: library in replaced ==>
          library in b.replaced || exists i :: 0 <= i < |claims| && claims[i].library == library)
    && (forall i :: 0 <= i < |claims| ==> claims[i].library in replaced && replaced[claims[i].library] == claims[i].image)
    && (forall library :: library in b.replaced ==> library in replaced && replaced[library] == b.replaced[library])
  }

  // All claims are taken exactly where they can be, and then each holds.
  lemma {:induction false} ReplacedExactly(b: Book, claims: seq<Claim>)
    ensures AllReplaced(b, claims).Some? <==> Claimable(b, claims)
    ensures AllReplaced(b, claims).Some? ==>
            var r := AllReplaced(b, claims).value;
            r == b.(replaced := r.replaced) && Claimed(b, claims, r.replaced)
  {
    if claims != [] {
      var n := |claims| - 1;
      ReplacedExactly(b, claims[..n]);
      if AllReplaced(b, claims[..n]).Some? {
        ClaimMore(b, claims, AllReplaced(b, claims[..n]).value.replaced);
      } else {
        ClaimableBefore(b, claims);
      }
    }
  }

  lemma ClaimableBefore(b: Book, claims: seq<Claim>)
    requires claims != []
    ensures Claimable(b, claims) ==> Claimable(b, claims[..|claims| - 1])
  {
  }

  lemma ClaimMore(b: Book, claims: seq<Claim>, replaced: map<string, Image>)
    requires claims != [] && Claimable(b, claims[..|claims| - 1]) && Claimed(b, claims[..|claims| - 1], replaced)
    ensures var last := claims[|claims| - 1];
            && (Claimable(b, claims) <==> last.library !in b.byName && last.library !in replaced)
            && (last.library !in replaced ==> Claimed(b, claims, replaced[last.library := last.image]))
  {
    var n := |claims| - 1;
    forall i | 0 <= i < n ensures claims[..n][i] == claims[i] {}
    var last := claims[n];
    if last.library in replaced && last.library !in b.replaced {
      var i :| 0 <= i < n && claims[..n][i].library == last.library;
      assert claims[i].library == claims[n].library;
    }
  }

  ghost predicate DistinctNames(inputs: seq<Input>) {
    forall i, j :: 0 <= i < j < |inputs| && inputs[i].image.installName != "" ==>
      inputs[i].image.installName != inputs[j].image.installName
  }

  // The names are those of the inputs, each its own.
  ghost predicate NamesOf(inputs: seq<Input>, byName: map<string, Image>) {
    && (forall x :: x in inputs && x.image.installName != "" ==>
          x.image.installName in byName && byName[x.image.installName] == x.image)
    && (forall name :: name in byName ==> name != "" && exists x :: x in inputs && x.image.installName == name)
  }

  // Adding them all works exactly where no two have one install name.
  lemma {:induction false} AddedExactly(inputs: seq<Input>)
    ensures AllAdded(inputs).Some? <==> DistinctNames(inputs)
    ensures AllAdded(inputs).Some? ==>
      var b := AllAdded(inputs).value;
      && NamesOf(inputs, b.byName) && b.bridges == BridgesOf(inputs) && b.replaced == map[]
      && b.images == seq(|inputs|, i requires 0 <= i < |inputs| => inputs[i].image)
  {
    hide DistinctNames, NamesOf;
    if inputs == [] {
      NoNames();
    } else {
      var n := |inputs| - 1;
      var before, last := inputs[..n], inputs[n];
      AddedExactly(before);
      assert inputs == before + [last];
      DistinctBefore(before, last);
      if AllAdded(before).Some? {
        var b := AllAdded(before).value;
        DistinctMore(before, last, b.byName);
        if Added(b, last.image, last.bridge).Some? {
          MoreNames(before, last, b.byName);
        }
      }
    }
  }

  lemma NoNames()
    ensures DistinctNames([]) && NamesOf([], map[])
  {
  }

  lemma DistinctBefore(before: seq<Input>, last: Input)
    ensures DistinctNames(before + [last]) ==> DistinctNames(before)
  {
    var all := before + [last];
    assert forall i :: 0 <= i < |before| ==> all[i] == before[i];
  }

  lemma DistinctMore(before: seq<Input>, last: Input, byName: map<string, Image>)
    requires DistinctNames(before) && NamesOf(before, byName)
    ensures DistinctNames(before + [last]) <==> last.image.installName == "" || last.image.installName !in byName
  {
    var all, n, name := before + [last], |before|, last.image.installName;
    if name != "" && name in byName {
      var x :| x in before && x.image.installName == name;
      var i :| 0 <= i < n && before[i] == x;
      assert all[i].image.installName == all[n].image.installName;
    } else {
      forall i, j | 0 <= i < j < |all| && all[i].image.installName != ""
        ensures all[i].image.installName != all[j].image.installName
      {
        assert before[i] in before;
        if j < n {
          assert before[j].image.installName != before[i].image.installName;
        }
      }
    }
  }

  lemma MoreNames(before: seq<Input>, last: Input, byName: map<string, Image>)
    requires NamesOf(before, byName) && (last.image.installName != "" ==> last.image.installName !in byName)
    ensures NamesOf(before + [last],
                    if last.image.installName != "" then byName[last.image.installName := last.image] else byName)
  {
    var names := if last.image.installName != "" then byName[last.image.installName := last.image] else byName;
    var all := before + [last];
    assert last in all;
    forall name | name in names
      ensures name != "" && exists x :: x in all && x.image.installName == name
    {
      if name in byName {
        var x :| x in before && x.image.installName == name;
        assert x in all;
      }
    }
  }

  lemma {:induction false} TwicePlaced<T>(s: seq<T>, x: T)
    requires multiset(s)[x] >= 2
    ensures exists i, j :: 0 <= i < j < |s| && s[i] == x && s[j] == x
  {
    var n := |s| - 1;
    assert s == s[..n] + [s[n]];
    if s[n] == x {
      assert x in multiset(s[..n]);
      assert x in s[..n];
      var i :| 0 <= i < n && s[..n][i] == x;
      assert s[i] == x && s[n] == x;
    } else {
      TwicePlaced(s[..n], x);
      var i, j :| 0 <= i < j < n && s[..n][i] == x && s[..n][j] == x;
      assert s[i] == x && s[j] == x;
    }
  }

  // Two places of one arrangement are two places of any other.
  lemma PlacesElsewhere<T>(ys: seq<T>, i: nat, j: nat, xs: seq<T>) returns (k: nat, l: nat)
    requires multiset(xs) == multiset(ys) && i < j < |ys|
    ensures k < |xs| && l < |xs| && k != l && xs[k] == ys[i] && xs[l] == ys[j]
  {
    if ys[i] == ys[j] {
      assert ys == ys[..j] + [ys[j]] + ys[j + 1..];
      assert ys[..j][i] in multiset(ys[..j]);
      TwicePlaced(xs, ys[j]);
      k, l :| k < l < |xs| && xs[k] == ys[j] && xs[l] == ys[j];
    } else {
      assert ys[i] in multiset(xs) && ys[j] in multiset(xs);
      k :| k < |xs| && xs[k] == ys[i];
      l :| l < |xs| && xs[l] == ys[j];
    }
  }

  lemma DistinctInAnyOrder(xs: seq<Input>, ys: seq<Input>)
    requires multiset(xs) == multiset(ys) && DistinctNames(xs)
    ensures DistinctNames(ys)
  {
    forall i, j | 0 <= i < j < |ys| && ys[i].image.installName != ""
      ensures ys[i].image.installName != ys[j].image.installName
    {
      var k, l := PlacesElsewhere(ys, i, j, xs);
      if l < k {
        assert xs[l].image.installName == "" || xs[l].image.installName != xs[k].image.installName;
      }
    }
  }

  lemma SameNames(xs: seq<Input>, ys: seq<Input>, a: map<string, Image>, b: map<string, Image>)
    requires multiset(xs) == multiset(ys) && NamesOf(xs, a) && NamesOf(ys, b)
    ensures a == b
  {
    forall x
      ensures x in xs <==> x in ys
    {
      assert x in multiset(xs) <==> x in multiset(ys);
    }
    assert forall name :: name in a <==> name in b;
    forall name | name in a
      ensures a[name] == b[name]
    {
      var x :| x in xs && x.image.installName == name;
    }
  }

  // Two books alike but for the order of their images.
  ghost predicate Alike(a: Book, b: Book) {
    a.bridges == b.bridges && a.byName == b.byName && a.replaced == b.replaced
  }

  lemma {:induction false} SameAnswer(a: Book, b: Book, library: string, symbol: string, depth: nat)
    requires Alike(a, b) && Named(a) && library != "" && depth <= MAX_DEPTH
    ensures Answer(a, library, symbol, depth) == Answer(b, library, symbol, depth)
    decreases MAX_DEPTH - depth, 1, 0
  {
    var image := ImageOf(a, library);
    if image.Some? {
      if symbol in image.value.reexports && depth < MAX_DEPTH {
        SameAnswer(a, b, image.value.reexports[symbol].library, image.value.reexports[symbol].symbol, depth + 1);
      }
      SameWhole(a, b, image.value.reexportedLibraries, symbol, depth);
    }
  }

  lemma {:induction false} SameWhole(a: Book, b: Book, libraries: seq<string>, symbol: string, depth: nat)
    requires Alike(a, b) && Named(a) && "" !in libraries && depth <= MAX_DEPTH
    ensures AnswerWhole(a, libraries, symbol, depth) == AnswerWhole(b, libraries, symbol, depth)
    decreases MAX_DEPTH - depth, 0, |libraries|
  {
    if libraries != [] && depth < MAX_DEPTH {
      SameAnswer(a, b, libraries[0], symbol, depth + 1);
      SameWhole(a, b, libraries[1..], symbol, depth);
    }
  }

  lemma {:induction false} SameReplaced(a: Book, b: Book, claims: seq<Claim>)
    requires Alike(a, b)
    ensures AllReplaced(a, claims).Some? <==> AllReplaced(b, claims).Some?
    ensures AllReplaced(a, claims).Some? ==> Alike(AllReplaced(a, claims).value, AllReplaced(b, claims).value)
  {
    if claims != [] {
      SameReplaced(a, b, claims[..|claims| - 1]);
    }
  }

  // The order the images are added in, the bridges' own order kept, changes neither whether they can be nor what answers a
  // query with a library.
  lemma OrderIrrelevant(xs: seq<Input>, ys: seq<Input>, claims: seq<Claim>)
    requires multiset(xs) == multiset(ys) && BridgesOf(xs) == BridgesOf(ys)
    ensures AllAdded(xs).Some? <==> AllAdded(ys).Some?
    ensures AllAdded(xs).Some? ==>
      var a, b := AllReplaced(AllAdded(xs).value, claims), AllReplaced(AllAdded(ys).value, claims);
      && (a.Some? <==> b.Some?)
      && (a.Some? && Named(a.value) ==>
            forall library, symbol :: library != "" ==>
              Answer(a.value, library, symbol, 0) == Answer(b.value, library, symbol, 0))
  {
    AddedExactly(xs);
    AddedExactly(ys);
    if DistinctNames(xs) {
      DistinctInAnyOrder(xs, ys);
    }
    if DistinctNames(ys) {
      DistinctInAnyOrder(ys, xs);
    }
    if AllAdded(xs).Some? {
      SameNames(xs, ys, AllAdded(xs).value.byName, AllAdded(ys).value.byName);
      SameReplaced(AllAdded(xs).value, AllAdded(ys).value, claims);
      var a, b := AllReplaced(AllAdded(xs).value, claims), AllReplaced(AllAdded(ys).value, claims);
      if a.Some? && Named(a.value) {
        forall library, symbol | library != ""
          ensures Answer(a.value, library, symbol, 0) == Answer(b.value, library, symbol, 0)
        {
          SameAnswer(a.value, b.value, library, symbol, 0);
        }
      }
    }
  }

  // Added and then replaced, no library has two answers.
  lemma {:induction false} OneImageEach(inputs: seq<Input>, claims: seq<Claim>)
    requires AllAdded(inputs).Some? && AllReplaced(AllAdded(inputs).value, claims).Some?
    ensures var b := AllReplaced(AllAdded(inputs).value, claims).value;
            && b.byName == AllAdded(inputs).value.byName
            && forall library :: library in b.byName ==> library !in b.replaced
  {
    if claims == [] {
      AddedExactly(inputs);
    } else {
      OneImageEach(inputs, claims[..|claims| - 1]);
    }
  }
}
