/** The rewriting of printf-style formats and their arguments for a 32-bit host: each guest slot becomes the four or eight
  * bytes the host's own reading of the rewritten text takes for it.
  */
module FormatMarshal {
  import opened Wrappers

  const TWO32: nat := 0x1_0000_0000

  datatype Num = Star | Digits(digits: string)

  // One conversion: its flags, width, precision, whether a guest modifier made it wide, and its letter.
  datatype Spec = Spec(flags: string, width: Num, precision: Option<Num>, wide: bool, conversion: char)

  datatype Item = Literal(c: char) | Percent | Conversion(spec: Spec)

  // What an argument is to the guest, one slot each.
  datatype Kind = Int32 | Int64 | Double | Pointer(conversion: char, wide: bool)

  // An argument as the host finds it: four bytes, or eight.
  datatype Arg = Word(value: nat) | Long(value: nat) | Bits(value: nat)

  // The symbol's dialect and whether the format is an object's, which decide the letters there are.
  datatype Dialect = Dialect(sqlite: bool, forObject: bool)

  predicate IsFlag(c: char) {
    c in {'-', '+', ' ', '#', '0', '\''}
  }

  predicate IsDigit(c: char) {
    '0' <= c <= '9'
  }

  predicate IsWide(c: char, d: Dialect) {
    c == 'l' || (!d.sqlite && (c == 'q' || c == 'z')) || c == 'j' || c == 't'
  }

  predicate IsModifier(c: char, d: Dialect) {
    c == 'h' || IsWide(c, d) || c == 'L'
  }

  predicate IsInteger(c: char) {
    c in {'d', 'i', 'o', 'u', 'x', 'X', 'D', 'O', 'U'}
  }

  predicate IsCharacter(c: char) {
    c == 'c' || c == 'C'
  }

  predicate IsFloating(c: char) {
    c in {'e', 'E', 'f', 'F', 'g', 'G', 'a', 'A'}
  }

  predicate IsPointer(c: char, d: Dialect) {
    c in {'s', 'S', 'p'} || (c == '@' && d.forObject) || (d.sqlite && c in {'q', 'Q', 'w', 'z'})
  }

  predicate IsConversion(c: char, d: Dialect) {
    IsInteger(c) || IsCharacter(c) || IsFloating(c) || IsPointer(c, d) || c == 'm'
  }

  // --- reading a guest format ---

  // The length of the longest run of flags, or of digits, a string starts with.
  function FlagsRun(s: string): (n: nat)
    ensures n <= |s| && (n < |s| ==> !IsFlag(s[n])) && forall k :: 0 <= k < n ==> IsFlag(s[k])
  {
    if s != [] && IsFlag(s[0]) then 1 + FlagsRun(s[1..]) else 0
  }

  function DigitsRun(s: string): (n: nat)
    ensures n <= |s| && (n < |s| ==> !IsDigit(s[n])) && forall k :: 0 <= k < n ==> IsDigit(s[k])
  {
    if s != [] && IsDigit(s[0]) then 1 + DigitsRun(s[1..]) else 0
  }

  function ParseNum(s: string): (r: (Num, string))
    ensures |r.1| <= |s|
  {
    if s != [] && s[0] == '*' then (Star, s[1..]) else (Digits(s[..DigitsRun(s)]), s[DigitsRun(s)..])
  }

  predicate Positional(s: string) {
    s != [] && s[0] == '$'
  }

  function ParsePrecision(s: string): (r: Option<(Option<Num>, string)>)
    ensures r.Some? ==> |r.value.1| <= |s|
  {
    if s == [] || s[0] != '.' then Some((None, s))
    else
      var (p, rest) := ParseNum(s[1..]);
      if Positional(rest) then None else Some((Some(p), rest))
  }

  function ParseModifiers(s: string, d: Dialect, wide: bool): (r: (bool, string))
    ensures |r.1| <= |s| && (r.1 != [] ==> !IsModifier(r.1[0], d))
    decreases |s|
  {
    if s == [] || !IsModifier(s[0], d) then (wide, s) else ParseModifiers(s[1..], d, wide || IsWide(s[0], d))
  }

  // What follows a '%'.
  function ParseSpec(s: string, d: Dialect): (r: Option<(Spec, string)>)
    ensures r.Some? ==> |r.value.1| < |s|
  {
    var f := FlagsRun(s);
    var (width, s1) := ParseNum(s[f..]);
    if Positional(s1) then None
    else match ParsePrecision(s1)
      case None => None
      case Some((precision, s2)) =>
        var (wide, s3) := ParseModifiers(s2, d, false);
        if s3 == [] || !IsConversion(s3[0], d) then None
        else Some((Spec(s[..f], width, precision, wide, s3[0]), s3[1..]))
  }

  function Tokenize(s: string, d: Dialect): Option<seq<Item>>
    decreases |s|
  {
    if s == [] then Some([])
    else if s[0] != '%' then Prepend(Literal(s[0]), Tokenize(s[1..], d))
    else if |s| > 1 && s[1] == '%' then Prepend(Percent, Tokenize(s[2..], d))
    else match ParseSpec(s[1..], d)
      case None => None
      case Some((spec, rest)) => Prepend(Conversion(spec), Tokenize(rest, d))
  }

  function Prepend(item: Item, items: Option<seq<Item>>): Option<seq<Item>> {
    match items
    case Some(rest) => Some([item] + rest)
    case None => None
  }

  // --- writing it for the host ---

  function PrintNum(n: Num): string {
    match n
    case Star => "*"
    case Digits(digits) => digits
  }

  // The one modifier a conversion keeps.
  function Modifier(s: Spec): string {
    if s.wide && IsInteger(s.conversion) then "ll"
    else if s.wide && (IsCharacter(s.conversion) || s.conversion == 's') then "l"
    else ""
  }

  function PrintPrecision(p: Option<Num>): string {
    match p
    case Some(n) => "." + PrintNum(n)
    case None => ""
  }

  function PrintSpec(s: Spec): string {
    s.flags + PrintNum(s.width) + PrintPrecision(s.precision) + Modifier(s) + [s.conversion]
  }

  function PrintItem(i: Item): string {
    match i
    case Literal(c) => [c]
    case Percent => "%%"
    case Conversion(s) => "%" + PrintSpec(s)
  }

  function Print(items: seq<Item>): string {
    if items == [] then "" else PrintItem(items[0]) + Print(items[1..])
  }

  function NumKinds(n: Num): seq<Kind> {
    if n.Star? then [Int32] else []
  }

  function PrecisionKinds(p: Option<Num>): seq<Kind> {
    if p.Some? then NumKinds(p.value) else []
  }

  function SpecKinds(s: Spec): seq<Kind> {
    NumKinds(s.width) + PrecisionKinds(s.precision) + ConversionKinds(s)
  }

  function ConversionKinds(s: Spec): seq<Kind> {
    if IsInteger(s.conversion) then [if s.wide then Int64 else Int32]
    else if IsCharacter(s.conversion) then [Int32]
    else if IsFloating(s.conversion) then [Double]
    else if s.conversion == 'm' then []
    else [Pointer(s.conversion, s.wide)]
  }

  // What a letter takes from the guest, and the modifier the host's text has before it.
  lemma LetterTakes(s: Spec)
    ensures s.conversion in {'d', 'i', 'o', 'u', 'x', 'X', 'D', 'O', 'U'} ==>
      if s.wide then ConversionKinds(s) == [Int64] && Modifier(s) == "ll" else ConversionKinds(s) == [Int32] && Modifier(s) == ""
    ensures s.conversion in {'c', 'C'} ==> ConversionKinds(s) == [Int32] && Modifier(s) == if s.wide then "l" else ""
    ensures s.conversion in {'e', 'E', 'f', 'F', 'g', 'G', 'a', 'A'} ==> ConversionKinds(s) == [Double] && Modifier(s) == ""
    ensures s.conversion == 'm' ==> ConversionKinds(s) == [] && Modifier(s) == ""
    ensures s.conversion in {'s', 'S', 'p', '@', 'q', 'Q', 'w', 'z'} ==>
      ConversionKinds(s) == [Pointer(s.conversion, s.wide)] && Modifier(s) == if s.wide && s.conversion == 's' then "l" else ""
  {
  }

  // The guest's arguments, in order.
  function Kinds(items: seq<Item>): seq<Kind> {
    if items == [] then []
    else (if items[0].Conversion? then SpecKinds(items[0].spec) else []) + Kinds(items[1..])
  }

  // A null %s or %S argument becomes the address of a text the host has for it.
  function Convert(k: Kind, slot: nat, text: (char, bool) -> nat): Arg {
    match k
    case Int32 => Word(slot % TWO32)
    case Int64 => Long(slot)
    case Double => Bits(slot)
    case Pointer(c, wide) => Word(if slot == 0 && (c == 's' || c == 'S') then text(c, wide) else slot)
  }

  // --- how the host reads a format: the grammar of its own printf, with 32-bit longs and pointers ---

  datatype Class = Four | Eight | Real

  function HostNum(s: string): (seq<Class>, string) {
    if s != [] && s[0] == '*' then ([Four], s[1..]) else ([], s[DigitsRun(s)..])
  }

  // At most one length modifier; only ll, q and j make an integer eight bytes.
  function HostLength(s: string, d: Dialect): (r: (bool, string))
    ensures |r.1| <= |s|
  {
    if |s| > 1 && s[0] == 'l' && s[1] == 'l' then (true, s[2..])
    else if |s| > 1 && s[0] == 'h' && s[1] == 'h' then (false, s[2..])
    else if s != [] && (s[0] == 'h' || s[0] == 'l' || s[0] == 't' || s[0] == 'L') then (false, s[1..])
    else if s != [] && !d.sqlite && s[0] == 'z' then (false, s[1..])
    else if s != [] && ((!d.sqlite && s[0] == 'q') || s[0] == 'j') then (true, s[1..])
    else (false, s)
  }

  function HostConversion(c: char, eight: bool, d: Dialect): Option<seq<Class>> {
    if IsInteger(c) then Some([if eight then Eight else Four])
    else if IsFloating(c) then Some([Real])
    else if IsCharacter(c) || IsPointer(c, d) then Some([Four])
    else if c == 'm' then Some([])
    else None
  }

  function HostSpec(s: string, d: Dialect): (r: Option<(seq<Class>, string)>)
    ensures r.Some? ==> |r.value.1| < |s|
  {
    var (w, s1) := HostNum(s[FlagsRun(s)..]);
    var (p, s2) := if s1 != [] && s1[0] == '.' then HostNum(s1[1..]) else ([], s1);
    var (eight, s3) := HostLength(s2, d);
    if s3 == [] then None
    else match HostConversion(s3[0], eight, d)
      case None => None
      case Some(classes) => Some((w + p + classes, s3[1..]))
  }

  function HostReads(s: string, d: Dialect): Option<seq<Class>>
    decreases |s|
  {
    if s == [] then Some([])
    else if s[0] != '%' then HostReads(s[1..], d)
    else if |s| > 1 && s[1] == '%' then HostReads(s[2..], d)
    else match HostSpec(s[1..], d)
      case None => None
      case Some((classes, rest)) =>
        match HostReads(rest, d)
        case None => None
        case Some(more) => Some(classes + more)
  }

  function ClassOf(a: Arg): Class {
    match a
    case Word(_) => Four
    case Long(_) => Eight
    case Bits(_) => Real
  }

  function Classes(args: seq<Arg>): seq<Class> {
    seq(|args|, i requires 0 <= i < |args| => ClassOf(args[i]))
  }

  function KindClass(k: Kind): Class {
    match k
    case Int32 => Four
    case Int64 => Eight
    case Double => Real
    case Pointer(_, _) => Four
  }

  function KindClasses(ks: seq<Kind>): seq<Class> {
    seq(|ks|, i requires 0 <= i < |ks| => KindClass(ks[i]))
  }

  // --- the rewritten text ---

  ghost predicate AllFlags(s: string) {
    forall k :: 0 <= k < |s| ==> IsFlag(s[k])
  }

  ghost predicate AllDigits(s: string) {
    forall k :: 0 <= k < |s| ==> IsDigit(s[k])
  }

  // What every parsed conversion is like.
  ghost predicate WellFormed(s: Spec, d: Dialect) {
    && AllFlags(s.flags)
    && (s.width.Digits? ==> AllDigits(s.width.digits) && (s.width.digits != [] ==> !IsFlag(s.width.digits[0])))
    && (s.precision.Some? && s.precision.value.Digits? ==> AllDigits(s.precision.value.digits))
    && IsConversion(s.conversion, d) && !IsModifier(s.conversion, d)
  }

  ghost predicate ItemsWellFormed(items: seq<Item>, d: Dialect) {
    forall k :: 0 <= k < |items| ==>
      && (items[k].Literal? ==> items[k].c != '%')
      && (items[k].Conversion? ==> WellFormed(items[k].spec, d))
  }

  lemma ParsedIsWellFormed(s: string, d: Dialect)
    requires ParseSpec(s, d).Some?
    ensures WellFormed(ParseSpec(s, d).value.0, d)
  {
  }

  lemma {:induction false} TokensWellFormed(s: string, d: Dialect)
    requires Tokenize(s, d).Some?
    ensures ItemsWellFormed(Tokenize(s, d).value, d)
    decreases |s|
  {
    if s == [] {
    } else if s[0] != '%' {
      TokensWellFormed(s[1..], d);
    } else if |s| > 1 && s[1] == '%' {
      TokensWellFormed(s[2..], d);
    } else {
      ParsedIsWellFormed(s[1..], d);
      TokensWellFormed(ParseSpec(s[1..], d).value.1, d);
    }
  }

  // A character that can come right after a width or a precision.
  predicate EndsNum(t: string) {
    t == [] || (!IsDigit(t[0]) && !IsFlag(t[0]) && t[0] != '*' && t[0] != '$')
  }

  lemma {:induction false} FlagsThen(f: string, t: string)
    requires AllFlags(f) && (t == [] || !IsFlag(t[0]))
    ensures FlagsRun(f + t) == |f|
  {
    if f == [] {
      assert f + t == t;
    } else {
      assert (f + t)[1..] == f[1..] + t;
      FlagsThen(f[1..], t);
    }
  }

  lemma {:induction false} DigitsThen(f: string, t: string)
    requires AllDigits(f) && (t == [] || !IsDigit(t[0]))
    ensures DigitsRun(f + t) == |f|
  {
    if f == [] {
      assert f + t == t;
    } else {
      assert (f + t)[1..] == f[1..] + t;
      DigitsThen(f[1..], t);
    }
  }

  lemma NumThen(n: Num, t: string)
    requires (n.Digits? ==> AllDigits(n.digits)) && EndsNum(t)
    ensures ParseNum(PrintNum(n) + t) == (n, t)
    ensures HostNum(PrintNum(n) + t) == (KindClasses(NumKinds(n)), t)
  {
    var s := PrintNum(n) + t;
    match n
    case Star =>
      assert s[1..] == t;
      assert KindClasses([Int32]) == [Four];
    case Digits(digits) =>
      DigitsThen(digits, t);
      assert s[..|digits|] == digits && s[|digits|..] == t;
      assert KindClasses([]) == [];
      if digits != [] {
        assert IsDigit(s[0]);
      }
  }

  function Normal(s: Spec): Spec {
    s.(wide := Modifier(s) != "")
  }

  function EndOf(s: Spec, rest: string): string {
    Modifier(s) + [s.conversion] + rest
  }

  lemma ModifierThen(s: Spec, d: Dialect, rest: string)
    requires WellFormed(s, d)
    ensures ParseModifiers(EndOf(s, rest), d, false) == (Modifier(s) != "", [s.conversion] + rest)
    ensures HostLength(EndOf(s, rest), d) == (Modifier(s) == "ll", [s.conversion] + rest)
    ensures EndsNum(EndOf(s, rest)) && EndOf(s, rest)[0] != '.'
  {
    var t := [s.conversion] + rest;
    var m := Modifier(s);
    assert EndOf(s, rest) == m + t;
    if m == "ll" {
      assert EndOf(s, rest)[1..] == "l" + t && ("l" + t)[1..] == t && EndOf(s, rest)[2..] == t;
      assert ParseModifiers(t, d, true) == (true, t);
      assert ParseModifiers("l" + t, d, true) == (true, t);
    } else if m == "l" {
      assert EndOf(s, rest)[1..] == t && EndOf(s, rest)[1] == s.conversion;
    } else {
      assert EndOf(s, rest) == t;
    }
  }

  lemma PrecisionThen(s: Spec, d: Dialect, rest: string)
    requires WellFormed(s, d)
    ensures var t := PrintPrecision(s.precision) + EndOf(s, rest);
            && EndsNum(t)
            && ParsePrecision(t) == Some((s.precision, EndOf(s, rest)))
            && (s.precision.Some? <==> t[0] == '.')
            && (s.precision.None? ==> t == EndOf(s, rest))
            && (s.precision.Some? ==> HostNum(t[1..]) == (KindClasses(NumKinds(s.precision.value)), EndOf(s, rest)))
  {
    ModifierThen(s, d, rest);
    hide EndOf, ParseNum, HostNum, PrintNum, NumKinds, KindClasses;
    if s.precision.Some? {
      PointThen(s.precision.value, EndOf(s, rest));
    } else {
      assert PrintPrecision(s.precision) + EndOf(s, rest) == EndOf(s, rest);
    }
  }

  lemma PointThen(n: Num, t: string)
    requires (n.Digits? ==> AllDigits(n.digits)) && EndsNum(t)
    ensures var s := "." + PrintNum(n) + t;
            && EndsNum(s)
            && ParsePrecision(s) == Some((Some(n), t))
            && HostNum(s[1..]) == (KindClasses(NumKinds(n)), t)
  {
    hide ParseNum, HostNum, PrintNum, NumKinds, KindClasses;
    NumThen(n, t);
    assert ("." + PrintNum(n) + t)[1..] == PrintNum(n) + t;
  }

  // What a printed conversion is made of, and how each part reads.
  lemma PartsRead(s: Spec, d: Dialect, rest: string)
    requires WellFormed(s, d)
    ensures var t2 := PrintPrecision(s.precision) + EndOf(s, rest);
            var t1 := PrintNum(s.width) + t2;
            && PrintSpec(s) + rest == s.flags + t1
            && FlagsRun(s.flags + t1) == |s.flags|
            && ParseNum(t1) == (s.width, t2) && HostNum(t1) == (KindClasses(NumKinds(s.width)), t2)
  {
    var t2 := PrintPrecision(s.precision) + EndOf(s, rest);
    var t1 := PrintNum(s.width) + t2;
    assert PrintSpec(s) + rest == s.flags + t1;
    PrecisionThen(s, d, rest);
    NumThen(s.width, t2);
    StartOfNum(s.width, t2);
    FlagsThen(s.flags, t1);
  }

  // A printed conversion reads back as itself.
  lemma SpecReadsBack(s: Spec, d: Dialect, rest: string)
    requires WellFormed(s, d)
    ensures ParseSpec(PrintSpec(s) + rest, d) == Some((Normal(s), rest))
  {
    hide PrintSpec, PrintNum, PrintPrecision, EndOf, ParseNum, ParsePrecision, ParseModifiers, FlagsRun, Modifier, HostNum,
      HostLength, NumKinds, KindClasses;
    var t2 := PrintPrecision(s.precision) + EndOf(s, rest);
    var t1 := PrintNum(s.width) + t2;
    var e := [s.conversion] + rest;
    PartsRead(s, d, rest);
    PrecisionThen(s, d, rest);
    assert (s.flags + t1)[..|s.flags|] == s.flags && (s.flags + t1)[|s.flags|..] == t1;
    ModifierThen(s, d, rest);
    assert e[0] == s.conversion && e[1..] == rest;
  }

  // The host takes for it the classes of its arguments.
  lemma HostReadsSpec(s: Spec, d: Dialect, rest: string)
    requires WellFormed(s, d)
    ensures HostSpec(PrintSpec(s) + rest, d) == Some((KindClasses(SpecKinds(s)), rest))
  {
    hide PrintSpec, PrintNum, PrintPrecision, EndOf, ParseNum, ParsePrecision, ParseModifiers, FlagsRun, Modifier, HostNum,
      HostLength, HostConversion, NumKinds, SpecKinds, ConversionKinds, KindClasses;
    var t2 := PrintPrecision(s.precision) + EndOf(s, rest);
    var t1 := PrintNum(s.width) + t2;
    var e := [s.conversion] + rest;
    PartsRead(s, d, rest);
    PrecisionThen(s, d, rest);
    assert (s.flags + t1)[|s.flags|..] == t1;
    ModifierThen(s, d, rest);
    assert e[0] == s.conversion && e[1..] == rest;
    ClassesSplit(s);
    ConversionClass(s, d);
  }

  lemma StartOfNum(n: Num, t: string)
    requires (n.Digits? ==> AllDigits(n.digits) && (n.digits != [] ==> !IsFlag(n.digits[0]))) && EndsNum(t)
    ensures PrintNum(n) + t == [] || !IsFlag((PrintNum(n) + t)[0])
  {
    if PrintNum(n) == [] {
      assert PrintNum(n) + t == t;
    }
  }

  lemma ConversionClass(s: Spec, d: Dialect)
    requires WellFormed(s, d)
    ensures HostConversion(s.conversion, Modifier(s) == "ll", d) == Some(KindClasses(ConversionKinds(s)))
  {
    var kinds := ConversionKinds(s);
    if kinds == [] {
      assert KindClasses(kinds) == [];
    } else {
      assert KindClasses(kinds) == [KindClass(kinds[0])];
    }
  }

  lemma ClassesSplit(s: Spec)
    ensures KindClasses(SpecKinds(s)) ==
      KindClasses(NumKinds(s.width)) + (if s.precision.Some? then KindClasses(NumKinds(s.precision.value)) else [])
      + KindClasses(ConversionKinds(s))
  {
  }

  lemma NotPercent(s: Spec, d: Dialect, rest: string)
    requires WellFormed(s, d)
    ensures PrintSpec(s) != [] && PrintSpec(s)[0] != '%'
  {
    PrecisionThen(s, d, rest);
    var t := PrintSpec(s);
    if s.flags != [] {
      assert t[0] == s.flags[0];
    } else if PrintNum(s.width) != [] {
      assert t[0] == PrintNum(s.width)[0];
    } else if s.precision.Some? {
      assert t[0] == '.';
    } else if s.wide && Modifier(s) != "" {
      assert t[0] == 'l';
    } else {
      assert t[0] == s.conversion;
    }
  }

  function NormalItem(i: Item): Item {
    if i.Conversion? then Conversion(Normal(i.spec)) else i
  }

  function NormalItems(items: seq<Item>): seq<Item> {
    if items == [] then [] else [NormalItem(items[0])] + NormalItems(items[1..])
  }

  // The rewritten text tokenizes to the same items with their one modifier, and the host reads from it exactly the
  // classes of the arguments.
  lemma {:induction false} PrintReadsBack(items: seq<Item>, d: Dialect)
    requires ItemsWellFormed(items, d)
    ensures Tokenize(Print(items), d) == Some(NormalItems(items))
    ensures HostReads(Print(items), d) == Some(KindClasses(Kinds(items)))
  {
    if items == [] {
      assert KindClasses([]) == [];
    } else {
      var rest := Print(items[1..]);
      PrintReadsBack(items[1..], d);
      assert [] + Kinds(items[1..]) == Kinds(items[1..]);
      match items[0]
      case Literal(c) => LiteralReadsBack(c, rest, d);
      case Percent => PercentReadsBack(rest, d);
      case Conversion(spec) =>
        ConversionReadsBack(spec, rest, d);
        KindsSplit(SpecKinds(spec), Kinds(items[1..]));
    }
  }

  lemma KindsSplit(a: seq<Kind>, b: seq<Kind>)
    ensures KindClasses(a + b) == KindClasses(a) + KindClasses(b)
  {
  }

  lemma LiteralReadsBack(c: char, rest: string, d: Dialect)
    requires c != '%'
    ensures Tokenize([c] + rest, d) == Prepend(Literal(c), Tokenize(rest, d))
    ensures HostReads([c] + rest, d) == HostReads(rest, d)
  {
    assert ([c] + rest)[1..] == rest;
  }

  lemma PercentReadsBack(rest: string, d: Dialect)
    ensures Tokenize("%%" + rest, d) == Prepend(Percent, Tokenize(rest, d))
    ensures HostReads("%%" + rest, d) == HostReads(rest, d)
  {
    var s := "%%" + rest;
    assert s[0] == '%' && s[1] == '%' && s[2..] == rest;
  }

  lemma ConversionReadsBack(spec: Spec, rest: string, d: Dialect)
    requires WellFormed(spec, d)
    ensures Tokenize("%" + PrintSpec(spec) + rest, d) == Prepend(Conversion(Normal(spec)), Tokenize(rest, d))
    ensures HostReads("%" + PrintSpec(spec) + rest, d) ==
      match HostReads(rest, d) case Some(more) => Some(KindClasses(SpecKinds(spec)) + more) case None => None
  {
    var s := "%" + PrintSpec(spec) + rest;
    NotPercent(spec, d, rest);
    assert s[0] == '%' && s[1..] == PrintSpec(spec) + rest && s[1] == PrintSpec(spec)[0];
    SpecReadsBack(spec, d, rest);
    HostReadsSpec(spec, d, rest);
    hide PrintSpec, ParseSpec, HostSpec;
  }

  lemma {:induction false} NormalPrintsSame(items: seq<Item>)
    ensures Print(NormalItems(items)) == Print(items)
  {
    if items != [] {
      NormalPrintsSame(items[1..]);
    }
  }

  // Rewriting the rewritten text changes nothing.
  lemma RewriteIsIdempotent(s: string, d: Dialect)
    requires Tokenize(s, d).Some?
    ensures var t := Print(Tokenize(s, d).value);
            Tokenize(t, d).Some? && Print(Tokenize(t, d).value) == t
  {
    TokensWellFormed(s, d);
    PrintReadsBack(Tokenize(s, d).value, d);
    NormalPrintsSame(Tokenize(s, d).value);
  }

  // The host's own reading of the rewritten text takes exactly the guest's arguments, in order.
  lemma HostReadsArguments(s: string, d: Dialect)
    requires Tokenize(s, d).Some?
    ensures HostReads(Print(Tokenize(s, d).value), d) == Some(KindClasses(Kinds(Tokenize(s, d).value)))
  {
    TokensWellFormed(s, d);
    PrintReadsBack(Tokenize(s, d).value, d);
  }

  // --- the guest's grammar ---

  // A conversion as it is written, up to and with its letter.
  datatype Text = Text(flags: string, width: string, precision: Option<string>, modifiers: string, letter: char)
  {
    function Spell(): string {
      flags + (width + (PointSpell() + (modifiers + [letter])))
    }

    function PointSpell(): string {
      if precision.Some? then "." + precision.value else ""
    }

    // What each part may be. A width does not start with a zero, which is a flag.
    predicate Grammatical(d: Dialect) {
      && (forall k :: 0 <= k < |flags| ==> flags[k] in {'-', '+', ' ', '#', '0', '\''})
      && IsNumText(width) && (width != "" ==> width[0] != '0') && (precision.Some? ==> IsNumText(precision.value))
      && (forall k :: 0 <= k < |modifiers| ==>
            modifiers[k] in {'h', 'l', 'j', 't', 'L'} || (!d.sqlite && modifiers[k] in {'q', 'z'}))
      && (|| letter in {'d', 'i', 'o', 'u', 'x', 'X', 'D', 'O', 'U', 'c', 'C'}
          || letter in {'e', 'E', 'f', 'F', 'g', 'G', 'a', 'A', 's', 'S', 'p', 'm'}
          || (letter == '@' && d.forObject) || (letter in {'q', 'Q', 'w', 'z'} && d.sqlite))
    }

    // Wide if any modifier is one of l, j, t, q and z.
    function Means(): Spec {
      Spec(flags, NumFrom(width), if precision.Some? then Some(NumFrom(precision.value)) else None,
           exists k :: 0 <= k < |modifiers| && modifiers[k] in {'l', 'j', 't', 'q', 'z'}, letter)
    }
  }

  predicate IsNumText(s: string) {
    s == "*" || forall k :: 0 <= k < |s| ==> '0' <= s[k] <= '9'
  }

  function NumFrom(s: string): Num {
    if s == "*" then Star else Digits(s)
  }

  lemma NumFromThen(s: string, t: string)
    requires IsNumText(s) && EndsNum(t)
    ensures ParseNum(s + t) == (NumFrom(s), t)
  {
    NumThen(NumFrom(s), t);
    assert PrintNum(NumFrom(s)) == s;
  }

  lemma {:induction false} ModifiersThen(m: string, t: string, d: Dialect, wide: bool)
    requires forall k :: 0 <= k < |m| ==> m[k] in {'h', 'l', 'j', 't', 'L'} || (!d.sqlite && m[k] in {'q', 'z'})
    requires t == [] || !IsModifier(t[0], d)
    ensures ParseModifiers(m + t, d, wide) == (wide || exists k :: 0 <= k < |m| && m[k] in {'l', 'j', 't', 'q', 'z'}, t)
    decreases |m|
  {
    if m == [] {
      assert m + t == t;
    } else {
      assert (m + t)[1..] == m[1..] + t;
      ModifiersThen(m[1..], t, d, wide || IsWide(m[0], d));
      assert (exists k :: 0 <= k < |m| && m[k] in {'l', 'j', 't', 'q', 'z'}) <==>
             m[0] in {'l', 'j', 't', 'q', 'z'} || exists k :: 0 <= k < |m[1..]| && m[1..][k] in {'l', 'j', 't', 'q', 'z'};
    }
  }

  // How the end of a text reads, from its letter back.
  function Letter(t: Text, rest: string): string {
    [t.letter] + rest
  }

  function Tail(t: Text, rest: string): string {
    t.modifiers + Letter(t, rest)
  }

  lemma LetterReads(t: Text, d: Dialect, rest: string)
    requires t.Grammatical(d)
    ensures IsConversion(t.letter, d) && !IsModifier(t.letter, d)
    ensures ParseModifiers(Tail(t, rest), d, false) == (t.Means().wide, Letter(t, rest))
  {
    LetterIs(t, d);
    hide IsConversion, IsModifier, ParseModifiers;
    ModifiersThen(t.modifiers, Letter(t, rest), d, false);
  }

  lemma LetterIs(t: Text, d: Dialect)
    requires t.Grammatical(d)
    ensures IsConversion(t.letter, d) && !IsModifier(t.letter, d) && !IsDigit(t.letter) && !IsFlag(t.letter)
    ensures t.letter !in {'*', '$', '.'}
  {
  }

  lemma TailStarts(t: Text, d: Dialect, rest: string)
    requires t.Grammatical(d)
    ensures EndsNum(Tail(t, rest)) && Tail(t, rest)[0] != '.'
  {
    LetterIs(t, d);
    if t.modifiers != [] {
      assert Tail(t, rest)[0] == t.modifiers[0];
      hide Text.Grammatical;
    } else {
      assert Tail(t, rest)[0] == t.letter;
      hide Text.Grammatical;
    }
  }

  lemma PointReads(t: Text, d: Dialect, rest: string)
    requires t.Grammatical(d)
    ensures var s := t.PointSpell() + Tail(t, rest);
            EndsNum(s) && ParsePrecision(s) == Some((t.Means().precision, Tail(t, rest)))
  {
    TailStarts(t, d, rest);
    var tail := Tail(t, rest);
    PrecisionIs(t, d);
    hide Text.Grammatical, ParseNum, Tail, EndsNum;
    if t.precision.Some? {
      NumFromThen(t.precision.value, tail);
      PointStarts(t.precision.value, tail);
    } else {
      assert t.PointSpell() + tail == tail;
    }
  }

  lemma PointStarts(p: string, tail: string)
    ensures EndsNum("." + p + tail) && ("." + p + tail)[1..] == p + tail && ("." + p + tail)[0] == '.'
  {
  }

  lemma PrecisionIs(t: Text, d: Dialect)
    requires t.Grammatical(d)
    ensures t.precision.Some? ==> IsNumText(t.precision.value)
    ensures AllFlags(t.flags) && IsNumText(t.width) && (t.width != "" ==> !IsFlag(t.width[0]))
  {
  }

  lemma WidthStarts(width: string, s: string)
    requires (width != "" ==> !IsFlag(width[0])) && EndsNum(s)
    ensures width + s == [] || !IsFlag((width + s)[0])
  {
  }

  lemma SpelledAs(t: Text, rest: string)
    ensures t.Spell() + rest == t.flags + (t.width + (t.PointSpell() + Tail(t, rest)))
  {
    hide Text.PointSpell;
    var a, b, c := t.PointSpell(), t.modifiers, [t.letter];
    assert t.flags + (t.width + (a + (b + c))) + rest == t.flags + (t.width + (a + (b + (c + rest))));
  }

  // What is written by the grammar is read as what it means.
  lemma TextReads(t: Text, d: Dialect, rest: string)
    requires t.Grammatical(d)
    ensures ParseSpec(t.Spell() + rest, d) == Some((t.Means(), rest))
  {
    hide ParseNum, ParsePrecision, ParseModifiers, FlagsRun, Text.Spell, Text.PointSpell, Text.Grammatical, EndsNum, Tail,
      IsConversion, IsModifier, IsNumText, AllFlags, IsFlag;
    var s1 := t.PointSpell() + Tail(t, rest);
    var s0 := t.width + s1;
    SpelledAs(t, rest);
    PrecisionIs(t, d);
    PointReads(t, d, rest);
    LetterReads(t, d, rest);
    NumFromThen(t.width, s1);
    WidthStarts(t.width, s1);
    FlagsThen(t.flags, s0);
    assert (t.flags + s0)[..|t.flags|] == t.flags && (t.flags + s0)[|t.flags|..] == s0;
    assert Letter(t, rest)[0] == t.letter && Letter(t, rest)[1..] == rest;
    NotPositional(s1);
  }

  lemma NotPositional(s: string)
    requires EndsNum(s)
    ensures !Positional(s)
  {
  }

  lemma NumSplit(s: string) returns (t: string)
    ensures s == t + ParseNum(s).1 && IsNumText(t) && NumFrom(t) == ParseNum(s).0 && t <= s
  {
    t := PrintNum(ParseNum(s).0);
  }

  lemma {:induction false} ModifiersSplit(s: string, d: Dialect, wide: bool) returns (m: string)
    ensures s == m + ParseModifiers(s, d, wide).1
    ensures forall k :: 0 <= k < |m| ==> m[k] in {'h', 'l', 'j', 't', 'L'} || (!d.sqlite && m[k] in {'q', 'z'})
    decreases |s|
  {
    if s == [] || !IsModifier(s[0], d) {
      m := [];
    } else {
      var more := ModifiersSplit(s[1..], d, wide || IsWide(s[0], d));
      m := [s[0]] + more;
    }
  }

  // And whatever is read was written so.
  lemma ReadIsWritten(s: string, d: Dialect) returns (t: Text)
    requires ParseSpec(s, d).Some?
    ensures var (spec, rest) := ParseSpec(s, d).value;
            t.Grammatical(d) && s == t.Spell() + rest && spec == t.Means()
  {
    hide ParseModifiers, ParsePrecision, ParseSpec, ParseNum, IsNumText, NumFrom, IsConversion, IsModifier, IsFlag, Text.Means;
    hide Text.PointSpell, AllFlags;
    SpecParts(s, d);
    var f := FlagsRun(s);
    var s1 := ParseNum(s[f..]).1;
    var width := NumSplit(s[f..]);
    var precision, s2 := PrecisionSplit(s1);
    var m := ModifiersSplit(s2, d, false);
    var s3 := ParseModifiers(s2, d, false).1;
    t := Text(s[..f], width, precision, m, s3[0]);
    ModifiersThen(m, s3, d, false);
    PointIs(t);
    Spelled(t, s, s[f..], s1, s2, s3);
    SplitIsGrammatical(t, d, s[f..]);
    MeansParts(t);
  }

  lemma PointIs(t: Text)
    ensures t.PointSpell() == if t.precision.Some? then "." + t.precision.value else ""
  {
  }

  lemma SpecParts(s: string, d: Dialect)
    requires ParseSpec(s, d).Some?
    ensures var f := FlagsRun(s);
            var (width, s1) := ParseNum(s[f..]);
            && AllFlags(s[..f]) && s == s[..f] + s[f..] && (s[f..] == [] || !IsFlag(s[f..][0]))
            && ParsePrecision(s1).Some?
            && var (precision, s2) := ParsePrecision(s1).value;
               var (wide, s3) := ParseModifiers(s2, d, false);
               && s3 != [] && IsConversion(s3[0], d) && !IsModifier(s3[0], d)
               && ParseSpec(s, d) == Some((Spec(s[..f], width, precision, wide, s3[0]), s3[1..]))
  {
    hide ParseModifiers, ParsePrecision, ParseNum, IsConversion, IsModifier, IsFlag;
  }

  lemma MeansParts(t: Text)
    ensures var spec := t.Means();
            && spec.flags == t.flags && spec.width == NumFrom(t.width) && spec.conversion == t.letter
            && spec.precision == (if t.precision.Some? then Some(NumFrom(t.precision.value)) else None)
            && (spec.wide <==> exists k :: 0 <= k < |t.modifiers| && t.modifiers[k] in {'l', 'j', 't', 'q', 'z'})
  {
  }

  lemma Spelled(t: Text, s: string, s0: string, s1: string, s2: string, s3: string)
    requires s == t.flags + s0 && s0 == t.width + s1 && s1 == t.PointSpell() + s2 && s2 == t.modifiers + s3
    requires s3 != [] && s3[0] == t.letter
    ensures s == t.Spell() + s3[1..]
  {
    SpelledAs(t, s3[1..]);
    assert Letter(t, s3[1..]) == s3;
    hide Text.Spell, Text.PointSpell;
  }

  lemma SplitIsGrammatical(t: Text, d: Dialect, s0: string)
    requires AllFlags(t.flags) && t.width <= s0 && (s0 == [] || !IsFlag(s0[0])) && IsNumText(t.width)
    requires (t.precision.Some? ==> IsNumText(t.precision.value)) && IsConversion(t.letter, d) && !IsModifier(t.letter, d)
    requires forall k :: 0 <= k < |t.modifiers| ==>
      t.modifiers[k] in {'h', 'l', 'j', 't', 'L'} || (!d.sqlite && t.modifiers[k] in {'q', 'z'})
    ensures t.Grammatical(d)
  {
    hide IsNumText;
    if t.width != "" {
      assert t.width[0] == s0[0];
    }
  }

  lemma PrecisionSplit(s: string) returns (p: Option<string>, rest: string)
    requires ParsePrecision(s).Some?
    ensures ParsePrecision(s).value == (if p.Some? then Some(NumFrom(p.value)) else None, rest)
    ensures s == (if p.Some? then "." + p.value else "") + rest && (p.Some? ==> IsNumText(p.value))
  {
    hide ParseNum, IsNumText, NumFrom;
    p, rest := None, s;
    if s != [] && s[0] == '.' {
      var text := NumSplit(s[1..]);
      p, rest := Some(text), ParseNum(s[1..]).1;
      assert s == [s[0]] + s[1..];
    }
  }

  // A format's conversions are its texts and no others.
  lemma SpecIs(s: string, d: Dialect, spec: Spec, rest: string)
    ensures ParseSpec(s, d) == Some((spec, rest)) <==> exists t: Text :: Written(t, d, s, spec, rest)
  {
    if ParseSpec(s, d) == Some((spec, rest)) {
      var t := ReadIsWritten(s, d);
      assert Written(t, d, s, spec, rest);
    }
    if t: Text :| Written(t, d, s, spec, rest) {
      TextReads(t, d, rest);
    }
  }

  predicate Written(t: Text, d: Dialect, s: string, spec: Spec, rest: string) {
    t.Grammatical(d) && s == t.Spell() + rest && spec == t.Means()
  }

  // --- the marshaller ---

  // The guest's argument slots, and the host's texts for a null %s or %S.
  datatype Call = Call(arguments: nat -> nat, nulls: (char, bool) -> nat)
  {
    // The k-th argument is the k-th slot as its conversion wants it.
    ghost predicate Feeds(kinds: seq<Kind>, args: seq<Arg>) {
      |args| == |kinds| && forall k :: 0 <= k < |kinds| ==> args[k] == Convert(kinds[k], arguments(k), nulls)
    }

    // The bytes of the k-th argument. Eight hold the slot as it is, and four its low half, but for the null of an s or S,
    // where they hold the address of the text that stands for it.
    ghost predicate Holds(kind: Kind, k: nat, arg: Arg) {
      match arg
      case Long(value) => kind == Int64 && value == arguments(k)
      case Bits(value) => kind == Double && value == arguments(k)
      case Word(value) =>
        && (kind == Int32 || kind.Pointer?)
        && value == if arguments(k) == 0 && kind.Pointer? && kind.conversion in {'s', 'S'}
                    then nulls(kind.conversion, kind.wide) else arguments(k) % 0x1_0000_0000
    }

    ghost predicate Packs(kinds: seq<Kind>, args: seq<Arg>) {
      |args| == |kinds| && forall k :: 0 <= k < |kinds| ==> Holds(kinds[k], k, args[k])
    }

    // What the marshaller packs is that, and nothing else would do.
    lemma FedIsPacked(kinds: seq<Kind>, args: seq<Arg>)
      requires Fits(kinds)
      ensures Feeds(kinds, args) <==> Packs(kinds, args)
    {
      if |args| == |kinds| {
        forall k | 0 <= k < |kinds| ensures args[k] == Convert(kinds[k], arguments(k), nulls) <==> Holds(kinds[k], k, args[k]) {
          HoldsOne(kinds[k], k, args[k]);
        }
        hide Convert, Holds;
      }
    }

    lemma HoldsOne(kind: Kind, k: nat, arg: Arg)
      requires kind.Pointer? ==> arguments(k) < TWO32
      ensures arg == Convert(kind, arguments(k), nulls) <==> Holds(kind, k, arg)
    {
    }

    // Every pointer argument fits the host.
    ghost predicate Fits(kinds: seq<Kind>) {
      forall k :: 0 <= k < |kinds| && kinds[k].Pointer? ==> arguments(k) < TWO32
    }

    // The arguments of `more`, which come after those of `kinds`, fit the host.
    ghost predicate FitsAfter(kinds: seq<Kind>, more: seq<Kind>) {
      forall k :: 0 <= k < |more| && more[k].Pointer? ==> arguments(|kinds| + k) < TWO32
    }

    lemma FeedsMore(kinds: seq<Kind>, args: seq<Arg>, more: seq<Kind>)
      requires Feeds(kinds, args)
      requires |more| <= 1
      ensures more == [] ==> Feeds(kinds + more, args)
      ensures more != [] ==> Feeds(kinds + more, args + [Convert(more[0], arguments(|args|), nulls)])
    {
      if more == [] {
        assert kinds + more == kinds;
      }
    }
  }

  function Append(done: seq<Item>, rest: Option<seq<Item>>): Option<seq<Item>> {
    match rest
    case Some(items) => Some(done + items)
    case None => None
  }

  method CopyFlags(text: string, from: nat, out0: string) returns (c: nat, out: string)
    requires from <= |text|
    ensures c == from + FlagsRun(text[from..]) && out == out0 + text[from..c]
  {
    c, out := from, out0;
    while c < |text| && IsFlag(text[c])
      invariant from <= c <= |text| && out == out0 + text[from..c]
      invariant from + FlagsRun(text[from..]) == c + FlagsRun(text[c..])
    {
      assert text[c..][1..] == text[c + 1..];
      out := out + [text[c]];
      c := c + 1;
    }
  }

  method CopyDigits(text: string, from: nat, out0: string) returns (c: nat, out: string)
    requires from <= |text|
    ensures c == from + DigitsRun(text[from..]) && out == out0 + text[from..c]
  {
    c, out := from, out0;
    while c < |text| && IsDigit(text[c])
      invariant from <= c <= |text| && out == out0 + text[from..c]
      invariant from + DigitsRun(text[from..]) == c + DigitsRun(text[c..])
    {
      assert text[c..][1..] == text[c + 1..];
      out := out + [text[c]];
      c := c + 1;
    }
  }

  // A width or a precision: a star takes an argument.
  method CopyNum(text: string, from: nat, out0: string, args0: seq<Arg>, call: Call, ghost kinds: seq<Kind>)
    returns (c: nat, out: string, args: seq<Arg>)
    requires from <= |text| && call.Feeds(kinds, args0)
    ensures from <= c <= |text| && ParseNum(text[from..]).1 == text[c..]
    ensures out == out0 + PrintNum(ParseNum(text[from..]).0)
    ensures call.Feeds(kinds + NumKinds(ParseNum(text[from..]).0), args)
  {
    if from < |text| && text[from] == '*' {
      call.FeedsMore(kinds, args0, [Int32]);
      args := args0 + [Word(call.arguments(|args0|) % TWO32)];
      out := out0 + [text[from]];
      c := from + 1;
    } else {
      call.FeedsMore(kinds, args0, []);
      args := args0;
      c, out := CopyDigits(text, from, out0);
    }
  }

  method SkipModifiers(text: string, from: nat, d: Dialect) returns (wide: bool, c: nat)
    requires from <= |text|
    ensures from <= c <= |text| && ParseModifiers(text[from..], d, false) == (wide, text[c..])
  {
    wide, c := false, from;
    while c < |text| && IsModifier(text[c], d)
      invariant from <= c <= |text|
      invariant ParseModifiers(text[from..], d, false) == ParseModifiers(text[c..], d, wide)
    {
      assert text[c..][1..] == text[c + 1..];
      if IsWide(text[c], d) {
        wide := true;
      }
      c := c + 1;
    }
  }

  // The argument and the text of a conversion letter. None where the process stops.
  method MarshalLetter(conversion: char, wide: bool, d: Dialect, out0: string, args0: seq<Arg>, call: Call,
                       ghost kinds: seq<Kind>, ghost s: Spec)
    returns (out: string, args: seq<Arg>, ok: bool)
    requires call.Feeds(kinds, args0) && conversion == s.conversion && wide == s.wide
    ensures ok <==> IsConversion(s.conversion, d) && call.FitsAfter(kinds, ConversionKinds(s))
    ensures ok ==> out == out0 + Modifier(s) + [s.conversion] && call.Feeds(kinds + ConversionKinds(s), args)
  {
    out, args, ok := out0, args0, true;
    var slot := call.arguments(|args0|);
    call.FeedsMore(kinds, args0, ConversionKinds(s));
    if IsInteger(conversion) {
      if wide {
        args := args + [Long(slot)];
        out := out + "ll";
      } else {
        args := args + [Word(slot % TWO32)];
      }
      out := out + [conversion];
    } else if IsCharacter(conversion) {
      args := args + [Word(slot % TWO32)];
      if wide {
        out := out + "l";
      }
      out := out + [conversion];
    } else if IsFloating(conversion) {
      args := args + [Bits(slot)];
      out := out + [conversion];
    } else if IsPointer(conversion, d) {
      if slot >= TWO32 {
        return out, args, false;
      }
      var pointer := slot;
      if pointer == 0 && (conversion == 's' || conversion == 'S') {
        pointer := call.nulls(conversion, wide);
      }
      args := args + [Word(pointer)];
      if wide && conversion == 's' {
        out := out + "l";
      }
      out := out + [conversion];
    } else if conversion == 'm' {
      out := out + "m";
    } else {
      ok := false;
    }
  }

  // Numbers that stand before it always fit, so only the rest can fail to.
  lemma OnlyTheRestMustFit(call: Call, kinds: seq<Kind>, nums: seq<Kind>, rest: seq<Kind>)
    requires forall k :: 0 <= k < |nums| ==> nums[k] == Int32
    ensures call.FitsAfter(kinds + nums, rest) <==> call.FitsAfter(kinds, nums + rest)
  {
    var all := nums + rest;
    if call.FitsAfter(kinds + nums, rest) {
      forall k | 0 <= k < |all| && all[k].Pointer?
        ensures call.arguments(|kinds| + k) < TWO32
      {
        assert rest[k - |nums|].Pointer?;
      }
    }
    if call.FitsAfter(kinds, all) {
      forall k | 0 <= k < |rest| && rest[k].Pointer?
        ensures call.arguments(|kinds + nums| + k) < TWO32
      {
        assert all[|nums| + k].Pointer?;
      }
    }
  }

  lemma OnlyLetterMustFit(call: Call, kinds: seq<Kind>, s: Spec, nums: seq<Kind>)
    requires nums == NumKinds(s.width) + PrecisionKinds(s.precision)
    ensures kinds + nums + ConversionKinds(s) == kinds + SpecKinds(s)
    ensures call.FitsAfter(kinds + nums, ConversionKinds(s)) <==> call.FitsAfter(kinds, SpecKinds(s))
  {
    hide Call.FitsAfter, ConversionKinds;
    assert SpecKinds(s) == nums + ConversionKinds(s);
    OnlyTheRestMustFit(call, kinds, nums, ConversionKinds(s));
  }

  lemma Printed(out0: string, s: Spec, before: string)
    requires before == out0 + s.flags + PrintNum(s.width) + PrintPrecision(s.precision)
    ensures before + Modifier(s) + [s.conversion] == out0 + PrintSpec(s)
  {
    hide PrintNum, PrintPrecision, Modifier;
  }

  // A precision, if there is one.
  method MarshalPrecision(text: string, from: nat, out0: string, args0: seq<Arg>, call: Call, ghost kinds: seq<Kind>)
    returns (c: nat, out: string, args: seq<Arg>, ok: bool)
    requires from <= |text| && call.Feeds(kinds, args0)
    ensures ok <==> ParsePrecision(text[from..]).Some?
    ensures ok ==>
      var (precision, rest) := ParsePrecision(text[from..]).value;
      && from <= c <= |text| && rest == text[c..]
      && out == out0 + PrintPrecision(precision)
      && call.Feeds(kinds + PrecisionKinds(precision), args)
  {
    hide Call.Feeds, ParseNum, NumKinds, PrintNum;
    c, out, args, ok := from, out0, args0, true;
    assert kinds + [] == kinds;
    if c < |text| && text[c] == '.' {
      out := out + [text[c]];
      c := c + 1;
      assert text[from..][1..] == text[c..];
      c, out, args := CopyNum(text, c, out, args, call, kinds);
      ok := !(c < |text| && text[c] == '$');
    }
  }

  // One conversion, from after its '%'. `ok` is false where the process stops.
  method MarshalSpec(text: string, from: nat, d: Dialect, out0: string, args0: seq<Arg>, call: Call, ghost kinds: seq<Kind>)
    returns (c: nat, out: string, args: seq<Arg>, ok: bool)
    requires from <= |text| && call.Feeds(kinds, args0)
    ensures ok <==> ParseSpec(text[from..], d).Some? && call.FitsAfter(kinds, SpecKinds(ParseSpec(text[from..], d).value.0))
    ensures ok ==>
      var (spec, rest) := ParseSpec(text[from..], d).value;
      && from < c <= |text| && rest == text[c..]
      && out == out0 + PrintSpec(spec)
      && call.Feeds(kinds + SpecKinds(spec), args)
  {
    hide Convert, ConversionKinds, IsConversion, ParseModifiers, ParseNum, FlagsRun, NumKinds, Modifier, PrintNum;
    hide Call.Feeds, Call.FitsAfter, PrintSpec, PrintPrecision, ParsePrecision, PrecisionKinds;
    c, out := CopyFlags(text, from, out0);
    ghost var flags := text[from..c];
    ghost var f := FlagsRun(text[from..]);
    assert text[from..][..f] == flags && text[from..][f..] == text[c..];
    ghost var (width, s1) := ParseNum(text[c..]);
    c, out, args := CopyNum(text, c, out, args0, call, kinds);
    assert s1 == text[c..];
    if c < |text| && text[c] == '$' {
      return c, out, args, false;
    }
    c, out, args, ok := MarshalPrecision(text, c, out, args, call, kinds + NumKinds(width));
    if !ok {
      return;
    }
    ghost var precision := ParsePrecision(s1).value.0;
    ghost var nums := NumKinds(width) + PrecisionKinds(precision);
    assert kinds + NumKinds(width) + PrecisionKinds(precision) == kinds + nums;
    ghost var before := out;
    var wide;
    wide, c := SkipModifiers(text, c, d);
    if c == |text| {
      return c, out, args, false;
    }
    ghost var spec := Spec(flags, width, precision, wide, text[c]);
    OnlyLetterMustFit(call, kinds, spec, nums);
    out, args, ok := MarshalLetter(text[c], wide, d, out, args, call, kinds + nums, spec);
    if ok {
      Printed(out0, spec, before);
    }
    c := c + 1;
    assert text[c - 1..][1..] == text[c..];
  }

  lemma KindsAppend(a: seq<Item>, b: seq<Item>)
    ensures Kinds(a + b) == Kinds(a) + Kinds(b)
  {
    hide SpecKinds;
    if a == [] {
      assert a + b == b && Kinds(a) == [];
    } else {
      KindsAppend(a[1..], b);
      assert (a + b)[1..] == a[1..] + b && (a + b)[0] == a[0];
    }
  }

  lemma PrintAppend(a: seq<Item>, b: seq<Item>)
    ensures Print(a + b) == Print(a) + Print(b)
  {
    hide PrintItem;
    if a == [] {
      assert a + b == b && Print(a) == "";
    } else {
      PrintAppend(a[1..], b);
      assert (a + b)[1..] == a[1..] + b && (a + b)[0] == a[0];
    }
  }

  // The items so far and one more.
  lemma DoneMore(done: seq<Item>, item: Item, rest: Option<seq<Item>>)
    ensures Append(done, Prepend(item, rest)) == Append(done + [item], rest)
    ensures Print(done + [item]) == Print(done) + PrintItem(item)
    ensures Kinds(done + [item]) == Kinds(done) + (if item.Conversion? then SpecKinds(item.spec) else [])
  {
    hide PrintItem, SpecKinds;
    KindsAppend(done, [item]);
    PrintAppend(done, [item]);
    assert Print([item]) == PrintItem(item) + Print([]);
    if rest.Some? {
      assert done + ([item] + rest.value) == done + [item] + rest.value;
    }
  }

  lemma FitsBoth(call: Call, kinds: seq<Kind>, more: seq<Kind>)
    ensures call.Fits(kinds + more) <==> call.Fits(kinds) && call.FitsAfter(kinds, more)
  {
    var all := kinds + more;
    if call.Fits(all) {
      forall k | 0 <= k < |kinds| && kinds[k].Pointer?
        ensures call.arguments(k) < TWO32
      {
        assert all[k].Pointer?;
      }
      forall k | 0 <= k < |more| && more[k].Pointer?
        ensures call.arguments(|kinds| + k) < TWO32
      {
        assert all[|kinds| + k].Pointer?;
      }
    }
    if call.Fits(kinds) && call.FitsAfter(kinds, more) {
      forall k | 0 <= k < |all| && all[k].Pointer?
        ensures call.arguments(k) < TWO32
      {
        if k >= |kinds| {
          assert more[k - |kinds|].Pointer?;
        }
      }
    }
  }

  // What fits so far and fits in what comes next, fits together; what does not fit never will.
  lemma FitsMore(call: Call, done: seq<Item>, item: Item, rest: Option<seq<Item>>)
    requires call.Fits(Kinds(done)) && item.Conversion?
    ensures call.FitsAfter(Kinds(done), SpecKinds(item.spec)) <==> call.Fits(Kinds(done + [item]))
    ensures rest.Some? && !call.Fits(Kinds(done + [item])) ==> !call.Fits(Kinds(done + [item] + rest.value))
  {
    hide Call.Fits, Call.FitsAfter, SpecKinds, Kinds;
    DoneMore(done, item, rest);
    FitsBoth(call, Kinds(done), SpecKinds(item.spec));
    if rest.Some? {
      KindsAppend(done + [item], rest.value);
      FitsBoth(call, Kinds(done + [item]), Kinds(rest.value));
    }
  }

  // The rewritten text and the packed arguments. `ok` is false where the process stops: exactly where the format is not one
  // it takes or a pointer does not fit.
  method Marshal(text: string, d: Dialect, call: Call) returns (out: string, args: seq<Arg>, ok: bool)
    ensures ok <==> Tokenize(text, d).Some? && call.Fits(Kinds(Tokenize(text, d).value))
    ensures ok ==> out == Print(Tokenize(text, d).value) && call.Feeds(Kinds(Tokenize(text, d).value), args)
    ensures ok ==> call.Packs(Kinds(Tokenize(text, d).value), args)
    ensures ok ==> HostReads(out, d) == Some(Classes(args))
  {
    hide Call.Feeds, Call.Fits, Call.FitsAfter, Call.Packs, SpecKinds, ParseSpec, PrintSpec, Kinds, Print, HostReads, Classes;
    hide KindClasses;
    out, args, ok := "", [], true;
    var c: nat := 0;
    ghost var done: seq<Item> := [];
    Start(call);
    assert text[0..] == text;
    StartsAll(Tokenize(text, d));
    while c < |text|
      invariant c <= |text|
      invariant Append(done, Tokenize(text[c..], d)) == Tokenize(text, d)
      invariant out == Print(done) && call.Feeds(Kinds(done), args) && call.Fits(Kinds(done))
    {
      ghost var before, here := done, text[c..];
      if text[c] != '%' {
        assert here[1..] == text[c + 1..];
        done := done + [Literal(text[c])];
        DoneMore(before, Literal(text[c]), Tokenize(text[c + 1..], d));
        assert Kinds(before) + [] == Kinds(before);
        out := out + [text[c]];
        c := c + 1;
      } else if c + 1 < |text| && text[c + 1] == '%' {
        assert here[2..] == text[c + 2..];
        done := done + [Percent];
        DoneMore(before, Percent, Tokenize(text[c + 2..], d));
        assert Kinds(before) + [] == Kinds(before);
        out := out + "%%";
        c := c + 2;
      } else {
        assert here[1..] == text[c + 1..];
        ghost var parsed := ParseSpec(text[c + 1..], d);
        ghost var was := out;
        out := out + "%";
        c, out, args, ok := MarshalSpec(text, c + 1, d, out, args, call, Kinds(done));
        if parsed.Some? {
          ghost var item := Conversion(parsed.value.0);
          DoneMore(before, item, Tokenize(parsed.value.1, d));
          FitsMore(call, before, item, Tokenize(parsed.value.1, d));
          done := done + [item];
        }
        if !ok {
          return;
        }
        assert out == was + ("%" + PrintSpec(parsed.value.0));
      }
    }
    assert text[c..] == [];
    assert done + [] == done;
    HostReadsArguments(text, d);
    PackedAsRead(call, Kinds(done), args);
    call.FedIsPacked(Kinds(done), args);
  }

  // Each argument is packed in the bytes its kind takes.
  lemma PackedAsRead(call: Call, kinds: seq<Kind>, args: seq<Arg>)
    requires call.Feeds(kinds, args)
    ensures Classes(args) == KindClasses(kinds)
  {
    forall k | 0 <= k < |args|
      ensures ClassOf(args[k]) == KindClass(kinds[k])
    {
      assert args[k] == Convert(kinds[k], call.arguments(k), call.nulls);
    }
  }

  lemma Start(call: Call)
    ensures Print([]) == "" && call.Feeds(Kinds([]), []) && call.Fits(Kinds([]))
  {
  }

  lemma StartsAll(items: Option<seq<Item>>)
    ensures Append([], items) == items
  {
    if items.Some? {
      assert [] + items.value == items.value;
    }
  }
}
