/** The narrowing and widening of integers and pointers between a 64-bit guest and a 32-bit host, and when a value comes back
  * from the other side.
  */
module ScalarBridge {
  import opened Wrappers
  import Arithmetic

  datatype Bits = B8 | B16 | B32 | B64

  function Bytes(b: Bits): nat {
    match b
    case B8 => 1
    case B16 => 2
    case B32 => 4
    case B64 => 8
  }

  function Range(b: Bits): nat {
    match b
    case B8 => 0x100
    case B16 => 0x1_0000
    case B32 => 0x1_0000_0000
    case B64 => 0x1_0000_0000_0000_0000
  }

  // --- scalars ---

  datatype Scalar = Integer(signed: bool, bits: Bits) | Floating(bits: Bits) | Pointer | Object | Unsupported

  function Least(signed: bool, b: Bits): int {
    if signed then -(Range(b) / 2) else 0
  }

  function Greatest(signed: bool, b: Bits): int {
    if signed then Range(b) / 2 - 1 else Range(b) - 1
  }

  // A C conversion to an integer type.
  function Cast(x: int, signed: bool, b: Bits): int {
    var w := x % Range(b);
    if signed && w > Greatest(true, b) then w - Range(b) else w
  }

  function NarrowSigned(value: int, hostMin: int, hostMax: int, guestMin: int, guestMax: int): Option<int> {
    if value == guestMax then Some(hostMax)
    else if value == guestMin then Some(hostMin)
    else if value < hostMin || value > hostMax then None
    else Some(value)
  }

  function NarrowUnsigned(value: int, hostMax: int, guestMax: int): Option<int> {
    if value == guestMax then Some(hostMax)
    else if value > hostMax then None
    else Some(value)
  }

  function NarrowPointer(value: int): Option<int> {
    if value >= 0x1_0000_0000 then
      if value >= 0xFFFF_FFFF_FFFF_FF00 then Some(value % 0x1_0000_0000) else None
    else Some(value)
  }

  function WidenPointer(value: int): int {
    if value >= 0xFFFF_FF00 then Cast(Cast(value, true, B32), false, B64) else value
  }

  function WidenSigned(value: int, hostMin: int, hostMax: int, guestMin: int, guestMax: int): int {
    if value == hostMax then guestMax else if value == hostMin then guestMin else value
  }

  function WidenUnsigned(value: int, hostMax: int, guestMax: int): int {
    if value == hostMax then guestMax else value
  }

  predicate Plain(s: Scalar) {
    s.Integer? || s.Pointer?
  }

  // What a guest field holds, as the bits it is stored in; and the host's value for it, none where the process stops.
  function ScalarToGuest(g: Scalar, h: Scalar, x: int): int
    requires Plain(g) && (g.Integer? <==> h.Integer?)
  {
    if g.Pointer? then WidenPointer(x)
    else
      var wide :=
        if Bytes(h.bits) < Bytes(g.bits) then
          if g.signed then
            WidenSigned(Cast(x, true, B64), Least(true, h.bits), Greatest(true, h.bits), Least(true, g.bits),
                Greatest(true, g.bits))
          else WidenUnsigned(Cast(x, false, B64), Greatest(false, h.bits), Greatest(false, g.bits))
        else x;
      Cast(Cast(wide, false, B64), false, g.bits)
  }

  function ScalarToHost(g: Scalar, h: Scalar, word: int): Option<int>
    requires Plain(g) && (g.Integer? <==> h.Integer?)
  {
    if g.Pointer? then NarrowPointer(word)
    else
      var field := Cast(word, g.signed, g.bits);
      var narrow :=
        if Bytes(h.bits) < Bytes(g.bits) then
          if g.signed then
            NarrowSigned(field, Least(true, h.bits), Greatest(true, h.bits), Least(true, g.bits), Greatest(true, g.bits))
          else NarrowUnsigned(field, Greatest(false, h.bits), Greatest(false, g.bits))
        else Some(field);
      match narrow
      case Some(y) => Some(Cast(y, h.signed, h.bits))
      case None => None
  }

  predicate HostHas(h: Scalar, x: int) {
    match h
    case Integer(signed, bits) => Least(signed, bits) <= x <= Greatest(signed, bits)
    case Pointer => 0 <= x < 0x1_0000_0000
    case _ => true
  }

  ghost predicate RoundTrips(g: Scalar, h: Scalar)
    requires Plain(g) && (g.Integer? <==> h.Integer?) && (g.Pointer? <==> h.Pointer?)
  {
    forall x :: HostHas(h, x) ==> ScalarToHost(g, h, ScalarToGuest(g, h, x)) == Some(x)
  }

  // No wider for the host, and of the same sign unless of the same width.
  predicate Exact(g: Scalar, h: Scalar) {
    || (g.Pointer? && h.Pointer?)
    || (g.Integer? && h.Integer? && Bytes(h.bits) <= Bytes(g.bits) && (g.signed == h.signed || g.bits == h.bits))
  }

  // --- what the other side sees ---

  // The guest reads a host value in its field as the number it is, but the host's extremes as its own where it is the wider;
  // and a pointer as it is, but the top 256 of four bytes as those of eight.
  lemma GuestSees(g: Scalar, h: Scalar, x: int)
    requires Exact(g, h) && HostHas(h, x)
    ensures g.Pointer? ==>
      ScalarToGuest(g, h, x) == if x >= 0xFFFF_FF00 then x + 0xFFFF_FFFF_0000_0000 else x
    ensures g.Integer? && g.signed == h.signed ==>
      Cast(ScalarToGuest(g, h, x), g.signed, g.bits) ==
      if x == Greatest(h.signed, h.bits) then Greatest(g.signed, g.bits)
      else if x == Least(h.signed, h.bits) then Least(g.signed, g.bits)
      else x
    ensures g.Integer? && g.bits == h.bits ==> ScalarToGuest(g, h, x) == x % Range(g.bits)
    ensures g.Integer? ==> 0 <= ScalarToGuest(g, h, x) < Range(g.bits)
  {
    hide Cast;
    if g.Integer? && g.bits == h.bits {
      SameWidth(x, g.bits);
    }
    if g.Integer? {
      if g.signed == h.signed {
        IntegerSeen(g, h, x);
      }
      CastInRange(ScalarToGuest(g, h, x), false, g.bits);
      FieldStored(g, h, x);
    } else {
      WidenedIs(x);
    }
  }

  lemma SameWidth(x: int, b: Bits)
    ensures Cast(Cast(x, false, B64), false, b) == x % Range(b)
  {
    CastAgain(x, false, b, false, B64);
  }

  lemma FieldStored(g: Scalar, h: Scalar, x: int)
    requires g.Integer? && h.Integer?
    ensures 0 <= ScalarToGuest(g, h, x) < Range(g.bits)
  {
  }

  lemma WidenedIs(x: int)
    requires 0 <= x < 0x1_0000_0000
    ensures WidenPointer(x) == if x >= 0xFFFF_FF00 then x + 0xFFFF_FFFF_0000_0000 else x
  {
  }

  lemma IntegerSeen(g: Scalar, h: Scalar, x: int)
    requires g.Integer? && h.Integer? && Exact(g, h) && HostHas(h, x) && g.signed == h.signed
    ensures Cast(ScalarToGuest(g, h, x), g.signed, g.bits) ==
            if x == Greatest(h.signed, h.bits) then Greatest(g.signed, g.bits)
            else if x == Least(h.signed, h.bits) then Least(g.signed, g.bits)
            else x
  {
    hide Cast;
    if Bytes(h.bits) < Bytes(g.bits) {
      var wide :=
        if g.signed then
          WidenSigned(x, Least(true, h.bits), Greatest(true, h.bits), Least(true, g.bits), Greatest(true, g.bits))
        else WidenUnsigned(x, Greatest(false, h.bits), Greatest(false, g.bits));
      CastFits(x, g.signed, B64);
      FieldIs(wide, g.signed, g.bits);
      CastFits(wide, g.signed, g.bits);
    } else {
      FieldIs(x, g.signed, g.bits);
      CastFits(x, g.signed, g.bits);
    }
  }

  // The host takes a guest integer exactly where it has the number, or the number is one of the guest's extremes; and a
  // pointer where it has four bytes or is among the top 256.
  lemma HostTakes(g: Scalar, h: Scalar, word: int)
    requires Exact(g, h) && 0 <= word < Range(if g.Integer? then g.bits else B64)
    ensures g.Integer? && g.signed == h.signed ==>
      var n := Cast(word, g.signed, g.bits);
      ScalarToHost(g, h, word) ==
        if n == Greatest(g.signed, g.bits) then Some(Greatest(h.signed, h.bits))
        else if n == Least(g.signed, g.bits) then Some(Least(h.signed, h.bits))
        else if Least(h.signed, h.bits) <= n <= Greatest(h.signed, h.bits) then Some(n)
        else None
    ensures g.Integer? && g.bits == h.bits ==> ScalarToHost(g, h, word) == Some(Cast(word, h.signed, h.bits))
    ensures g.Pointer? ==>
      ScalarToHost(g, h, word) ==
        if word < 0x1_0000_0000 then Some(word)
        else if word >= 0xFFFF_FFFF_FFFF_FF00 then Some(word - 0xFFFF_FFFF_0000_0000)
        else None
  {
    if g.Integer? && g.signed == h.signed {
      IntegerTaken(g, h, word);
    }
    if g.Integer? && g.bits == h.bits {
      CastAgain(word, h.signed, h.bits, g.signed, g.bits);
    }
    hide Cast;
  }

  lemma IntegerTaken(g: Scalar, h: Scalar, word: int)
    requires g.Integer? && h.Integer? && Exact(g, h) && g.signed == h.signed
    ensures var n := Cast(word, g.signed, g.bits);
            ScalarToHost(g, h, word) ==
              if n == Greatest(g.signed, g.bits) then Some(Greatest(h.signed, h.bits))
              else if n == Least(g.signed, g.bits) then Some(Least(h.signed, h.bits))
              else if Least(h.signed, h.bits) <= n <= Greatest(h.signed, h.bits) then Some(n)
              else None
  {
    hide Cast;
    var n := Cast(word, g.signed, g.bits);
    CastInRange(word, g.signed, g.bits);
    CastFits(Greatest(h.signed, h.bits), h.signed, h.bits);
    CastFits(Least(h.signed, h.bits), h.signed, h.bits);
    if Least(h.signed, h.bits) <= n <= Greatest(h.signed, h.bits) {
      CastFits(n, h.signed, h.bits);
    }
  }

  // --- conversions between integer types ---

  lemma ModAgain(x: int, k: int, n: int)
    requires n > 0
    ensures (x + k * n) % n == x % n
  {
    var q, r := x / n, x % n;
    assert x + k * n == (q + k) * n + r;
    Arithmetic.Unique(x + k * n, n, q + k, r);
  }

  // Narrowing twice is narrowing once.
  lemma CastAgain(x: int, signed: bool, b: Bits, s1: bool, b1: Bits)
    requires Bytes(b) <= Bytes(b1)
    ensures Cast(Cast(x, s1, b1), signed, b) == Cast(x, signed, b)
  {
    var n, n1 := Range(b), Range(b1);
    var m := Ratio(b, b1);
    var k := -(x / n1) - (if Cast(x, s1, b1) < x % n1 then 1 else 0);
    assert Cast(x, s1, b1) == x + k * n1;
    Regroup(k, m, n);
    ModAgain(x, k * m, n);
  }

  lemma Regroup(k: int, m: int, n: int)
    ensures k * (m * n) == (k * m) * n
  {
  }

  function Ratio(b: Bits, b1: Bits): (m: nat)
    requires Bytes(b) <= Bytes(b1)
    ensures Range(b1) == m * Range(b)
  {
    Range(b1) / Range(b)
  }

  lemma CastFits(x: int, signed: bool, b: Bits)
    requires Least(signed, b) <= x <= Greatest(signed, b)
    ensures Cast(x, signed, b) == x
  {
    if x < 0 {
      Arithmetic.Unique(x, Range(b), -1, x + Range(b));
    } else {
      Arithmetic.Unique(x, Range(b), 0, x);
    }
  }

  lemma CastInRange(x: int, signed: bool, b: Bits)
    ensures Least(signed, b) <= Cast(x, signed, b) <= Greatest(signed, b)
  {
  }

  // What the guest's field reads as, given what it was assigned.
  lemma FieldIs(wide: int, signed: bool, b: Bits)
    ensures Cast(Cast(Cast(wide, false, B64), false, b), signed, b) == Cast(wide, signed, b)
  {
    CastAgain(Cast(wide, false, B64), signed, b, false, b);
    CastAgain(wide, signed, b, false, B64);
  }

  lemma IntegerThere(g: Scalar, h: Scalar, x: int)
    requires g.Integer? && h.Integer? && Exact(g, h) && HostHas(h, x)
    ensures ScalarToHost(g, h, ScalarToGuest(g, h, x)) == Some(x)
  {
    hide Cast;
    CastFits(x, h.signed, h.bits);
    if Bytes(h.bits) < Bytes(g.bits) {
      var wide :=
        if g.signed then
          WidenSigned(x, Least(true, h.bits), Greatest(true, h.bits), Least(true, g.bits), Greatest(true, g.bits))
        else WidenUnsigned(x, Greatest(false, h.bits), Greatest(false, g.bits));
      CastFits(x, g.signed, B64);
      FieldIs(wide, g.signed, g.bits);
      CastFits(wide, g.signed, g.bits);
    } else {
      FieldIs(x, g.signed, g.bits);
      CastAgain(x, h.signed, h.bits, g.signed, g.bits);
    }
  }

  lemma PointerThere(x: int)
    requires 0 <= x < 0x1_0000_0000
    ensures 0 <= WidenPointer(x) < Range(B64)
    ensures NarrowPointer(WidenPointer(x)) == Some(x)
  {
  }

  // A host value of every kind comes back from the guest's form of it, for exactly these pairs of types.
  lemma ScalarRoundTrip(g: Scalar, h: Scalar)
    requires Plain(g) && (g.Integer? <==> h.Integer?) && (g.Pointer? <==> h.Pointer?)
    ensures RoundTrips(g, h) <==> Exact(g, h)
  {
    hide ScalarToGuest, ScalarToHost;
    if Exact(g, h) {
      forall x | HostHas(h, x)
        ensures ScalarToHost(g, h, ScalarToGuest(g, h, x)) == Some(x)
      {
        if g.Integer? {
          IntegerThere(g, h, x);
        } else {
          PointerComesBack(g, h, x);
        }
      }
    } else {
      LostOnTheWay(g, h);
    }
  }

  lemma PointerComesBack(g: Scalar, h: Scalar, x: int)
    requires g.Pointer? && h.Pointer? && HostHas(h, x)
    ensures ScalarToHost(g, h, ScalarToGuest(g, h, x)) == Some(x)
  {
    hide WidenPointer, NarrowPointer;
    PointerThere(x);
  }

  // Too wide for the guest, or of the sign it does not have.
  lemma LostOnTheWay(g: Scalar, h: Scalar)
    requires g.Integer? && h.Integer? && !Exact(g, h)
    ensures exists x :: HostHas(h, x) && ScalarToHost(g, h, ScalarToGuest(g, h, x)) != Some(x)
  {
    hide Cast;
    var x := if Bytes(h.bits) > Bytes(g.bits) then Range(g.bits) else if h.signed then -2 else Greatest(false, h.bits) - 1;
    assert HostHas(h, x);
    if Bytes(h.bits) > Bytes(g.bits) {
      FieldIs(x, g.signed, g.bits);
      WrapsToZero(g.bits, g.signed);
      CastFits(0, h.signed, h.bits);
    } else if h.signed {
      MinusTwo(g.bits);
      FieldIs(-2 + Range(B64), false, g.bits);
      assert Cast(-2, false, B64) == -2 + Range(B64) by { CastIsOnceOver(B64); }
      CastFits(Range(g.bits) - 2, false, g.bits);
    } else {
      CastFits(x, true, B64);
      FieldIs(x, true, g.bits);
      CastFits(x, true, g.bits);
    }
    assert ScalarToHost(g, h, ScalarToGuest(g, h, x)) != Some(x);
  }

  lemma WrapsToZero(b: Bits, signed: bool)
    ensures Cast(Range(b), signed, b) == 0
  {
  }

  lemma CastIsOnceOver(b: Bits)
    ensures Cast(-2, false, b) == -2 + Range(b)
  {
  }

  lemma MinusTwo(b: Bits)
    ensures Cast(-2 + Range(B64), false, b) == -2 + Range(b)
  {
    CastIsOnceOver(B64);
    CastIsOnceOver(b);
    CastAgain(-2, false, b, false, B64);
  }

  // The way back: what the guest hands over returns unless it is the host's own extreme, or a pointer among the top 256 of
  // four bytes, which come back as the guest's.
  lemma GuestRoundTrip(g: Scalar, h: Scalar, word: int)
    requires Exact(g, h) && 0 <= word < Range(if g.Integer? then g.bits else B64)
    requires ScalarToHost(g, h, word).Some?
    ensures ScalarToGuest(g, h, ScalarToHost(g, h, word).value) == word <==>
            if g.Pointer? then !(0xFFFF_FF00 <= word < 0x1_0000_0000)
            else g.bits == h.bits || Cast(word, g.signed, g.bits) !in Extremes(g.signed, h.bits)
  {
    if g.Integer? {
      IntegerBack(g, h, word);
    } else {
      PointerBack(word);
    }
  }

  lemma PointerBack(word: int)
    requires 0 <= word < Range(B64) && NarrowPointer(word).Some?
    ensures WidenPointer(NarrowPointer(word).value) == word <==> !(0xFFFF_FF00 <= word < 0x1_0000_0000)
  {
  }

  function Extremes(signed: bool, b: Bits): set<int> {
    if signed then {Least(true, b), Greatest(true, b)} else {Greatest(false, b)}
  }

  lemma IntegerBack(g: Scalar, h: Scalar, word: int)
    requires g.Integer? && h.Integer? && Exact(g, h) && 0 <= word < Range(g.bits)
    requires ScalarToHost(g, h, word).Some?
    ensures ScalarToGuest(g, h, ScalarToHost(g, h, word).value) == word <==>
            g.bits == h.bits || Cast(word, g.signed, g.bits) !in Extremes(g.signed, h.bits)
  {
    hide Cast;
    var field := Cast(word, g.signed, g.bits);
    CastInRange(word, g.signed, g.bits);
    CastFits(word, false, g.bits);
    CastAgain(word, false, g.bits, g.signed, g.bits);
    assert Cast(field, false, g.bits) == word;
    if g.bits == h.bits {
      var x := Cast(field, h.signed, h.bits);
      CastAgain(x, false, g.bits, false, B64);
      CastAgain(field, false, g.bits, h.signed, h.bits);
    } else {
      var extreme := if field == Greatest(g.signed, h.bits) then Greatest(g.signed, g.bits)
                     else if g.signed && field == Least(true, h.bits) then Least(true, g.bits)
                     else field;
      assert ScalarToHost(g, h, word) == Some(if field == Greatest(g.signed, g.bits) then Greatest(g.signed, h.bits)
                                              else if g.signed && field == Least(true, g.bits) then Least(true, h.bits)
                                              else field) by {
        CastFits(Greatest(g.signed, h.bits), h.signed, h.bits);
        CastFits(Least(g.signed, h.bits), h.signed, h.bits);
        if Least(g.signed, h.bits) <= field <= Greatest(g.signed, h.bits) {
          CastFits(field, h.signed, h.bits);
        }
      }
      var x := ScalarToHost(g, h, word).value;
      CastFits(x, g.signed, B64);
      CastAgain(extreme, false, g.bits, false, B64);
      CastAgain(extreme, g.signed, g.bits, false, g.bits);
      CastAgain(field, g.signed, g.bits, false, g.bits);
      CastFits(extreme, g.signed, g.bits);
    }
  }
}
