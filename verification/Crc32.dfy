/** The table-driven CRC-32, and the bit-at-a-time one of section 8 of RFC 1952 that it stands for. */
module Crc32 {
  const POLYNOMIAL: bv32 := 0xEDB8_8320

  function Xor(a: bv32, b: bv32): bv32 {
    a ^ b
  }

  function Half(c: bv32): bv32 {
    c >> 1
  }

  predicate Odd(c: bv32) {
    c & 1 == 1
  }

  // One step of the register: the polynomial is taken off where a one falls out.
  function Shift(c: bv32): bv32 {
    if Odd(c) then Xor(POLYNOMIAL, Half(c)) else Half(c)
  }

  function Shifts(c: bv32, k: nat): bv32 {
    if k == 0 then c else Shift(Shifts(c, k - 1))
  }

  // The polynomial has its highest coefficient in the lowest bit: it is 0x04C11DB7 backwards.
  lemma PolynomialReversed(k: bv32)
    requires k < 32
    ensures (POLYNOMIAL >> k) & 1 == ((0x04C1_1DB7 as bv32) >> (31 - k)) & 1
  {
  }

  // --- a bit at a time ---

  // A message bit meets the one that falls out.
  function TakeBit(c: bv32, bit: bool): bv32 {
    if Odd(c) != bit then Xor(POLYNOMIAL, Half(c)) else Half(c)
  }

  // The bits of a byte, least significant first.
  function TakeBits(c: bv32, byte: bv32, k: nat): bv32
    decreases k
  {
    if k == 0 then c else TakeBits(TakeBit(c, Odd(byte)), Half(byte), k - 1)
  }

  function TakeMessage(c: bv32, message: seq<bv8>): bv32 {
    if message == [] then c
    else TakeBits(TakeMessage(c, message[..|message| - 1]), message[|message| - 1] as bv32, 8)
  }

  function Crc(message: seq<bv8>): bv32 {
    TakeMessage(0xFFFF_FFFF, message) ^ 0xFFFF_FFFF
  }

  // The codes of no message and of the letter a.
  lemma KnownCodes()
    ensures Crc([]) == 0 && Crc([0x61]) == 0xE8B7_BE43
  {
    assert TakeBits(0xFFFF_FFFF, 0x61, 8) == TakeBits(0x7FFF_FFFF, 0x30, 7);
    assert TakeBits(0x7FFF_FFFF, 0x30, 7) == TakeBits(0xD247_7CDF, 0x18, 6);
    assert TakeBits(0xD247_7CDF, 0x18, 6) == TakeBits(0x849B_3D4F, 0xC, 5);
    assert TakeBits(0x849B_3D4F, 0xC, 5) == TakeBits(0xAFF5_1D87, 0x6, 4);
    assert TakeBits(0xAFF5_1D87, 0x6, 4) == TakeBits(0xBA42_0DE3, 0x3, 3);
    assert TakeBits(0xBA42_0DE3, 0x3, 3) == TakeBits(0x5D21_06F1, 0x1, 2);
    assert TakeBits(0x5D21_06F1, 0x1, 2) == TakeBits(0x2E90_8378, 0x0, 1);
    assert TakeBits(0x2E90_8378, 0x0, 1) == TakeBits(0x1748_41BC, 0x0, 0);
    assert [0x61 as bv8][..0] == [];
  }

  // --- linearity ---

  lemma XorAssociates(a: bv32, b: bv32, c: bv32)
    ensures Xor(Xor(a, b), c) == Xor(a, Xor(b, c))
  {
  }

  lemma XorCommutes(a: bv32, b: bv32)
    ensures Xor(a, b) == Xor(b, a)
  {
  }

  lemma XorCancels(a: bv32, b: bv32)
    ensures Xor(a, Xor(a, b)) == b
  {
  }

  lemma HalfXor(a: bv32, b: bv32)
    ensures Half(Xor(a, b)) == Xor(Half(a), Half(b))
  {
  }

  lemma OddXor(a: bv32, b: bv32)
    ensures Odd(Xor(a, b)) <==> Odd(a) != Odd(b)
  {
    Parity(a);
    Parity(b);
    assert (a ^ b) & 1 == (a & 1) ^ (b & 1);
  }

  lemma Parity(a: bv32)
    ensures a & 1 == 0 || a & 1 == 1
  {
  }

  lemma ShiftIsLinear(a: bv32, b: bv32)
    ensures Shift(Xor(a, b)) == Xor(Shift(a), Shift(b))
  {
    hide Xor, Half, Odd;
    OddXor(a, b);
    HalfXor(a, b);
    var p, x, y := POLYNOMIAL, Half(a), Half(b);
    XorAssociates(p, x, y);
    XorAssociates(p, x, Xor(p, y));
    XorAssociates(x, p, y);
    XorCommutes(p, x);
    XorCancels(p, Xor(x, y));
    XorAssociates(p, x, y);
  }

  lemma {:induction false} ShiftsAreLinear(a: bv32, b: bv32, k: nat)
    ensures Shifts(Xor(a, b), k) == Xor(Shifts(a, k), Shifts(b, k))
  {
    hide Xor, Shift;
    if k > 0 {
      ShiftsAreLinear(a, b, k - 1);
      ShiftIsLinear(Shifts(a, k - 1), Shifts(b, k - 1));
    }
  }

  // A zero at the low end only moves the rest down.
  lemma {:induction false} ZerosShiftOut(y: bv32, k: nat)
    requires forall j: nat :: j < k ==> !Odd(Down(y, j))
    ensures Shifts(y, k) == Down(y, k)
  {
    if k > 0 {
      ZerosShiftOut(y, k - 1);
    }
  }

  function Down(y: bv32, k: nat): bv32 {
    if k == 0 then y else Half(Down(y, k - 1))
  }

  lemma Halves(y: bv32)
    ensures Down(y, 0) == y && Down(y, 1) == y >> 1 && Down(y, 2) == y >> 2 && Down(y, 3) == y >> 3 && Down(y, 4) == y >> 4
    ensures Down(y, 5) == y >> 5 && Down(y, 6) == y >> 6 && Down(y, 7) == y >> 7 && Down(y, 8) == y >> 8
  {
    assert Down(y, 1) == y >> 1;
    assert Down(y, 2) == y >> 2;
    assert Down(y, 3) == y >> 3;
    assert Down(y, 4) == y >> 4;
    assert Down(y, 5) == y >> 5;
    assert Down(y, 6) == y >> 6;
    assert Down(y, 7) == y >> 7;
  }

  lemma LowZeros(high: bv32)
    requires high & 0xFF == 0
    ensures !Odd(high) && !Odd(high >> 1) && !Odd(high >> 2) && !Odd(high >> 3)
    ensures !Odd(high >> 4) && !Odd(high >> 5) && !Odd(high >> 6) && !Odd(high >> 7)
  {
  }

  lemma HighIsEven(high: bv32, j: nat)
    requires high & 0xFF == 0 && j < 8
    ensures !Odd(Down(high, j))
  {
    Halves(high);
    LowZeros(high);
    hide Odd, Down;
    assert j == 0 || j == 1 || j == 2 || j == 3 || j == 4 || j == 5 || j == 6 || j == 7;
  }

  lemma SplitLow(x: bv32)
    ensures x == Xor(x & 0xFF, x & 0xFFFF_FF00) && (x & 0xFFFF_FF00) >> 8 == x >> 8 && (x & 0xFFFF_FF00) & 0xFF == 0
  {
  }

  // A byte of the register looked up and the rest moved down is eight steps of the register.
  lemma LookUpIsEightShifts(x: bv32)
    ensures Xor(Shifts(x & 0xFF, 8), x >> 8) == Shifts(x, 8)
  {
    hide Xor, Odd, Down, Shifts;
    var low, high := x & 0xFF, x & 0xFFFF_FF00;
    SplitLow(x);
    ShiftsAreLinear(low, high, 8);
    forall j: nat | j < 8
      ensures !Odd(Down(high, j))
    {
      HighIsEven(high, j);
    }
    ZerosShiftOut(high, 8);
    Halves(high);
  }

  lemma TakeBitIsShift(c: bv32, byte: bv32)
    ensures Shift(Xor(c, byte)) == Xor(TakeBit(c, Odd(byte)), Half(byte))
  {
    hide Xor, Half, Odd;
    OddXor(c, byte);
    HalfXor(c, byte);
    XorAssociates(POLYNOMIAL, Half(c), Half(byte));
  }

  // Taking the bits one by one is putting the byte into the register and stepping it.
  lemma {:induction false} BitsAreShifts(c: bv32, byte: bv32, k: nat)
    ensures Shifts(Xor(c, byte), k) == Xor(TakeBits(c, byte, k), Down(byte, k))
    decreases k
  {
    hide Xor, Half, Odd, Shift, TakeBit;
    if k > 0 {
      TakeBitIsShift(c, byte);
      BitsAreShifts(TakeBit(c, Odd(byte)), Half(byte), k - 1);
      ShiftsFrom(Xor(c, byte), k - 1);
      DownFrom(byte, k - 1);
    }
  }

  lemma {:induction false} ShiftsFrom(c: bv32, k: nat)
    ensures Shifts(c, k + 1) == Shifts(Shift(c), k)
  {
    hide Shift;
    if k > 0 {
      ShiftsFrom(c, k - 1);
    }
  }

  lemma {:induction false} DownFrom(y: bv32, k: nat)
    ensures Down(y, k + 1) == Down(Half(y), k)
  {
    hide Half;
    if k > 0 {
      DownFrom(y, k - 1);
    }
  }

  lemma ByteRunsOut(byte: bv8)
    ensures Down(byte as bv32, 8) == 0
  {
    Halves(byte as bv32);
  }

  lemma XorZero(a: bv32)
    ensures Xor(a, 0) == a
  {
  }

  lemma ByteLeavesTheRest(c: bv32, byte: bv8)
    ensures Xor(c, byte as bv32) >> 8 == c >> 8
  {
  }

  // One table step takes a whole byte.
  lemma StepTakesByte(c: bv32, byte: bv8)
    ensures Xor(Shifts(Xor(c, byte as bv32) & 0xFF, 8), c >> 8) == TakeBits(c, byte as bv32, 8)
  {
    ByteRunsOut(byte);
    ByteLeavesTheRest(c, byte);
    hide Xor, Shifts, TakeBits, Down;
    var b := byte as bv32;
    LookUpIsEightShifts(Xor(c, b));
    BitsAreShifts(c, b, 8);
    XorZero(TakeBits(c, b, 8));
  }

  // --- the kernel ---

  method Table() returns (table: array<bv32>)
    ensures fresh(table) && table.Length == 256
    ensures forall x: int :: 0 <= x < 256 ==> table[x] == Shifts(x as bv32, 8)
  {
    hide Shifts, Xor, Half, Odd;
    table := new bv32[256];
    for i := 0 to 256
      invariant forall x: int :: 0 <= x < i ==> table[x] == Shifts(x as bv32, 8)
    {
      table[i] := EightShifts(i as bv32);
    }
  }

  method EightShifts(start: bv32) returns (c: bv32)
    ensures c == Shifts(start, 8)
  {
    hide Shifts, Xor, Half, Odd;
    c := start;
    NoShifts(c);
    for k := 0 to 8
      invariant c == Shifts(start, k)
    {
      OneMoreShift(start, k);
      c := if Odd(c) then Xor(POLYNOMIAL, Half(c)) else Half(c);
    }
  }

  lemma NoShifts(c: bv32)
    ensures Shifts(c, 0) == c
  {
  }

  lemma OneMoreShift(c: bv32, k: nat)
    ensures Shifts(c, k + 1) == Shift(Shifts(c, k))
  {
  }

  function LowByte(x: bv32): (i: int)
    ensures 0 <= i < 256 && i as bv32 == x & 0xFF
  {
    MaskIsSmall(x);
    IndexOf(x & 0xFF);
    (x & 0xFF) as int
  }

  lemma MaskIsSmall(x: bv32)
    ensures x & 0xFF < 256
  {
  }

  lemma IndexOf(y: bv32)
    requires y < 256
    ensures 0 <= y as int < 256 && (y as int) as bv32 == y
  {
  }

  lemma MessageMore(message: seq<bv8>, k: nat)
    requires k < |message|
    ensures TakeMessage(0xFFFF_FFFF, message[..k + 1])
         == TakeBits(TakeMessage(0xFFFF_FFFF, message[..k]), message[k] as bv32, 8)
  {
    hide TakeBits;
    assert message[..k + 1][..k] == message[..k];
  }

  method TableStep(table: array<bv32>, c: bv32, byte: bv8) returns (r: bv32)
    requires table.Length == 256 && forall x: int :: 0 <= x < 256 ==> table[x] == Shifts(x as bv32, 8)
    ensures r == TakeBits(c, byte as bv32, 8)
  {
    hide Shifts, TakeBits, Xor;
    StepTakesByte(c, byte);
    r := Xor(table[LowByte(Xor(c, byte as bv32))], c >> 8);
  }

  // The CRC of the first `size` bytes of the arena.
  method KCrc32(arena: array<bv8>, size: nat) returns (crc: bv64)
    requires size <= arena.Length
    ensures crc == Crc(arena[..size]) as bv64
  {
    hide Shifts, TakeMessage, TakeBits, Xor;
    var table := Table();
    var c: bv32 := 0xFFFF_FFFF;
    Nothing();
    ghost var message := arena[..size];
    assert message[..0] == [];
    for i := 0 to size
      invariant c == TakeMessage(0xFFFF_FFFF, message[..i])
      invariant forall x: int :: 0 <= x < 256 ==> table[x] == Shifts(x as bv32, 8)
    {
      MessageMore(message, i);
      c := TableStep(table, c, arena[i]);
    }
    assert message[..size] == message;
    crc := (c ^ 0xFFFF_FFFF) as bv64;
  }

  lemma Nothing()
    ensures TakeMessage(0xFFFF_FFFF, []) == 0xFFFF_FFFF
  {
  }
}
