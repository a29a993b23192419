/** Mode S parity as division of polynomials over GF(2): the scheme of section 3.1.2.3.3 of
    ICAO Annex 10, Volume IV. Words hold polynomials of degree below 24, most significant bit first.
  */
module CrcPolynomial {

  /** The generator, x^24 included. */
  const GENERATOR: bv32 := 0x1FFF409

  predicate Is24(w: bv32) {
    w & 0xFF000000 == 0
  }

  // ---------- the specification: schoolbook long division ----------

  /** Subtract the generator from a remainder that has reached degree 24. */
  function Reduce(v: bv32): bv32 {
    if v & 0x1000000 != 0 then v ^ GENERATOR else v
  }

  /** Bring down the next bit of the dividend. */
  function BringDown(w: bv32, bit: bool): bv32 {
    Reduce(if bit then (w << 1) | 1 else w << 1)
  }

  function Divide(w: bv32, bits: seq<bool>): bv32
    decreases |bits|
  {
    if bits == [] then w else Divide(BringDown(w, bits[0]), bits[1..])
  }

  function BitsOfByte(b: bv8): seq<bool> {
    [b & 0x80 != 0, b & 0x40 != 0, b & 0x20 != 0, b & 0x10 != 0, b & 0x08 != 0, b & 0x04 != 0, b & 0x02 != 0,
     b & 0x01 != 0]
  }

  function Bits(data: seq<bv8>): seq<bool> {
    if data == [] then [] else BitsOfByte(data[0]) + Bits(data[1..])
  }

  function Zeros(n: nat): seq<bool> {
    if n == 0 then [] else [false] + Zeros(n - 1)
  }

  /** The parity of a message: the remainder of M(x) * x^24. */
  function Parity(data: seq<bv8>): bv32 {
    Divide(0, Bits(data) + Zeros(24))
  }

  // ---------- the shift register ----------

  /** Addition of polynomials. Proofs that only need its algebra hide the definition. */
  function Add(a: bv32, b: bv32): bv32 {
    a ^ b
  }

  /** The bit that leaves the register, and what it feeds back. */
  predicate Top(c: bv32) {
    c & 0x800000 != 0
  }

  function Up(c: bv32): bv32 {
    c << 1
  }

  function Feedback(c: bv32): bv32 {
    if Top(c) then GENERATOR else 0
  }

  function ShiftStep(c: bv32): bv32 {
    Add(Up(c), Feedback(c))
  }

  function Steps(c: bv32, n: nat): bv32
    decreases n
  {
    if n == 0 then c else Steps(ShiftStep(c), n - 1)
  }

  /** A message byte lined up with the top of the register. */
  function Word(b: bv8): bv32 {
    (b as bv32) << 16
  }

  function ByteStep(c: bv32, b: bv8): bv32 {
    Steps(Add(c, Word(b)), 8)
  }

  /** The register after the whole message, byte by byte. */
  function Crc(data: seq<bv8>): bv32 {
    if data == [] then 0 else ByteStep(Crc(data[..|data| - 1]), data[|data| - 1])
  }

  // ---------- one step ----------

  lemma AddRegroups(a: bv32, b: bv32, c: bv32, d: bv32)
    ensures Add(Add(a, b), Add(c, d)) == Add(Add(a, c), Add(b, d))
  {
    hide Add;
    AddAssociates(a, b, Add(c, d));
    AddAssociates(b, c, d);
    AddCommutes(b, c);
    AddAssociates(c, b, d);
    AddAssociates(a, c, Add(b, d));
  }

  lemma AddAssociates(a: bv32, b: bv32, c: bv32)
    ensures Add(Add(a, b), c) == Add(a, Add(b, c))
  {}

  lemma AddCommutes(a: bv32, b: bv32)
    ensures Add(a, b) == Add(b, a)
  {}

  lemma AddUnits(a: bv32)
    ensures Add(a, 0) == a && Add(a, a) == 0
  {}

  lemma AddCancels(a: bv32, b: bv32)
    ensures Add(a, b) == 0 <==> a == b
    ensures Add(Add(a, b), b) == a
  {
    hide Add;
    AddAssociates(a, b, b);
    AddUnits(a);
    AddUnits(b);
    AddCommutes(0, b);
  }

  lemma AddIs24(a: bv32, b: bv32)
    requires Is24(a) && Is24(b)
    ensures Is24(Add(a, b))
  {}

  lemma StepIs24(c: bv32)
    requires Is24(c)
    ensures Is24(ShiftStep(c))
  {}

  lemma UpIsLinear(a: bv32, b: bv32)
    ensures Up(Add(a, b)) == Add(Up(a), Up(b))
  {}

  lemma TopIsLinear(a: bv32, b: bv32)
    ensures Top(Add(a, b)) == (Top(a) != Top(b))
  {}

  lemma FeedbackIsLinear(a: bv32, b: bv32)
    ensures Feedback(Add(a, b)) == Add(Feedback(a), Feedback(b))
  {
    hide Top, Add;
    TopIsLinear(a, b);
    AddUnits(GENERATOR);
    AddUnits(0);
    AddCommutes(GENERATOR, 0);
  }

  lemma StepIsLinear(a: bv32, b: bv32)
    ensures ShiftStep(Add(a, b)) == Add(ShiftStep(a), ShiftStep(b))
  {
    hide Add, Up, Feedback;
    UpIsLinear(a, b);
    FeedbackIsLinear(a, b);
    AddRegroups(Up(a), Up(b), Feedback(a), Feedback(b));
  }

  /** The generator has constant term 1, so no other word steps to zero. */
  lemma StepOfNonzero(c: bv32)
    requires Is24(c) && ShiftStep(c) == 0
    ensures c == 0
  {}

  lemma StepIsInjective(a: bv32, b: bv32)
    requires Is24(a) && Is24(b) && ShiftStep(a) == ShiftStep(b)
    ensures a == b
  {
    hide Add, ShiftStep, Is24;
    StepIsLinear(a, b);
    AddCancels(ShiftStep(a), ShiftStep(b));
    AddCancels(a, b);
    AddIs24(a, b);
    StepOfNonzero(Add(a, b));
  }

  // ---------- many steps ----------

  lemma {:induction false} StepsAre24(c: bv32, n: nat)
    requires Is24(c)
    ensures Is24(Steps(c, n))
    decreases n
  {
    hide Is24, ShiftStep;
    if n > 0 {
      StepIs24(c);
      StepsAre24(ShiftStep(c), n - 1);
    }
  }

  lemma {:induction false} StepsAreLinear(a: bv32, b: bv32, n: nat)
    ensures Steps(Add(a, b), n) == Add(Steps(a, n), Steps(b, n))
    decreases n
  {
    hide Add, ShiftStep;
    if n > 0 {
      StepIsLinear(a, b);
      StepsAreLinear(ShiftStep(a), ShiftStep(b), n - 1);
    }
  }

  lemma {:induction false} StepsAreInjective(a: bv32, b: bv32, n: nat)
    requires Is24(a) && Is24(b) && Steps(a, n) == Steps(b, n)
    ensures a == b
    decreases n
  {
    hide ShiftStep, Is24;
    if n > 0 {
      StepIs24(a);
      StepIs24(b);
      StepsAreInjective(ShiftStep(a), ShiftStep(b), n - 1);
      StepIsInjective(a, b);
    }
  }

  lemma {:induction false} StepsCompose(c: bv32, m: nat, n: nat)
    ensures Steps(Steps(c, m), n) == Steps(c, m + n)
    decreases m
  {
    hide ShiftStep;
    if m > 0 {
      StepsCompose(ShiftStep(c), m - 1, n);
    }
  }

  lemma {:induction false} StepsOfZero(n: nat)
    ensures Steps(0, n) == 0
  {
    if n > 0 {
      assert ShiftStep(0) == 0;
      hide ShiftStep;
      StepsOfZero(n - 1);
    }
  }

  lemma {:induction false} CrcIs24(data: seq<bv8>)
    ensures Is24(Crc(data))
  {
    hide Is24, Steps, Add, Word;
    ZeroIs24();
    if data != [] {
      var c, b := Crc(data[..|data| - 1]), data[|data| - 1];
      CrcIs24(data[..|data| - 1]);
      WordIs24(b);
      AddIs24(c, Word(b));
      StepsAre24(Add(c, Word(b)), 8);
    }
  }

  lemma ZeroIs24()
    ensures Is24(0)
  {}

  lemma WordIs24(b: bv8)
    ensures Is24(Word(b))
  {}

  /** Eight steps move a word of degree below 16 up by a byte: nothing leaves the register. */
  lemma StepsOfLow(c: bv32)
    requires c & 0xFFFF0000 == 0
    ensures Steps(c, 8) == c << 8
  {
    hide ShiftStep;
    LowShifts(c);
    EightSteps(c, c << 1, c << 2, c << 3, c << 4, c << 5, c << 6, c << 7, c << 8);
  }

  lemma LowShifts(c: bv32)
    requires c & 0xFFFF0000 == 0
    ensures ShiftStep(c) == c << 1 && ShiftStep(c << 1) == c << 2 && ShiftStep(c << 2) == c << 3
            && ShiftStep(c << 3) == c << 4
    ensures ShiftStep(c << 4) == c << 5 && ShiftStep(c << 5) == c << 6 && ShiftStep(c << 6) == c << 7
        && ShiftStep(c << 7) == c << 8
  {
    hide ShiftStep, Top, Up;
    TopsOfLow(c);
    ShiftsCompose(c);
    LowShift(c, c << 1);
    LowShift(c << 1, c << 2);
    LowShift(c << 2, c << 3);
    LowShift(c << 3, c << 4);
    LowShift(c << 4, c << 5);
    LowShift(c << 5, c << 6);
    LowShift(c << 6, c << 7);
    LowShift(c << 7, c << 8);
  }

  lemma TopsOfLow(c: bv32)
    requires c & 0xFFFF0000 == 0
    ensures !Top(c) && !Top(c << 1) && !Top(c << 2) && !Top(c << 3)
    ensures !Top(c << 4) && !Top(c << 5) && !Top(c << 6) && !Top(c << 7)
  {}

  lemma ShiftsCompose(c: bv32)
    ensures Up(c) == c << 1 && Up(c << 1) == c << 2 && Up(c << 2) == c << 3 && Up(c << 3) == c << 4
    ensures Up(c << 4) == c << 5 && Up(c << 5) == c << 6 && Up(c << 6) == c << 7 && Up(c << 7) == c << 8
  {}

  lemma LowShift(c: bv32, next: bv32)
    requires !Top(c) && Up(c) == next
    ensures ShiftStep(c) == next
  {}

  lemma EightSteps(c0: bv32, c1: bv32, c2: bv32, c3: bv32, c4: bv32, c5: bv32, c6: bv32, c7: bv32, c8: bv32)
    requires ShiftStep(c0) == c1 && ShiftStep(c1) == c2 && ShiftStep(c2) == c3 && ShiftStep(c3) == c4
    requires ShiftStep(c4) == c5 && ShiftStep(c5) == c6 && ShiftStep(c6) == c7 && ShiftStep(c7) == c8
    ensures Steps(c0, 8) == c8
  {
    hide ShiftStep;
    assert Steps(c4, 4) == c8;
    assert Steps(c0, 4) == c4;
    StepsCompose(c0, 4, 4);
  }
}
