/** Single-bit errors: every one-bit change of a Mode S message changes its syndrome in its own way. */
module CrcErrors {
  import opened CrcPolynomial
  import opened CrcTheory

  function Mask(bit: nat): bv8
    requires bit < 8
  {
    match bit
    case 0 => 0x01 case 1 => 0x02 case 2 => 0x04 case 3 => 0x08
    case 4 => 0x10 case 5 => 0x20 case 6 => 0x40 case 7 => 0x80
  }

  /** The message with one bit changed; bit 0 is the first one sent. */
  function Flip(data: seq<bv8>, k: nat): (r: seq<bv8>)
    requires k < 8 * |data|
    ensures |r| == |data|
  {
    data[k / 8 := data[k / 8] ^ Mask(7 - k % 8)]
  }

  lemma FlipTwice(data: seq<bv8>, k: nat)
    requires k < 8 * |data|
    ensures Flip(Flip(data, k), k) == data
  {
    var b, m := data[k / 8], Mask(7 - k % 8);
    hide Mask;
    assert b ^ m ^ m == b;
  }

  // ---------- the syndrome of a single bit ----------

  const X23: bv32 := 0x800000

  /** What flipping the bit that has m bits after it, itself included, adds to the remainder. */
  function Syndrome(m: nat): bv32 {
    Steps(X23, m)
  }

  lemma MaskUp(bit: nat)
    requires bit < 7
    ensures ShiftStep(Word(Mask(bit))) == Word(Mask(bit + 1))
  {}

  lemma TopMask()
    ensures Word(Mask(7)) == X23
  {}

  lemma {:induction false} MaskReachesTop(bit: nat, m: nat)
    requires bit < 8 && m >= 7 - bit
    ensures Steps(Word(Mask(bit)), m) == Syndrome(m - (7 - bit))
    decreases 7 - bit
  {
    hide Mask, Word, ShiftStep;
    if bit < 7 {
      MaskUp(bit);
      MaskReachesTop(bit + 1, m - 1);
    } else {
      TopMask();
    }
  }

  lemma FlipInByte(c: bv32, b: bv8, bit: nat)
    requires bit < 8
    ensures ByteStep(c, b ^ Mask(bit)) == Add(ByteStep(c, b), Syndrome(bit + 1))
  {
    hide Mask, Word, Steps, Add;
    WordIsLinear(b, Mask(bit));
    AddAssociates(c, Word(b), Word(Mask(bit)));
    StepsAreLinear(Add(c, Word(b)), Word(Mask(bit)), 8);
    MaskReachesTop(bit, 8);
  }

  lemma LaterByte(c: bv32, b: bv8, m: nat)
    ensures ByteStep(Add(c, Syndrome(m)), b) == Add(ByteStep(c, b), Syndrome(m + 8))
  {
    hide Word, Steps, Add;
    var e := Syndrome(m);
    AddAssociates(c, e, Word(b));
    AddCommutes(e, Word(b));
    AddAssociates(c, Word(b), e);
    StepsAreLinear(Add(c, Word(b)), e, 8);
    StepsCompose(X23, m, 8);
  }

  /** Flipping bit k changes the remainder by x^(23 + number of bits from k on), whatever the message. */
  lemma {:induction false} FlipChangesCrc(data: seq<bv8>, k: nat)
    requires k < 8 * |data|
    ensures Crc(Flip(data, k)) == Add(Crc(data), Syndrome(8 * |data| - k))
  {
    hide Mask, ByteStep, Syndrome, Add;
    var n := |data| - 1;
    var flipped := Flip(data, k);
    if k / 8 == n {
      assert flipped[..n] == data[..n];
      FlipInByte(Crc(data[..n]), data[n], 7 - k % 8);
      assert 8 * |data| - k == 7 - k % 8 + 1;
    } else {
      assert flipped[..n] == Flip(data[..n], k);
      FlipChangesCrc(data[..n], k);
      LaterByte(Crc(data[..n]), data[n], 8 * n - k);
    }
  }

  // ---------- syndromes of a Mode S message are distinct ----------

  /** The first n powers after c never come back to x^23. */
  predicate Avoids(c: bv32, n: nat)
    decreases n
  {
    n == 0 || (ShiftStep(c) != X23 && Avoids(ShiftStep(c), n - 1))
  }

  /** Eight consecutive powers, none of them x^23. */
  lemma Leg(c0: bv32, c1: bv32, c2: bv32, c3: bv32, c4: bv32, c5: bv32, c6: bv32, c7: bv32, c8: bv32, n: nat)
    requires ShiftStep(c0) == c1 && ShiftStep(c1) == c2 && ShiftStep(c2) == c3 && ShiftStep(c3) == c4
    requires ShiftStep(c4) == c5 && ShiftStep(c5) == c6 && ShiftStep(c6) == c7 && ShiftStep(c7) == c8
    requires X23 !in {c1, c2, c3, c4, c5, c6, c7, c8} && Avoids(c8, n)
    ensures Avoids(c0, n + 8)
  {
    hide ShiftStep;
    assert Avoids(c7, n + 1);
    assert Avoids(c6, n + 2);
    assert Avoids(c5, n + 3);
    assert Avoids(c4, n + 4);
    assert Avoids(c3, n + 5);
    assert Avoids(c2, n + 6);
    assert Avoids(c1, n + 7);
  }

  lemma Orbit0(n: nat)
    requires Avoids(0xF91024, n)
    ensures Avoids(0x800000, n + 16)
  {
    hide Avoids;
    Leg(0x0706C0, 0x0E0D80, 0x1C1B00, 0x383600, 0x706C00, 0xE0D800, 0x3E4409, 0x7C8812, 0xF91024, n);
    Leg(0x800000, 0xFFF409, 0x001C1B, 0x003836, 0x00706C, 0x00E0D8, 0x01C1B0, 0x038360, 0x0706C0, n + 8);
  }

  lemma Orbit1(n: nat)
    requires Avoids(0x018567, n)
    ensures Avoids(0xF91024, n + 16)
  {
    hide Avoids;
    Leg(0xEA04AD, 0x2BFD53, 0x57FAA6, 0xAFF54C, 0xA01E91, 0xBFC92B, 0x80665F, 0xFF38B7, 0x018567, n);
    Leg(0xF91024, 0x0DD441, 0x1BA882, 0x375104, 0x6EA208, 0xDD4410, 0x457C29, 0x8AF852, 0xEA04AD, n + 8);
  }

  lemma Orbit2(n: nat)
    requires Avoids(0x91C77F, n)
    ensures Avoids(0x018567, n + 16)
  {
    hide Avoids;
    Leg(0x7A9309, 0xF52612, 0x15B82D, 0x2B705A, 0x56E0B4, 0xADC168, 0xA476D9, 0xB719BB, 0x91C77F, n);
    Leg(0x018567, 0x030ACE, 0x06159C, 0x0C2B38, 0x185670, 0x30ACE0, 0x6159C0, 0xC2B380, 0x7A9309, n + 8);
  }

  lemma Orbit3(n: nat)
    requires Avoids(0x939020, n)
    ensures Avoids(0x91C77F, n + 16)
  {
    hide Avoids;
    Leg(0x3F6D11, 0x7EDA22, 0xFDB444, 0x049C81, 0x093902, 0x127204, 0x24E408, 0x49C810, 0x939020, n);
    Leg(0x91C77F, 0xDC7AF7, 0x4701E7, 0x8E03CE, 0xE3F395, 0x381323, 0x702646, 0xE04C8C, 0x3F6D11, n + 8);
  }

  lemma Orbit4(n: nat)
    requires Avoids(0x2C38BC, n)
    ensures Avoids(0x939020, n + 16)
  {
    hide Avoids;
    Leg(0x682E0A, 0xD05C14, 0x5F4C21, 0xBE9842, 0x82C48D, 0xFA7D13, 0x0B0E2F, 0x161C5E, 0x2C38BC, n);
    Leg(0x939020, 0xD8D449, 0x4E5C9B, 0x9CB936, 0xC68665, 0x72F8C3, 0xE5F186, 0x341705, 0x682E0A, n + 8);
  }

  lemma Orbit5(n: nat)
    requires Avoids(0xCB4F0D, n)
    ensures Avoids(0x2C38BC, n + 16)
  {
    hide Avoids;
    Leg(0x3935EA, 0x726BD4, 0xE4D7A8, 0x365B59, 0x6CB6B2, 0xD96D64, 0x4D2EC1, 0x9A5D82, 0xCB4F0D, n);
    Leg(0x2C38BC, 0x587178, 0xB0E2F0, 0x9E31E9, 0xC397DB, 0x78DBBF, 0xF1B77E, 0x1C9AF5, 0x3935EA, n + 8);
  }

  lemma Orbit6(n: nat)
    requires Avoids(0x16C19E, n)
    ensures Avoids(0xCB4F0D, n + 16)
  {
    hide Avoids;
    Leg(0xB410DE, 0x97D5B5, 0xD05F63, 0x5F4ACF, 0xBE959E, 0x82DF35, 0xFA4A63, 0x0B60CF, 0x16C19E, n);
    Leg(0xCB4F0D, 0x696A13, 0xD2D426, 0x5A5C45, 0xB4B88A, 0x96851D, 0xD2FE33, 0x5A086F, 0xB410DE, n + 8);
  }

  /** x^d is not 1 for d up to 112. */
  lemma OrbitIsLong()
    ensures Avoids(X23, 112)
  {
    Orbit6(0);
    Orbit5(16);
    Orbit4(32);
    Orbit3(48);
    Orbit2(64);
    Orbit1(80);
    Orbit0(96);
  }

  lemma {:induction false} AvoidsSteps(c: bv32, n: nat, d: nat)
    requires Avoids(c, n) && 1 <= d <= n
    ensures Steps(c, d) != X23
    decreases d
  {
    hide ShiftStep;
    if d > 1 {
      AvoidsSteps(ShiftStep(c), n - 1, d - 1);
    }
  }

  lemma SyndromesDiffer(a: nat, b: nat)
    requires a < b <= a + 111
    ensures Syndrome(a) != Syndrome(b)
  {
    OrbitIsLong();
    hide Steps, Avoids;
    AvoidsSteps(X23, 112, b - a);
    StepsCompose(X23, b - a, a);
    TopIs24();
    StepsAre24(X23, b - a);
    if Steps(X23, a) == Steps(X23, b) {
      StepsAreInjective(X23, Steps(X23, b - a), a);
    }
  }

  lemma SyndromeIsNonzero(m: nat)
    ensures Syndrome(m) != 0
  {
    hide Steps;
    TopIs24();
    StepsOfZero(m);
    if Steps(X23, m) == 0 {
      StepsAreInjective(X23, 0, m);
    }
  }

  lemma TopIs24()
    ensures Is24(X23) && Is24(0) && X23 != 0
  {}

  // ---------- what the corrector is meant to find ----------

  /** The first bit at or after k whose flip makes the message divisible, or -1. */
  function FirstFix(data: seq<bv8>, k: nat): int
    requires k <= 8 * |data|
    decreases 8 * |data| - k
  {
    if k == 8 * |data| then -1 else if Crc(Flip(data, k)) == 0 then k else FirstFix(data, k + 1)
  }

  /** The position `fix_single_bit_error` reports: -1 for a message that is already divisible. */
  function FixPosition(data: seq<bv8>): int {
    if Crc(data) == 0 then -1 else FirstFix(data, 0)
  }

  lemma {:induction false} FirstFixFinds(data: seq<bv8>, from: nat, k: nat)
    requires from <= k < 8 * |data|
    requires forall j: nat :: from <= j < 8 * |data| ==> (Crc(Flip(data, j)) == 0 <==> j == k)
    ensures FirstFix(data, from) == k
    decreases k - from
  {
    hide Crc, Flip;
    if from < k {
      FirstFixFinds(data, from + 1, k);
    }
  }

  /** Main result: -1 exactly when nothing needs fixing or no single flip helps; otherwise the flip repairs the
      message.
    */
  lemma FixPositionMeaning(data: seq<bv8>)
    ensures FixPosition(data) == -1
            <==> Parity(data) == 0 || forall j: nat :: j < 8 * |data| ==> Parity(Flip(data, j)) != 0
    ensures FixPosition(data) != -1 ==>
              && 0 <= FixPosition(data) < 8 * |data|
              && Parity(data) != 0 && Parity(Flip(data, FixPosition(data))) == 0
  {
    hide Crc, Flip, Parity;
    CrcIsParity(data);
    FirstFixMeaning(data, 0);
    forall j: nat | j < 8 * |data|
      ensures Crc(Flip(data, j)) == Parity(Flip(data, j))
    {
      CrcIsParity(Flip(data, j));
    }
  }

  lemma {:induction false} FirstFixMeaning(data: seq<bv8>, from: nat)
    requires from <= 8 * |data|
    ensures
      var p := FirstFix(data, from);
      if p < 0 then p == -1 && forall j: nat :: from <= j < 8 * |data| ==> Crc(Flip(data, j)) != 0
      else from <= p < 8 * |data| && Crc(Flip(data, p)) == 0 && forall j: nat :: from <= j < p ==>
        Crc(Flip(data, j)) != 0
    decreases 8 * |data| - from
  {
    hide Crc, Flip;
    if from < 8 * |data| {
      FirstFixMeaning(data, from + 1);
    }
  }

  /** Main result: in a message of at most 112 bits every single-bit error is located. */
  lemma SingleErrorIsLocated(codeword: seq<bv8>, k: nat)
    requires |codeword| <= 14 && Crc(codeword) == 0 && k < 8 * |codeword|
    ensures FixPosition(Flip(codeword, k)) == k && Flip(Flip(codeword, k), k) == codeword
  {
    hide Crc, Flip, Syndrome, Add;
    var received, n := Flip(codeword, k), 8 * |codeword|;
    FlipTwice(codeword, k);
    FlipChangesCrc(codeword, k);
    SyndromeIsNonzero(n - k);
    AddUnits(Syndrome(n - k));
    AddCommutes(0, Syndrome(n - k));
    forall j: nat | j < n
      ensures Crc(Flip(received, j)) == 0 <==> j == k
    {
      FlipChangesCrc(received, j);
      AddCancels(Syndrome(n - k), Syndrome(n - j));
      if j < k {
        SyndromesDiffer(n - k, n - j);
      } else if j > k {
        SyndromesDiffer(n - j, n - k);
      }
    }
    FirstFixFinds(received, 0, k);
  }

  // ---------- several errors ----------

  function Down(c: bv32): bv32 {
    c >> 1
  }

  /** Whether a polynomial has an odd number of terms. */
  predicate Odd(c: bv32)
    decreases c
  {
    c != 0 && (c & 1 != 0) != Odd(Down(c))
  }

  lemma OddUnfolds(c: bv32)
    ensures Odd(c) == ((c & 1 != 0) != Odd(Down(c)))
  {}

  lemma AddedHigherBits(a: bv32, b: bv32)
    ensures Down(Add(a, b)) == Add(Down(a), Down(b))
  {}

  lemma AddedLowBit(a: bv32, b: bv32)
    ensures (Add(a, b) & 1 != 0) == ((a & 1 != 0) != (b & 1 != 0))
  {
    assert a & 1 == 0 || a & 1 == 1;
    assert b & 1 == 0 || b & 1 == 1;
    assert Add(a, b) & 1 == Add(a & 1, b & 1);
  }

  lemma {:induction false} OddIsLinear(a: bv32, b: bv32)
    ensures Odd(Add(a, b)) == (Odd(a) != Odd(b))
    decreases a
  {
    hide Add;
    if a == 0 {
      AddCommutes(a, b);
      AddUnits(b);
    } else {
      AddedHigherBits(a, b);
      AddedLowBit(a, b);
      OddUnfolds(a);
      OddUnfolds(b);
      OddUnfolds(Add(a, b));
      OddIsLinear(Down(a), Down(b));
    }
  }

  lemma UpByBits(c: bv32)
    requires Is24(c)
    ensures Up(c) & 1 == 0 && Down(Up(c)) == c
  {}

  lemma OddOfUp(c: bv32)
    requires Is24(c)
    ensures Odd(Up(c)) == Odd(c)
  {
    UpByBits(c);
    hide Up, Is24;
    OddUnfolds(Up(c));
  }

  /** The generator is a multiple of x + 1. */
  lemma GeneratorFactors()
    ensures Is24(0xAAAC07) && GENERATOR == Add(Up(0xAAAC07), 0xAAAC07)
  {}

  lemma GeneratorIsEven()
    ensures !Odd(GENERATOR)
  {
    hide Add, Odd, Up, Is24;
    GeneratorFactors();
    OddIsLinear(Up(0xAAAC07), 0xAAAC07);
    OddOfUp(0xAAAC07);
  }

  lemma ZeroIsEven()
    ensures !Odd(0)
  {}

  lemma OddStep(c: bv32)
    requires Is24(c)
    ensures Odd(ShiftStep(c)) == Odd(c)
  {
    hide Add, Odd, Up, Is24, Top;
    OddIsLinear(Up(c), Feedback(c));
    OddOfUp(c);
    GeneratorIsEven();
    ZeroIsEven();
  }

  lemma {:induction false} OddSteps(c: bv32, n: nat)
    requires Is24(c)
    ensures Odd(Steps(c, n)) == Odd(c)
    decreases n
  {
    hide Odd, ShiftStep, Is24;
    if n > 0 {
      OddStep(c);
      StepIs24(c);
      OddSteps(ShiftStep(c), n - 1);
    }
  }

  lemma TopIsOdd()
    ensures Odd(X23)
  {
    UnitArrives(true);
    UnitIsOdd();
    hide Odd, Steps, ShiftStep, Is24;
    OddSteps(1, 24);
    TopIs24();
    OddStep(X23);
  }

  lemma UnitIsOdd()
    ensures Odd(1) && Is24(1)
  {}

  /** Every flip makes an odd CRC even and an even one odd. */
  lemma FlipTogglesParity(data: seq<bv8>, k: nat)
    requires k < 8 * |data|
    ensures Odd(Crc(Flip(data, k))) == !Odd(Crc(data))
  {
    hide Crc, Flip, Add, Odd, Steps, Is24;
    var m := 8 * |data| - k;
    FlipChangesCrc(data, k);
    OddIsLinear(Crc(data), Syndrome(m));
    TopIs24();
    OddSteps(X23, m);
    TopIsOdd();
  }

  ghost predicate Positions(data: seq<bv8>, ks: seq<nat>) {
    forall i :: 0 <= i < |ks| ==> ks[i] < 8 * |data|
  }

  /** The message with several bits changed, one after the other. */
  ghost function FlipAll(data: seq<bv8>, ks: seq<nat>): (r: seq<bv8>)
    requires Positions(data, ks)
    ensures |r| == |data|
    decreases |ks|
  {
    if ks == [] then data else Flip(FlipAll(data, ks[..|ks| - 1]), ks[|ks| - 1])
  }

  lemma {:induction false} FlipAllParity(codeword: seq<bv8>, ks: seq<nat>)
    requires Crc(codeword) == 0 && Positions(codeword, ks)
    ensures Odd(Crc(FlipAll(codeword, ks))) <==> |ks| % 2 == 1
    decreases |ks|
  {
    hide Crc, Flip, Odd;
    if ks == [] {
      ZeroIsEven();
    } else {
      var front := ks[..|ks| - 1];
      FlipAllParity(codeword, front);
      FlipTogglesParity(FlipAll(codeword, front), ks[|ks| - 1]);
    }
  }

  /** Main result: for codewords of any length, any odd number of flips is detected, and after an even number nothing is
      "repaired": the corrector never adds an error to an even number of them.
    */
  lemma OnlyOddErrorsAreRepaired(codeword: seq<bv8>, ks: seq<nat>)
    requires Crc(codeword) == 0 && Positions(codeword, ks)
    ensures |ks| % 2 == 1 ==> Crc(FlipAll(codeword, ks)) != 0
    ensures |ks| % 2 == 0 ==> FixPosition(FlipAll(codeword, ks)) == -1
  {
    hide Crc, Flip, Odd, FlipAll;
    var received := FlipAll(codeword, ks);
    ZeroIsEven();
    FlipAllParity(codeword, ks);
    FirstFixMeaning(received, 0);
    if |ks| % 2 == 0 && FixPosition(received) != -1 {
      FlipTogglesParity(received, FixPosition(received));
    }
  }

  /** Main result: in a message of at most 112 bits every double error is detected and left alone. */
  lemma DoubleErrorIsLeftAlone(codeword: seq<bv8>, i: nat, j: nat)
    requires |codeword| <= 14 && Crc(codeword) == 0 && i < j < 8 * |codeword|
    ensures Crc(Flip(Flip(codeword, i), j)) != 0 && FixPosition(Flip(Flip(codeword, i), j)) == -1
  {
    hide Crc, Flip, Syndrome, Add, FixPosition;
    var n := 8 * |codeword|;
    FlipChangesCrc(codeword, i);
    FlipChangesCrc(Flip(codeword, i), j);
    AddCommutes(0, Syndrome(n - i));
    AddUnits(Syndrome(n - i));
    AddCancels(Syndrome(n - i), Syndrome(n - j));
    SyndromesDiffer(n - j, n - i);
    OnlyOddErrorsAreRepaired(codeword, [i, j]);
    FlipBoth(codeword, i, j);
  }

  lemma FlipBoth(data: seq<bv8>, i: nat, j: nat)
    requires i < 8 * |data| && j < 8 * |data|
    ensures FlipAll(data, [i, j]) == Flip(Flip(data, i), j)
  {
    hide Flip;
    assert [i, j][..1] == [i] && [i][..0] == [];
    assert FlipAll(data, [i]) == Flip(data, i);
  }

  // ---------- a flip is one bit ----------

  predicate HasBit(b: bv8, bit: nat)
    requires bit < 8
  {
    b & Mask(bit) != 0
  }

  lemma BitsAre(b: bv8)
    ensures |BitsOfByte(b)| == 8 && forall i :: 0 <= i < 8 ==> BitsOfByte(b)[i] == HasBit(b, 7 - i)
  {}

  lemma MaskedBit(b: bv8, bit: nat, other: nat)
    requires bit < 8 && other < 8
    ensures HasBit(b ^ Mask(bit), other) == if other == bit then !HasBit(b, other) else HasBit(b, other)
  {
    var m, k := Mask(bit), Mask(other);
    MasksDiffer(bit, other);
    MaskNotZero(other);
    SingleBit(b, other);
    hide Mask;
    AndDistributes(b, m, k);
    SameBit(b & k, k);
  }

  lemma AndDistributes(b: bv8, m: bv8, k: bv8)
    ensures (b ^ m) & k == (b & k) ^ (m & k)
  {}

  lemma MasksDiffer(bit: nat, other: nat)
    requires bit < 8 && other < 8
    ensures Mask(bit) & Mask(other) == if other == bit then Mask(other) else 0
  {}

  lemma MaskNotZero(bit: nat)
    requires bit < 8
    ensures Mask(bit) != 0
  {}

  lemma SingleBit(b: bv8, bit: nat)
    requires bit < 8
    ensures b & Mask(bit) == 0 || b & Mask(bit) == Mask(bit)
  {}

  lemma SameBit(x: bv8, k: bv8)
    requires k != 0 && (x == 0 || x == k)
    ensures x ^ k != 0 <==> x == 0
    ensures x ^ 0 == x
  {}

  lemma MaskedBits(b: bv8, bit: nat)
    requires bit < 8
    ensures |BitsOfByte(b)| == 8
    ensures BitsOfByte(b ^ Mask(bit)) == BitsOfByte(b)[7 - bit := !BitsOfByte(b)[7 - bit]]
  {
    hide BitsOfByte, Mask, HasBit;
    BitsAre(b);
    BitsAre(b ^ Mask(bit));
    forall i | 0 <= i < 8
      ensures BitsOfByte(b ^ Mask(bit))[i] == if i == 7 - bit then !BitsOfByte(b)[i] else BitsOfByte(b)[i]
    {
      MaskedBit(b, bit, 7 - i);
    }
  }

  lemma {:induction false} BitsLength(data: seq<bv8>)
    ensures |Bits(data)| == 8 * |data|
  {
    hide BitsOfByte;
    if data != [] {
      ByteLength(data[0]);
      BitsLength(data[1..]);
    }
  }

  /** Main result: in the order in which the bits are sent, a flip changes bit k and nothing else. */
  lemma {:induction false} FlipIsOneBit(data: seq<bv8>, k: nat)
    requires k < 8 * |data|
    ensures |Bits(data)| == 8 * |data| && Bits(Flip(data, k)) == Bits(data)[k := !Bits(data)[k]]
    decreases |data|
  {
    hide BitsOfByte, Mask, Bits, Flip;
    var first, rest := BitsOfByte(data[0]), data[1..];
    BitsLength(data);
    BitsLength(rest);
    ByteLength(data[0]);
    BitsHead(data);
    FlipHead(data, k);
    BitsHead(Flip(data, k));
    if k < 8 {
      MaskedBits(data[0], 7 - k);
      UpdateOfSum(first, Bits(rest), k, !first[k]);
    } else {
      FlipIsOneBit(rest, k - 8);
      UpdateOfSum(first, Bits(rest), k, !Bits(rest)[k - 8]);
    }
  }

  lemma BitsHead(data: seq<bv8>)
    requires data != []
    ensures Bits(data) == BitsOfByte(data[0]) + Bits(data[1..])
  {
    hide BitsOfByte;
  }

  lemma FlipHead(data: seq<bv8>, k: nat)
    requires k < 8 * |data|
    ensures
      var flipped := Flip(data, k);
      if k < 8 then flipped[0] == data[0] ^ Mask(7 - k) && flipped[1..] == data[1..]
      else flipped[0] == data[0] && flipped[1..] == Flip(data[1..], k - 8)
  {
    hide Mask;
  }

  lemma UpdateOfSum<T>(a: seq<T>, b: seq<T>, k: nat, x: T)
    requires k < |a| + |b|
    ensures (a + b)[k := x] == if k < |a| then a[k := x] + b else a + b[k - |a| := x]
    ensures (a + b)[k] == if k < |a| then a[k] else b[k - |a|]
  {}
}
