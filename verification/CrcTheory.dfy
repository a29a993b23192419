/** What the table-driven computation means: it is polynomial division, it is linear, and it
    detects and locates every single-bit error of a Mode S message.
  */
module CrcTheory {
  import opened CrcPolynomial

  // ---------- the table step ----------

  function TableEntry(b: bv8): bv32 {
    Steps(Word(b), 8)
  }

  /** The table index: the byte leaving the register, added to the message byte. */
  function TableIndex(c: bv32, b: bv8): bv8 {
    (((c >> 16) ^ (b as bv32)) & 0xFF) as bv8
  }

  lemma RegisterSplits(c: bv32, b: bv8)
    requires Is24(c)
    ensures Add(c, Word(b)) == Add(Word(TableIndex(c, b)), c & 0xFFFF)
  {
    hide Add, Word, TableIndex, Is24;
    var high := ((c >> 16) & 0xFF) as bv8;
    HighByte(c, b);
    WordIsLinear(high, b);
    AddAssociates(Word(high), c & 0xFFFF, Word(b));
    AddCommutes(c & 0xFFFF, Word(b));
    AddAssociates(Word(high), Word(b), c & 0xFFFF);
  }

  lemma HighByte(c: bv32, b: bv8)
    requires Is24(c)
    ensures c == Add(Word(((c >> 16) & 0xFF) as bv8), c & 0xFFFF)
    ensures TableIndex(c, b) == (((c >> 16) & 0xFF) as bv8) ^ b
  {}

  /** Shifting a byte out and adding a table entry, cut to 24 bits. */
  function ShiftOut(c: bv32, entry: bv32): bv32 {
    ((c << 8) ^ entry) & 0xFFFFFF
  }

  function LowUp(c: bv32): bv32 {
    (c & 0xFFFF) << 8
  }

  lemma ShiftOutIsSum(c: bv32, t: bv32)
    requires Is24(t)
    ensures ShiftOut(c, t) == Add(t, LowUp(c))
  {}

  lemma LowUpIsSteps(c: bv32)
    ensures Steps(c & 0xFFFF, 8) == LowUp(c)
  {
    hide Steps;
    assert (c & 0xFFFF) & 0xFFFF0000 == 0;
    StepsOfLow(c & 0xFFFF);
  }

  /** One table look-up does the work of eight shifts. */
  lemma TableStepIsByteStep(c: bv32, b: bv8)
    requires Is24(c)
    ensures ShiftOut(c, TableEntry(TableIndex(c, b))) == ByteStep(c, b)
  {
    hide Add, Steps, Word, TableIndex, Is24, ShiftOut, LowUp;
    var index := TableIndex(c, b);
    RegisterSplits(c, b);
    StepsAreLinear(Word(index), c & 0xFFFF, 8);
    LowUpIsSteps(c);
    WordIs24(index);
    StepsAre24(Word(index), 8);
    ShiftOutIsSum(c, Steps(Word(index), 8));
  }

  // ---------- the register is long division ----------

  function RegisterBits(c: bv32, bits: seq<bool>): bv32
    decreases |bits|
  {
    if bits == [] then c else RegisterBits(ShiftStep(Add(c, Lead(bits[0]))), bits[1..])
  }

  /** A message bit lined up with the top of the register. */
  function Lead(bit: bool): bv32 {
    if bit then 0x800000 else 0
  }

  function Unit(bit: bool): bv32 {
    if bit then 1 else 0
  }

  lemma BringDownIsStep(w: bv32, bit: bool)
    requires Is24(w)
    ensures BringDown(w, bit) == Add(ShiftStep(w), Unit(bit)) && Is24(BringDown(w, bit))
  {
    var v := if bit then (w << 1) | 1 else w << 1;
    assert v == Add(Up(w), Unit(bit)) && (v & 0x1000000 != 0) == Top(w) by { hide Is24; NextDividend(w, bit); }
    hide Add, Up, Top;
    AddUnits(v);
    AddAssociates(Up(w), Unit(bit), Feedback(w));
    AddCommutes(Unit(bit), Feedback(w));
    AddAssociates(Up(w), Feedback(w), Unit(bit));
  }

  lemma NextDividend(w: bv32, bit: bool)
    ensures (if bit then (w << 1) | 1 else w << 1) == Add(Up(w), Unit(bit))
    ensures ((if bit then (w << 1) | 1 else w << 1) & 0x1000000 != 0) == Top(w)
  {
    LowBit(w);
    hide Add, Up, Top;
    AddUnits(Up(w));
  }

  lemma LowBit(w: bv32)
    ensures (w << 1) | 1 == Add(Up(w), 1) && Up(w) == w << 1
    ensures (((w << 1) | 1) & 0x1000000 != 0) == Top(w) && ((w << 1) & 0x1000000 != 0) == Top(w)
  {}

  lemma {:induction false} DivideZeros(w: bv32, n: nat)
    requires Is24(w)
    ensures Divide(w, Zeros(n)) == Steps(w, n)
    decreases n
  {
    hide Is24, ShiftStep, BringDown, Add;
    if n > 0 {
      BringDownIsStep(w, false);
      AddUnits(ShiftStep(w));
      StepIs24(w);
      assert Zeros(n)[1..] == Zeros(n - 1);
      DivideZeros(ShiftStep(w), n - 1);
    }
  }

  /** Bringing a one down is, 24 bits later, feeding a one back. */
  lemma UnitArrives(bit: bool)
    ensures Steps(Unit(bit), 24) == ShiftStep(Lead(bit))
  {
    if bit {
      StepsOfLow(1);
      StepsOfLow(0x100);
      StepsOfTop();
      hide ShiftStep, Steps;
      StepsCompose(1, 8, 8);
      StepsCompose(1, 16, 8);
    } else {
      StepsOfZero(24);
      assert ShiftStep(0) == 0;
    }
  }

  lemma StepsOfTop()
    ensures Steps(0x10000, 8) == ShiftStep(0x800000)
  {
    assert ShiftStep(0x10000) == 0x20000 && ShiftStep(0x20000) == 0x40000 && ShiftStep(0x40000) == 0x80000;
    assert ShiftStep(0x80000) == 0x100000 && ShiftStep(0x100000) == 0x200000 && ShiftStep(0x200000) == 0x400000;
    assert ShiftStep(0x400000) == 0x800000;
    EightSteps(0x10000, 0x20000, 0x40000, 0x80000, 0x100000, 0x200000, 0x400000, 0x800000, ShiftStep(0x800000));
  }

  lemma {:induction false} DivideIsRegister(w: bv32, bits: seq<bool>)
    requires Is24(w)
    ensures Divide(w, bits + Zeros(24)) == RegisterBits(Steps(w, 24), bits)
    decreases |bits|
  {
    hide Is24, ShiftStep, BringDown, Add, Steps, Lead, Unit;
    if bits == [] {
      assert bits + Zeros(24) == Zeros(24);
      DivideZeros(w, 24);
    } else {
      var bit := bits[0];
      BringDownIsStep(w, bit);
      assert (bits + Zeros(24))[1..] == bits[1..] + Zeros(24);
      DivideIsRegister(BringDown(w, bit), bits[1..]);
      StepsAreLinear(ShiftStep(w), Unit(bit), 24);
      UnitArrives(bit);
      OneStep(w);
      StepsCompose(w, 1, 24);
      StepsCompose(w, 24, 1);
      OneStep(Steps(w, 24));
      StepIsLinear(Steps(w, 24), Lead(bit));
    }
  }

  lemma OneStep(w: bv32)
    ensures Steps(w, 1) == ShiftStep(w)
  {}

  /** What is left of a word aligned with the top of the register once its first bit is fed. */
  function Tail(x: bv32): bv32 {
    Up(x & 0xFF7FFFFF)
  }

  lemma FeedTop(c: bv32, x: bv32)
    ensures ShiftStep(Add(c, x)) == Add(ShiftStep(Add(c, Lead(Top(x)))), Tail(x))
  {
    hide Add, Up, Lead, Top;
    var rest := x & 0xFF7FFFFF;
    TopSplits(x);
    AddUnits(Up(rest));
    AddAssociates(c, Lead(Top(x)), rest);
    StepIsLinear(Add(c, Lead(Top(x))), rest);
  }

  lemma TopSplits(x: bv32)
    ensures x == Add(Lead(Top(x)), x & 0xFF7FFFFF) && !Top(x & 0xFF7FFFFF)
  {}

  lemma FeedBit(c: bv32, x: bv32, bits: seq<bool>)
    requires bits != [] && bits[0] == Top(x)
    ensures RegisterBits(c, bits) == RegisterBits(ShiftStep(Add(c, Lead(Top(x)))), bits[1..])
    ensures ShiftStep(Add(c, x)) == Add(ShiftStep(Add(c, Lead(Top(x)))), Tail(x))
  {
    hide Add, ShiftStep, Lead, Top, Tail;
    FeedTop(c, x);
  }

  lemma {:induction false} FeedBits(c: bv32, x: bv32, bits: seq<bool>)
    requires TopsAre(x, bits)
    ensures Steps(Add(c, x), |bits|) == Add(RegisterBits(c, bits), Tails(x, |bits|))
    decreases |bits|
  {
    hide Add, ShiftStep, Lead, Top, Tail;
    if bits != [] {
      FeedBit(c, x, bits);
      FeedBits(ShiftStep(Add(c, Lead(Top(x)))), Tail(x), bits[1..]);
    }
  }

  predicate TopsAre(x: bv32, bits: seq<bool>)
    decreases |bits|
  {
    bits == [] || (Top(x) == bits[0] && TopsAre(Tail(x), bits[1..]))
  }

  function Tails(x: bv32, n: nat): bv32
    decreases n
  {
    if n == 0 then x else Tails(Tail(x), n - 1)
  }

  lemma ByteIsFed(c: bv32, b: bv8)
    ensures RegisterBits(c, BitsOfByte(b)) == ByteStep(c, b)
  {
    ByteTops(b);
    hide Add, ShiftStep, Word, BitsOfByte, Steps, RegisterBits;
    FeedBits(c, Word(b), BitsOfByte(b));
    assert |BitsOfByte(b)| == 8 by { ByteLength(b); }
    AddUnits(RegisterBits(c, BitsOfByte(b)));
  }

  lemma ByteLength(b: bv8)
    ensures |BitsOfByte(b)| == 8
  {}

  predicate Sign(b: bv8) {
    b & 0x80 != 0
  }

  function Left(b: bv8): bv8 {
    b << 1
  }

  lemma TailOfWord(b: bv8)
    ensures Tail(Word(b)) == Word(Left(b)) && Top(Word(b)) == Sign(b)
  {}

  function Lefts(b: bv8, n: nat): bv8 {
    if n == 0 then b else Left(Lefts(b, n - 1))
  }

  lemma LeftsOfByte(b: bv8)
    ensures Lefts(b, 0) == b && Lefts(b, 1) == b << 1 && Lefts(b, 2) == b << 2 && Lefts(b, 3) == b << 3
    ensures Lefts(b, 4) == b << 4 && Lefts(b, 5) == b << 5 && Lefts(b, 6) == b << 6 && Lefts(b, 7) == b << 7
            && Lefts(b, 8) == 0
  {
    assert Lefts(b, 1) == Left(b) == b << 1;
    assert Lefts(b, 2) == Left(b << 1) == b << 2;
    assert Lefts(b, 3) == Left(b << 2) == b << 3;
    assert Lefts(b, 4) == Left(b << 3) == b << 4;
    assert Lefts(b, 5) == Left(b << 4) == b << 5;
    assert Lefts(b, 6) == Left(b << 5) == b << 6;
    assert Lefts(b, 7) == Left(b << 6) == b << 7;
  }

  lemma SignsOfByte(b: bv8)
    ensures |BitsOfByte(b)| == 8
    ensures BitsOfByte(b)[0] == Sign(b) && BitsOfByte(b)[1] == Sign(b << 1) && BitsOfByte(b)[2] == Sign(b << 2)
    ensures BitsOfByte(b)[3] == Sign(b << 3) && BitsOfByte(b)[4] == Sign(b << 4) && BitsOfByte(b)[5] == Sign(b << 5)
    ensures BitsOfByte(b)[6] == Sign(b << 6) && BitsOfByte(b)[7] == Sign(b << 7)
  {}

  lemma {:induction false} SuffixTops(b: bv8, bits: seq<bool>, n: nat)
    requires |bits| == 8 && n <= 8
    requires forall i: nat :: i < 8 ==> bits[i] == Sign(Lefts(b, i))
    ensures TopsAre(Word(Lefts(b, 8 - n)), bits[8 - n..]) && Tails(Word(Lefts(b, 8 - n)), n) == Word(Lefts(b, 8))
  {
    hide Top, Tail, Word, Sign, Left;
    if n > 0 {
      var i: nat := 8 - n;
      SuffixTops(b, bits, n - 1);
      TailOfWord(Lefts(b, i));
      assert bits[i..][1..] == bits[i + 1..];
    }
  }

  lemma ByteTops(b: bv8)
    ensures TopsAre(Word(b), BitsOfByte(b)) && Tails(Word(b), 8) == 0
  {
    SignsOfByte(b);
    LeftsOfByte(b);
    hide BitsOfByte, Word, Top, Tail, Sign, Left, Lefts, TopsAre, Tails;
    SuffixTops(b, BitsOfByte(b), 8);
    ZeroWord();
  }

  lemma ZeroWord()
    ensures Word(0) == 0
  {}

  lemma {:induction false} RegisterAppend(c: bv32, p: seq<bool>, q: seq<bool>)
    ensures RegisterBits(c, p + q) == RegisterBits(RegisterBits(c, p), q)
    decreases |p|
  {
    hide Add, ShiftStep, Lead;
    if p == [] {
      assert p + q == q;
    } else {
      assert (p + q)[1..] == p[1..] + q;
      RegisterAppend(ShiftStep(Add(c, Lead(p[0]))), p[1..], q);
    }
  }

  lemma {:induction false} BitsAppend(data: seq<bv8>, b: bv8)
    ensures Bits(data + [b]) == Bits(data) + BitsOfByte(b)
  {
    hide BitsOfByte;
    if data == [] {
      assert data + [b] == [b];
      assert Bits([b]) == BitsOfByte(b) + Bits([b][1..]);
    } else {
      assert (data + [b])[1..] == data[1..] + [b];
      BitsAppend(data[1..], b);
    }
  }

  lemma {:induction false} CrcIsRegister(data: seq<bv8>)
    ensures RegisterBits(0, Bits(data)) == Crc(data)
  {
    hide BitsOfByte, ByteStep;
    if data != [] {
      var front, b := data[..|data| - 1], data[|data| - 1];
      assert data == front + [b];
      BitsAppend(front, b);
      RegisterAppend(0, Bits(front), BitsOfByte(b));
      CrcIsRegister(front);
      ByteIsFed(Crc(front), b);
    }
  }

  /** The table-driven value is the remainder of long division by the generator, and fits 24 bits. */
  lemma CrcIsParity(data: seq<bv8>)
    ensures Crc(data) == Parity(data) && Is24(Crc(data))
  {
    hide Is24, Steps, RegisterBits, Bits, Divide, Crc;
    CrcIs24(data);
    CrcIsRegister(data);
    ZeroIs24();
    DivideIsRegister(0, Bits(data));
    StepsOfZero(24);
  }

  // ---------- linearity ----------

  function XorBytes(a: seq<bv8>, b: seq<bv8>): (r: seq<bv8>)
    requires |a| == |b|
    ensures |r| == |a| && forall i :: 0 <= i < |a| ==> r[i] == a[i] ^ b[i]
  {
    if a == [] then [] else [a[0] ^ b[0]] + XorBytes(a[1..], b[1..])
  }

  lemma WordIsLinear(a: bv8, b: bv8)
    ensures Word(a ^ b) == Add(Word(a), Word(b))
  {}

  lemma ByteStepIsLinear(c: bv32, d: bv32, a: bv8, b: bv8)
    ensures ByteStep(Add(c, d), a ^ b) == Add(ByteStep(c, a), ByteStep(d, b))
  {
    WordIsLinear(a, b);
    hide Add, Word, Steps;
    AddRegroups(c, d, Word(a), Word(b));
    StepsAreLinear(Add(c, Word(a)), Add(d, Word(b)), 8);
  }

  /** Parity is linear: the sum of two messages has the sum of their parities. */
  lemma {:induction false} ParityIsLinear(a: seq<bv8>, b: seq<bv8>)
    requires |a| == |b|
    ensures Crc(XorBytes(a, b)) == Add(Crc(a), Crc(b))
  {
    hide Add, ByteStep;
    if a == [] {
      AddUnits(0);
    } else {
      var n := |a| - 1;
      var x := XorBytes(a, b);
      assert x[..n] == XorBytes(a[..n], b[..n]);
      ParityIsLinear(a[..n], b[..n]);
      ByteStepIsLinear(Crc(a[..n]), Crc(b[..n]), a[n], b[n]);
    }
  }

  // ---------- codewords ----------

  /** The parity field: the last three bytes of a message. */
  function ParityField(data: seq<bv8>): bv32 {
    var n := |data|;
    if n < 3 then 0 else ((data[n - 3] as bv32) << 16) | ((data[n - 2] as bv32) << 8) | (data[n - 1] as bv32)
  }

  function Field(b0: bv8, b1: bv8, b2: bv8): bv32 {
    Add(Add(Word(b0), (b1 as bv32) << 8), b2 as bv32)
  }

  lemma FieldOf(b0: bv8, b1: bv8, b2: bv8)
    ensures Field(b0, b1, b2) == ((b0 as bv32) << 16) | ((b1 as bv32) << 8) | (b2 as bv32)
    ensures Is24(Field(b0, b1, b2))
  {}

  lemma MiddleByte(b: bv8)
    ensures Steps((b as bv32) << 8, 8) == Word(b)
  {
    assert ((b as bv32) << 8) & 0xFFFF0000 == 0 && ((b as bv32) << 8) << 8 == Word(b);
    StepsOfLow((b as bv32) << 8);
  }

  lemma LastByte(b: bv8)
    ensures Steps(b as bv32, 16) == Word(b)
  {
    hide Steps, Word;
    LowByte(b);
    MiddleByte(b);
    StepsCompose(b as bv32, 8, 8);
  }

  lemma LowByte(b: bv8)
    ensures Steps(b as bv32, 8) == (b as bv32) << 8
  {
    assert (b as bv32) & 0xFFFF0000 == 0;
    hide Steps;
    StepsOfLow(b as bv32);
  }

  /** A byte absorbed after n steps could have been added before them, n places lower. */
  lemma AbsorbLower(x: bv32, y: bv32, b: bv8, n: nat)
    requires Steps(y, n) == Word(b)
    ensures ByteStep(Steps(x, n), b) == Steps(Add(x, y), n + 8)
  {
    hide Add, Word, Steps;
    StepsAreLinear(x, y, n);
    StepsCompose(Add(x, y), n, 8);
  }

  lemma ThreeBytes(r: bv32, b0: bv8, b1: bv8, b2: bv8)
    ensures ByteStep(ByteStep(ByteStep(r, b0), b1), b2) == Steps(Add(r, Field(b0, b1, b2)), 24)
  {
    MiddleByte(b1);
    LastByte(b2);
    hide Add, Word, Steps;
    var w1, w2 := (b1 as bv32) << 8, b2 as bv32;
    AbsorbLower(Add(r, Word(b0)), w1, b1, 8);
    AbsorbLower(Add(Add(r, Word(b0)), w1), w2, b2, 16);
    AddAssociates(r, Word(b0), w1);
    AddAssociates(r, Add(Word(b0), w1), w2);
  }

  lemma LastThree(data: seq<bv8>)
    requires |data| >= 3
    ensures
      var n := |data|;
      Crc(data) == ByteStep(ByteStep(ByteStep(Crc(data[..n - 3]), data[n - 3]), data[n - 2]), data[n - 1])
  {
    hide ByteStep;
    var n := |data|;
    assert data[..n - 1][..n - 2] == data[..n - 2] && data[..n - 2][..n - 3] == data[..n - 3];
  }

  /** A message divides by the generator exactly when its last 24 bits are the parity of the rest. */
  lemma CodewordCharacterised(data: seq<bv8>)
    requires |data| >= 3
    ensures Crc(data) == 0 <==> ParityField(data) == Crc(data[..|data| - 3])
  {
    var n := |data|;
    hide Add, Steps, Field, ParityField, Is24, ByteStep, Crc;
    var r, f := Crc(data[..n - 3]), ParityField(data);
    WholeMessage(data);
    CrcIs24(data[..n - 3]);
    AddIs24(r, f);
    AddCancels(r, f);
    ZeroIs24();
    StepsOfZero(24);
    if Crc(data) == 0 {
      StepsAreInjective(Add(r, f), 0, 24);
    }
  }

  lemma WholeMessage(data: seq<bv8>)
    requires |data| >= 3
    ensures Is24(ParityField(data))
    ensures Crc(data) == Steps(Add(Crc(data[..|data| - 3]), ParityField(data)), 24)
  {
    hide Add, Steps, Field, ParityField, Is24, ByteStep, Crc;
    var n := |data|;
    FieldIsParityField(data);
    LastThree(data);
    ThreeBytes(Crc(data[..n - 3]), data[n - 3], data[n - 2], data[n - 1]);
  }

  lemma FieldIsParityField(data: seq<bv8>)
    requires |data| >= 3
    ensures ParityField(data) == Field(data[|data| - 3], data[|data| - 2], data[|data| - 1]) && Is24(ParityField(data))
  {
    hide Field, Is24;
    FieldOf(data[|data| - 3], data[|data| - 2], data[|data| - 1]);
  }
}
