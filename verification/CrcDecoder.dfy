/** decoder/src/crc.cpp: the lookup table, the byte-at-a-time computation and the in-place corrector. */
module CrcDecoder {
  import opened CrcPolynomial
  import opened CrcTheory
  import opened CrcErrors

  class Crc24 {
    var crcTable: array<bv32>
    var tableInitialized: bool

    ghost predicate Valid()
      reads this, crcTable
    {
      crcTable.Length == 256 && (tableInitialized ==> TableIsRight(crcTable[..]))
    }

    constructor ()
      ensures Valid() && fresh(crcTable)
    {
      crcTable := new bv32[256];
      tableInitialized := false;
    }

    method InitTable()
      requires Valid()
      modifies this`tableInitialized, crcTable
      ensures Valid() && tableInitialized
    {
      hide Steps, Is24, EntryAt;
      if tableInitialized { return; }
      var i := 0;
      while i < 256
        invariant 0 <= i <= 256
        invariant forall k :: 0 <= k < i ==> crcTable[k] == EntryAt(k)
      {
        var crc := (i as bv32) << 16;
        IndexWord(i);
        ghost var entry := EntryAt(i);
        var j := 0;
        while j < 8
          invariant 0 <= j <= 8 && Is24(crc)
          invariant forall k :: 0 <= k < i ==> crcTable[k] == EntryAt(k)
          invariant Steps(crc, 8 - j) == entry
        {
          StepByHand(crc, 8 - j);
          crc := if crc & 0x800000 != 0 then (crc << 1) ^ GENERATOR else crc << 1;
          j := j + 1;
        }
        StepsDone(crc);
        assert crc & 0xFFFFFF == entry;
        crcTable[i] := crc & 0xFFFFFF;
        i := i + 1;
      }
      tableInitialized := true;
    }

    /** The parity of the bytes, whatever their number. */
    method Compute(data: array<bv8>) returns (crc: bv32)
      requires Valid()
      modifies this`tableInitialized, crcTable
      ensures Valid() && crc == Parity(data[..]) && Is24(crc)
    {
      hide Crc, Parity, Is24, TableEntry, ByteStep, ShiftOut, TableIndex;
      InitTable();
      crc := 0;
      EmptyMessage();
      var i := 0;
      while i < data.Length
        invariant 0 <= i <= data.Length && Valid() && tableInitialized
        invariant crc == Crc(data[..i]) && Is24(crc)
      {
        var index := TableIndex(crc, data[i]);
        LookUp(crcTable[..], index);
        AbsorbByte(crc, data[..i], data[i]);
        assert data[..i + 1] == data[..i] + [data[i]];
        crc := ShiftOut(crc, crcTable[index as int]);
        i := i + 1;
      }
      assert data[..i] == data[..];
      CrcIsParity(data[..]);
    }

    method Validate(data: array<bv8>) returns (syndrome: bv32)
      requires Valid()
      modifies this`tableInitialized, crcTable
      ensures Valid() && syndrome == Parity(data[..]) && Is24(syndrome)
    {
      syndrome := Compute(data);
    }

    /** Accepts a DF17 or DF18 message exactly when its parity field is the parity of the rest. */
    method IsValid(data: array<bv8>, df: nat) returns (ok: bool)
      requires Valid()
      modifies this`tableInitialized, crcTable
      ensures Valid()
      ensures df == 11 ==> ok
      ensures df != 11 && data.Length >= 3 ==> (ok <==> ParityField(data[..]) == Parity(data[..data.Length - 3]))
      ensures df != 11 && data.Length < 3 ==> (ok <==> Parity(data[..]) == 0)
    {
      hide Parity, ParityField, Is24;
      if data.Length >= 3 {
        CodewordParity(data[..]);
        assert data[..][..data.Length - 3] == data[..data.Length - 3];
      }
      var syndrome := Validate(data);
      if df == 17 || df == 18 {
        return syndrome == 0;
      }
      if df == 11 {
        return true;
      }
      return syndrome == 0;
    }

    method Extract(data: array<bv8>) returns (parity: bv32)
      ensures parity == ParityField(data[..])
    {
      if data.Length < 3 {
        return 0;
      }
      var n := data.Length;
      return ((data[n - 3] as bv32) << 16) | ((data[n - 2] as bv32) << 8) | (data[n - 1] as bv32);
    }

    /** Flips, in place, the first bit that makes the message divisible; leaves it alone when there is none. */
    method FixSingleBitError(data: array<bv8>) returns (position: int)
      requires Valid()
      modifies this`tableInitialized, crcTable, data
      ensures Valid()
      ensures position == FixPosition(old(data[..]))
      ensures position < 0 ==> data[..] == old(data[..])
      ensures position >= 0 ==> position < 8 * data.Length && data[..] == Flip(old(data[..]), position)
    {
      hide Crc, Parity, Is24, TableEntry, Flip, FirstFix;
      InitTable();
      ghost var received := data[..];
      CrcIsParity(received);
      FirstFixEnds(received);
      var syndrome := Validate(data);
      if syndrome == 0 {
        return -1;
      }
      var byteIdx := 0;
      while byteIdx < data.Length
        invariant 0 <= byteIdx <= data.Length && Valid()
        invariant data[..] == received && FixPosition(received) == FirstFix(received, 8 * byteIdx)
      {
        var bitIdx := 7;
        while bitIdx >= 0
          invariant -1 <= bitIdx <= 7 && Valid()
          invariant data[..] == received && FixPosition(received) == FirstFix(received, 8 * byteIdx + 7 - bitIdx)
        {
          ghost var k := 8 * byteIdx + 7 - bitIdx;
          FirstFixStep(received, k);
          FlipTwice(received, k);
          ToggleBit(data, byteIdx, bitIdx);
          CrcIsParity(data[..]);
          var again := Validate(data);
          if again == 0 {
            return 8 * byteIdx + (7 - bitIdx);
          }
          ToggleBit(data, byteIdx, bitIdx);
          bitIdx := bitIdx - 1;
        }
        byteIdx := byteIdx + 1;
      }
      return -1;
    }
  }

  lemma CodewordParity(data: seq<bv8>)
    requires |data| >= 3
    ensures Parity(data) == 0 <==> ParityField(data) == Parity(data[..|data| - 3])
  {
    hide Parity, Crc, ParityField;
    CodewordCharacterised(data);
    CrcIsParity(data);
    CrcIsParity(data[..|data| - 3]);
  }

  lemma MaskIsShift(bit: int)
    requires 0 <= bit < 8
    ensures (1 as bv8) << bit == Mask(bit)
  {}

  method ToggleBit(data: array<bv8>, byteIdx: int, bitIdx: int)
    requires 0 <= byteIdx < data.Length && 0 <= bitIdx < 8
    modifies data
    ensures data[..] == Flip(old(data[..]), 8 * byteIdx + 7 - bitIdx)
  {
    MaskIsShift(bitIdx);
    hide Mask;
    data[byteIdx] := data[byteIdx] ^ (1 << bitIdx);
  }

  lemma FirstFixStep(data: seq<bv8>, k: nat)
    requires k < 8 * |data|
    ensures FirstFix(data, k) == if Crc(Flip(data, k)) == 0 then k else FirstFix(data, k + 1)
  {}

  lemma FirstFixEnds(data: seq<bv8>)
    ensures FirstFix(data, 8 * |data|) == -1
  {}

  lemma EmptyMessage()
    ensures Crc([]) == 0 && Is24(0)
  {}

  lemma AbsorbByte(c: bv32, data: seq<bv8>, b: bv8)
    requires c == Crc(data) && Is24(c)
    ensures ShiftOut(c, TableEntry(TableIndex(c, b))) == Crc(data + [b]) && Is24(Crc(data + [b]))
  {
    hide Is24, ShiftOut, TableEntry, TableIndex, ByteStep;
    TableStepIsByteStep(c, b);
    assert (data + [b])[..|data|] == data;
    CrcIs24(data + [b]);
  }

  lemma IndexWord(i: int)
    requires 0 <= i < 256
    ensures Steps((i as bv32) << 16, 8) == EntryAt(i) && Is24((i as bv32) << 16)
  {
    hide Is24, Steps, Word;
    WordIs24(i as bv8);
    WordOfIndex(i);
  }

  lemma WordOfIndex(i: int)
    requires 0 <= i < 256
    ensures (i as bv32) << 16 == Word(i as bv8)
  {
    assert i as bv32 == (i as bv8) as bv32;
  }

  /** The branch of the inner loop is one shift of the register, and stays within 24 bits. */
  lemma StepByHand(c: bv32, n: nat)
    requires n > 0 && Is24(c)
    ensures
      var next := if c & 0x800000 != 0 then (c << 1) ^ GENERATOR else c << 1;
      Steps(next, n - 1) == Steps(c, n) && Is24(next)
  {
    hide ShiftStep, Is24;
    StepIs24(c);
    BranchIsStep(c);
  }

  lemma BranchIsStep(c: bv32)
    ensures ShiftStep(c) == if c & 0x800000 != 0 then (c << 1) ^ GENERATOR else c << 1
  {
    hide Add, Up, Top;
    OperationsOf(c);
    AddUnits(Up(c));
  }

  lemma OperationsOf(c: bv32)
    ensures Up(c) == c << 1 && Top(c) == (c & 0x800000 != 0) && Add(Up(c), GENERATOR) == (c << 1) ^ GENERATOR
  {}

  lemma StepsDone(c: bv32)
    requires Is24(c)
    ensures Steps(c, 0) == c & 0xFFFFFF
  {}

  /** Entry k is the remainder of the byte k, for all 256 bytes. */
  ghost predicate TableIsRight(table: seq<bv32>) {
    |table| == 256 && forall k :: 0 <= k < 256 ==> table[k] == EntryAt(k)
  }

  function EntryAt(k: int): bv32
    requires 0 <= k < 256
  {
    TableEntry(k as bv8)
  }

  lemma LookUp(table: seq<bv32>, b: bv8)
    requires TableIsRight(table)
    ensures (b as int) < 256 && table[b as int] == TableEntry(b)
  {
    hide TableEntry;
    assert (b as int) as bv8 == b;
  }
}
