/** update_crc32: the table-driven CRC-32 of section 8.1.1.6.2 of ITU-T V.42, proved against
    bit-at-a-time polynomial division and against textbook long division of the padded message. */
module Crc32 {
  import opened Crc32Table

  const POLYNOMIAL: bv32 := 0xEDB88320
  const ALL_ONES: bv32 := 0xFFFFFFFF

  // ----- The specification: division by the reflected polynomial, one bit at a time

  predicate Odd(r: bv32) { r & 1 != 0 }

  function Half(r: bv32): bv32 { r >> 1 }

  /** One division step: multiply by x, reduce if the leading coefficient was set. */
  function Step(r: bv32): bv32 {
    if Odd(r) then Xor(Half(r), POLYNOMIAL) else Half(r)
  }

  function Steps(r: bv32, n: nat): bv32
    decreases n
  {
    if n == 0 then r else Steps(Step(r), n - 1)
  }

  /** A coefficient at the near end of the register, and at the far end. */
  function Bit(b: bool): bv32 { if b then 1 else 0 }

  function FarBit(b: bool): bv32 { if b then 0x80000000 else 0 }

  /** Register after a run of message bits. */
  function Feed(r: bv32, bits: seq<bool>): bv32
    decreases |bits|
  {
    if bits == [] then r else Feed(Step(Xor(r, Bit(bits[0]))), bits[1..])
  }

  /** The n low bits of a byte in transmission order, least significant first. */
  function BitsOf(b: bv8, n: nat): (bits: seq<bool>)
    ensures |bits| == n
    decreases n
  {
    if n == 0 then [] else [b & 1 != 0] + BitsOf(b >> 1, n - 1)
  }

  function ByteBits(b: bv8): (bits: seq<bool>)
    ensures |bits| == 8
  {
    BitsOf(b, 8)
  }

  function MessageBits(message: seq<bv8>): (bits: seq<bool>)
    ensures |bits| == 8 * |message|
  {
    if message == [] then [] else ByteBits(message[0]) + MessageBits(message[1..])
  }

  /** What update_crc32 returns; the empty message is special in the source. */
  function Crc(start: bv32, message: seq<bv8>): bv32 {
    if message == [] then 0 else Xor(Feed(start, MessageBits(message)), ALL_ONES)
  }

  /** Textbook long division: the window holds the 32 leading coefficients, the next coefficient
      of the dividend is shifted in at the far end. */
  function LongDivide(window: bv32, dividend: seq<bool>): bv32
    decreases |dividend|
  {
    if dividend == [] then window
    else LongDivide(Xor(Step(window), FarBit(dividend[0])), dividend[1..])
  }

  // ----- Linearity of the step

  lemma XorAssociative(a: bv32, b: bv32, c: bv32)
    ensures Xor(Xor(a, b), c) == Xor(a, Xor(b, c))
  {}

  lemma XorCommutative(a: bv32, b: bv32)
    ensures Xor(a, b) == Xor(b, a)
  {}

  lemma XorCancels(a: bv32, b: bv32)
    ensures Xor(Xor(a, b), b) == a
  {}

  lemma XorZero(a: bv32)
    ensures Xor(a, 0) == a
  {}

  lemma XorMiddle(a: bv32, b: bv32, c: bv32)
    ensures Xor(a, Xor(b, c)) == Xor(Xor(a, c), b)
    ensures Xor(Xor(a, b), c) == Xor(Xor(a, c), b)
  {
    hide Xor;
    XorCommutative(b, c);
    XorAssociative(a, c, b);
    XorAssociative(a, b, c);
  }

  lemma XorBoth(a: bv32, b: bv32, p: bv32)
    ensures Xor(Xor(a, p), Xor(b, p)) == Xor(a, b)
  {
    hide Xor;
    XorMiddle(Xor(a, p), b, p);
    XorCancels(a, p);
  }

  lemma ShiftXor(a: bv32, b: bv32)
    ensures (a ^ b) >> 1 == (a >> 1) ^ (b >> 1)
  {}

  lemma XorDefinition(a: bv32, b: bv32)
    ensures Xor(a, b) == a ^ b
  {}

  lemma HalfDefinition(r: bv32)
    ensures Half(r) == r >> 1
  {}

  lemma HalfXor(a: bv32, b: bv32)
    ensures Half(Xor(a, b)) == Xor(Half(a), Half(b))
  {
    hide Xor, Half;
    ShiftXor(a, b);
    XorDefinition(a, b);
    XorDefinition(a >> 1, b >> 1);
    HalfDefinition(a);
    HalfDefinition(b);
    HalfDefinition(a ^ b);
  }

  lemma OddXor(a: bv32, b: bv32)
    ensures Odd(Xor(a, b)) <==> Odd(a) != Odd(b)
  {}

  lemma StepXor(a: bv32, b: bv32)
    ensures Step(Xor(a, b)) == Xor(Step(a), Step(b))
  {
    hide Xor, Half, Odd;
    HalfXor(a, b);
    OddXor(a, b);
    XorBoth(Half(a), Half(b), POLYNOMIAL);
    XorMiddle(Half(a), POLYNOMIAL, Half(b));
    XorMiddle(Half(a), Half(b), POLYNOMIAL);
  }

  lemma {:induction false} StepsXor(a: bv32, b: bv32, n: nat)
    ensures Steps(Xor(a, b), n) == Xor(Steps(a, n), Steps(b, n))
    decreases n
  {
    hide Xor, Step;
    if n > 0 {
      StepXor(a, b);
      StepsXor(Step(a), Step(b), n - 1);
    }
  }

  /** The step loses nothing: the polynomial has its constant and leading coefficient set. */
  lemma StepInjective(a: bv32, b: bv32)
    requires Step(a) == Step(b)
    ensures a == b
  {}

  lemma {:induction false} StepsInjective(a: bv32, b: bv32, n: nat)
    requires Steps(a, n) == Steps(b, n)
    ensures a == b
    decreases n
  {
    hide Step;
    if n > 0 {
      StepsInjective(Step(a), Step(b), n - 1);
      StepInjective(a, b);
    }
  }

  lemma {:induction false} StepsAdd(r: bv32, m: nat, n: nat)
    ensures Steps(r, m + n) == Steps(Steps(r, m), n)
    decreases m
  {
    hide Step;
    if m > 0 {
      StepsAdd(Step(r), m - 1, n);
    }
  }

  // ----- The table holds eight steps of every byte

  lemma LiteralSteps()
    ensures Steps(0, 8) == 0
    ensures Steps(1, 8) == 0x77073096 && Steps(2, 8) == 0xEE0E612C && Steps(4, 8) == 0x076DC419
    ensures Steps(8, 8) == 0x0EDB8832 && Steps(16, 8) == 0x1DB71064 && Steps(32, 8) == 0x3B6E20C8
    ensures Steps(64, 8) == 0x76DC4190 && Steps(128, 8) == 0xEDB88320
  {}

  /** A byte is the sum of its bits. */
  lemma ByteAsTerms(i: bv8)
    ensures Term(i, 1, 1) == (i & 1) as bv32
    ensures Xor((i & 1) as bv32, Term(i, 2, 2)) == (i & 3) as bv32
    ensures Xor((i & 3) as bv32, Term(i, 4, 4)) == (i & 7) as bv32
    ensures Xor((i & 7) as bv32, Term(i, 8, 8)) == (i & 15) as bv32
    ensures Xor((i & 15) as bv32, Term(i, 16, 16)) == (i & 31) as bv32
    ensures Xor((i & 31) as bv32, Term(i, 32, 32)) == (i & 63) as bv32
    ensures Xor((i & 63) as bv32, Term(i, 64, 64)) == (i & 127) as bv32
    ensures Xor((i & 127) as bv32, Term(i, 128, 128)) == i as bv32
  {}

  lemma AddTerm(x: bv32, i: bv8, mask: bv8, word: bv32, entry: bv32)
    requires Steps(0, 8) == 0 && Steps(word, 8) == entry
    ensures Steps(Xor(x, Term(i, mask, word)), 8) == Xor(Steps(x, 8), Term(i, mask, entry))
  {
    hide Xor, Step;
    StepsXor(x, Term(i, mask, word), 8);
  }

  lemma FirstTerm(i: bv8)
    ensures Steps(Term(i, 1, 1), 8) == Term(i, 1, 0x77073096)
  {
    LiteralSteps();
  }

  lemma TableEntryIsEightSteps(i: bv8)
    ensures Entry(i) == Steps(i as bv32, 8)
  {
    hide Xor, Step, Term, Entry, Steps;
    LiteralSteps();
    ByteAsTerms(i);
    FirstTerm(i);
    AddTerm((i & 1) as bv32, i, 2, 2, 0xEE0E612C);
    AddTerm((i & 3) as bv32, i, 4, 4, 0x076DC419);
    AddTerm((i & 7) as bv32, i, 8, 8, 0x0EDB8832);
    AddTerm((i & 15) as bv32, i, 16, 16, 0x1DB71064);
    AddTerm((i & 31) as bv32, i, 32, 32, 0x3B6E20C8);
    AddTerm((i & 63) as bv32, i, 64, 64, 0x76DC4190);
    AddTerm((i & 127) as bv32, i, 128, 128, 0xEDB88320);
  }

  lemma PeelTwo(y: bv32, shifted: bv32, n: nat)
    requires y & 3 == 0 && shifted == y >> 2
    ensures Steps(y, n + 2) == Steps(shifted, n)
  {
    assert Step(Step(y)) == y >> 2;
    hide Step;
  }

  lemma ShiftByTwos(y: bv32) returns (y2: bv32)
    requires y & 15 == 0
    ensures y & 3 == 0 && y2 == y >> 2
    ensures y2 & 3 == 0 && y >> 4 == y2 >> 2
  {
    y2 := y >> 2;
  }

  lemma PeelFour(y: bv32, shifted: bv32, n: nat)
    requires y & 15 == 0 && shifted == y >> 4
    ensures Steps(y, n + 4) == Steps(shifted, n)
  {
    hide Steps;
    var y2 := ShiftByTwos(y);
    PeelTwo(y, y2, n + 2);
    PeelTwo(y2, shifted, n);
  }

  lemma ShiftByFours(y: bv32) returns (y4: bv32)
    requires y & 0xFF == 0
    ensures y & 15 == 0 && y4 == y >> 4
    ensures y4 & 15 == 0 && y >> 8 == y4 >> 4
  {
    y4 := y >> 4;
  }

  lemma HighBytesShift(y: bv32)
    requires y & 0xFF == 0
    ensures Steps(y, 8) == y >> 8
  {
    hide Steps;
    var y4 := ShiftByFours(y);
    PeelFour(y, y4, 4);
    PeelFour(y4, y >> 8, 0);
    StepsNone(y >> 8);
  }

  lemma StepsNone(r: bv32)
    ensures Steps(r, 0) == r
  {}

  lemma HighBytes(x: bv32) returns (hi: bv32)
    ensures hi & 0xFF == 0 && hi >> 8 == x >> 8
    ensures x == Xor(((x & 0xFF) as bv8) as bv32, hi)
  {
    hi := x & 0xFFFFFF00;
  }

  lemma StepsByByte(x: bv32)
    ensures Xor(Entry((x & 0xFF) as bv8), x >> 8) == Steps(x, 8)
  {
    hide Xor, Entry, Steps;
    var hi := HighBytes(x);
    TableEntryIsEightSteps((x & 0xFF) as bv8);
    HighBytesShift(hi);
    StepsXor(((x & 0xFF) as bv8) as bv32, hi, 8);
  }

  lemma AddByte(r: bv32, b: bv8) returns (x: bv32)
    ensures x == Xor(r, b as bv32) && x >> 8 == r >> 8
  {
    x := Xor(r, b as bv32);
  }

  /** The loop body of update_crc32. */
  function TableUpdate(r: bv32, b: bv8): bv32 {
    Xor(Entry((Xor(r, b as bv32) & 0xFF) as bv8), r >> 8)
  }

  lemma TableStep(r: bv32, b: bv8)
    ensures TableUpdate(r, b) == Steps(Xor(r, b as bv32), 8)
  {
    hide Xor, Entry, Steps;
    var x := AddByte(r, b);
    StepsByByte(x);
  }

  // ----- A run of at most 32 bits acts like one word added to the register up front

  predicate Small(w: bv32) { w < 0x80000000 }

  predicate AtMostTop(w: bv32) { w <= 0x80000000 }

  predicate Below(w: bv32, limit: bv32) { w < limit }

  function Prepend(b: bool, w: bv32): bv32 {
    if b then (w << 1) | 1 else w << 1
  }

  function Word(bits: seq<bool>): bv32 {
    if bits == [] then 0 else Prepend(bits[0], Word(bits[1..]))
  }

  lemma PrependOdd(b: bool, w: bv32)
    ensures Odd(Prepend(b, w)) == b
  {}

  lemma PrependHalf(b: bool, w: bv32)
    ensures Small(w) ==> Half(Prepend(b, w)) == w
  {
    if b {} else {}
  }

  lemma PrependAdds(b: bool, w: bv32)
    ensures Prepend(b, w) == Xor(Prepend(false, w), Bit(b))
  {
    if b {} else {}
  }

  /** 2 to the power 31 - j. */
  function Limit(j: nat): bv32 {
    if j == 0 then 0x80000000 else Half(Limit(j - 1))
  }

  lemma LastLimit()
    ensures Below(0, Limit(31))
  {
    assert Limit(6) == 0x2000000;
    assert Limit(12) == 0x80000;
    assert Limit(18) == 0x2000;
    assert Limit(24) == 0x80;
    assert Limit(28) == 8;
  }

  lemma HalfAtMostTop(w: bv32)
    ensures AtMostTop(w) ==> AtMostTop(Half(w))
  {}

  lemma Top()
    ensures AtMostTop(0x80000000)
  {}

  lemma LimitAtMostTop(j: nat)
    ensures AtMostTop(Limit(j))
  {
    hide AtMostTop, Half;
    if j == 0 {
      Top();
    } else {
      LimitAtMostTop(j - 1);
      HalfAtMostTop(Limit(j - 1));
    }
  }

  lemma BelowTop(w: bv32, limit: bv32)
    ensures Below(w, limit) && AtMostTop(limit) ==> Small(w)
  {}

  lemma DoubleBelow(w: bv32, limit: bv32)
    ensures Below(w, Half(limit)) ==> Below(Prepend(false, w), limit)
  {}

  lemma DoubleAndOneBelow(w: bv32, limit: bv32)
    ensures Below(w, Half(limit)) ==> Below(Prepend(true, w), limit)
  {}

  lemma PrependBelow(b: bool, w: bv32, limit: bv32)
    ensures Below(w, Half(limit)) ==> Below(Prepend(b, w), limit)
  {
    hide Prepend, Below, Half;
    if b {
      DoubleAndOneBelow(w, limit);
    } else {
      DoubleBelow(w, limit);
    }
  }

  lemma {:induction false} WordBelow(bits: seq<bool>, j: nat)
    requires |bits| + j == 31
    ensures Below(Word(bits), Limit(j))
    decreases |bits|
  {
    hide Prepend, Half, Below;
    if bits == [] {
      LastLimit();
    } else {
      WordBelow(bits[1..], j + 1);
      PrependBelow(bits[0], Word(bits[1..]), Limit(j));
    }
  }

  lemma ShortWord(bits: seq<bool>)
    requires |bits| <= 31
    ensures Small(Word(bits))
  {
    hide Word, Limit, Below, Small, AtMostTop;
    var j := 31 - |bits|;
    WordBelow(bits, j);
    LimitAtMostTop(j);
    BelowTop(Word(bits), Limit(j));
  }

  lemma StepOfSum(r: bv32, w: bv32, b: bool)
    requires Small(w)
    ensures Step(Xor(r, Prepend(b, w))) == Xor(Step(Xor(r, Bit(b))), w)
  {
    hide Xor, Bit, Prepend, Half, Odd, Small;
    PrependAdds(b, w);
    PrependOdd(false, w);
    PrependHalf(false, w);
    XorMiddle(r, Prepend(false, w), Bit(b));
    StepXor(Xor(r, Bit(b)), Prepend(false, w));
  }

  lemma {:induction false} FeedWord(r: bv32, bits: seq<bool>)
    requires |bits| <= 32
    ensures Feed(r, bits) == Steps(Xor(r, Word(bits)), |bits|)
    decreases |bits|
  {
    hide Xor, Step, Bit, Prepend, Small;
    if bits == [] {
      XorZero(r);
    } else {
      ShortWord(bits[1..]);
      FeedWord(Step(Xor(r, Bit(bits[0]))), bits[1..]);
      StepOfSum(r, Word(bits[1..]), bits[0]);
    }
  }

  lemma {:induction false} WordInjective(a: seq<bool>, b: seq<bool>)
    requires |a| == |b| <= 32
    requires Word(a) == Word(b)
    ensures a == b
    decreases |a|
  {
    hide Prepend, Half, Odd, Small;
    if a != [] {
      ShortWord(a[1..]);
      ShortWord(b[1..]);
      PrependOdd(a[0], Word(a[1..]));
      PrependOdd(b[0], Word(b[1..]));
      PrependHalf(a[0], Word(a[1..]));
      PrependHalf(b[0], Word(b[1..]));
      WordInjective(a[1..], b[1..]);
      assert a == [a[0]] + a[1..] && b == [b[0]] + b[1..];
    }
  }

  // ----- Bytes as bits

  ghost predicate Fits(b: bv8, n: nat)
    decreases n
  {
    if n == 0 then b == 0 else Fits(b >> 1, n - 1)
  }

  lemma ByteFits(b: bv8)
    ensures Fits(b, 8)
  {
    assert (((((((b >> 1) >> 1) >> 1) >> 1) >> 1) >> 1) >> 1) >> 1 == 0;
  }

  lemma NextBit(b: bv8)
    ensures Prepend(b & 1 != 0, (b >> 1) as bv32) == b as bv32
  {}

  lemma {:induction false} BitsWord(b: bv8, n: nat)
    requires Fits(b, n)
    ensures Word(BitsOf(b, n)) == b as bv32
    decreases n
  {
    hide Prepend;
    if n > 0 {
      BitsWord(b >> 1, n - 1);
      NextBit(b);
      assert BitsOf(b, n)[1..] == BitsOf(b >> 1, n - 1);
    }
  }

  lemma ByteWord(b: bv8)
    ensures Word(ByteBits(b)) == b as bv32
  {
    hide Word, BitsOf, Fits;
    ByteFits(b);
    BitsWord(b, 8);
  }

  lemma FeedByte(r: bv32, b: bv8)
    ensures Feed(r, ByteBits(b)) == Steps(Xor(r, b as bv32), 8)
  {
    hide Xor, Feed, Steps;
    FeedWord(r, ByteBits(b));
    ByteWord(b);
  }

  lemma {:induction false} FeedConcat(r: bv32, a: seq<bool>, b: seq<bool>)
    ensures Feed(r, a + b) == Feed(Feed(r, a), b)
    decreases |a|
  {
    hide Xor, Step;
    if a == [] {
      assert a + b == b;
    } else {
      assert (a + b)[1..] == a[1..] + b;
      FeedConcat(Step(Xor(r, Bit(a[0]))), a[1..], b);
    }
  }

  lemma {:induction false} MessageBitsConcat(a: seq<bv8>, b: seq<bv8>)
    ensures MessageBits(a + b) == MessageBits(a) + MessageBits(b)
    decreases |a|
  {
    hide ByteBits;
    if a == [] {
      assert a + b == b;
    } else {
      assert (a + b)[1..] == a[1..] + b;
      MessageBitsConcat(a[1..], b);
    }
  }

  lemma OneByteBits(b: bv8)
    ensures MessageBits([b]) == ByteBits(b)
  {
    assert MessageBits([b][1..]) == [];
  }

  lemma FeedNextByte(r: bv32, message: seq<bv8>, b: bv8)
    ensures Feed(r, MessageBits(message + [b])) == Steps(Xor(Feed(r, MessageBits(message)), b as bv32), 8)
  {
    hide Xor, Feed, Steps, MessageBits, ByteBits;
    MessageBitsConcat(message, [b]);
    OneByteBits(b);
    FeedConcat(r, MessageBits(message), ByteBits(b));
    FeedByte(Feed(r, MessageBits(message)), b);
  }

  // ----- update_crc32

  method UpdateCrc32(start: bv32, buff: array?<bv8>, len: nat) returns (result: bv32)
    requires buff != null ==> len <= buff.Length
    ensures result == if buff == null then 0 else Crc(start, buff[..len])
  {
    hide Xor, TableUpdate, Steps, Feed, MessageBits;
    if buff != null && len != 0 {
      var crc := start;
      var position := 0;
      FeedNothing(start);
      assert buff[..0] == [];
      while position < len
        invariant 0 <= position <= len
        invariant crc == Feed(start, MessageBits(buff[..position]))
      {
        TableStep(crc, buff[position]);
        FeedNextByte(start, buff[..position], buff[position]);
        assert buff[..position] + [buff[position]] == buff[..position + 1];
        crc := TableUpdate(crc, buff[position]);
        position := position + 1;
      }
      return Xor(crc, ALL_ONES);
    }
    return 0;
  }

  lemma FeedNothing(r: bv32)
    ensures Feed(r, MessageBits([])) == r
  {}

  // ----- The register form is textbook long division of the message followed by 32 zeros

  function Zeros(n: nat): seq<bool> { seq(n, _ => false) }

  lemma {:induction false} DivideZeros(window: bv32, n: nat)
    ensures LongDivide(window, Zeros(n)) == Steps(window, n)
    decreases n
  {
    hide Xor, Step;
    if n > 0 {
      assert Zeros(n)[1..] == Zeros(n - 1);
      ShiftedZero(Step(window));
      DivideZeros(Step(window), n - 1);
    }
  }

  lemma ShiftedZero(r: bv32)
    ensures Xor(r, FarBit(false)) == r
  {}

  lemma {:induction false} DivideConcat(window: bv32, a: seq<bool>, b: seq<bool>)
    ensures LongDivide(window, a + b) == LongDivide(LongDivide(window, a), b)
    decreases |a|
  {
    hide Xor, Step, FarBit;
    if a == [] {
      assert a + b == b;
    } else {
      assert (a + b)[1..] == a[1..] + b;
      DivideConcat(Xor(Step(window), FarBit(a[0])), a[1..], b);
    }
  }

  lemma FarSteps()
    ensures Steps(0x80000000, 16) == 0x8000
  {
    assert Steps(0x80000000, 4) == 0x8000000;
    assert Steps(0x8000000, 4) == 0x800000;
    assert Steps(0x800000, 4) == 0x80000;
    assert Steps(0x80000, 4) == 0x8000;
    hide Steps;
    StepsAdd(0x80000000, 4, 4);
    StepsAdd(0x80000000, 8, 4);
    StepsAdd(0x80000000, 12, 4);
  }

  lemma NearSteps()
    ensures Steps(0x8000, 15) == 1
  {
    assert Steps(0x8000, 4) == 0x800;
    assert Steps(0x800, 4) == 0x80;
    assert Steps(0x80, 4) == 8;
    assert Steps(8, 3) == 1;
    hide Steps;
    StepsAdd(0x8000, 4, 4);
    StepsAdd(0x8000, 8, 4);
    StepsAdd(0x8000, 12, 3);
  }

  lemma ReachNearEnd()
    ensures Steps(0x80000000, 31) == 1
  {
    FarSteps();
    NearSteps();
    hide Steps;
    StepsAdd(0x80000000, 16, 15);
  }

  lemma {:induction false} StepsOfZero(n: nat)
    ensures Steps(0, n) == 0
  {
    if n > 0 {
      StepsOfZero(n - 1);
    }
  }

  lemma OneStep(r: bv32)
    ensures Steps(r, 1) == Step(r)
  {
    hide Step;
  }

  /** A coefficient entering at the far end reaches the near end 31 steps later. */
  lemma FarBitArrives(b: bool)
    ensures Steps(FarBit(b), 32) == Step(Bit(b))
  {
    hide Steps;
    if b {
      ReachNearEnd();
      StepsAdd(0x80000000, 31, 1);
      OneStep(1);
    } else {
      StepsOfZero(32);
    }
  }

  lemma {:induction false} FeedIsDelayedDivision(window: bv32, bits: seq<bool>)
    ensures Feed(Steps(window, 32), bits) == Steps(LongDivide(window, bits), 32)
    decreases |bits|
  {
    hide Xor, Step, Bit, FarBit, Steps;
    if bits != [] {
      var b := Bit(bits[0]);
      var next := Xor(Step(window), FarBit(bits[0]));
      FeedIsDelayedDivision(next, bits[1..]);
      StepsXor(Step(window), FarBit(bits[0]), 32);
      FarBitArrives(bits[0]);
      StepsSwap(window, 32);
      StepXor(Steps(window, 32), b);
    }
  }

  lemma StepsSwap(r: bv32, n: nat)
    ensures Steps(Step(r), n) == Step(Steps(r, n))
  {
    hide Step;
    StepsAdd(r, 1, n);
    StepsAdd(r, n, 1);
    OneStep(r);
    OneStep(Steps(r, n));
  }

  /** Processing the message through the 32-bit register gives the remainder of long division of the
      message followed by 32 zeros, for every initial window. */
  lemma RegisterIsLongDivision(window: bv32, message: seq<bv8>)
    ensures Feed(Steps(window, 32), MessageBits(message))
            == LongDivide(window, MessageBits(message) + Zeros(32))
  {
    hide Step, Feed, Steps, LongDivide, MessageBits, Zeros;
    FeedIsDelayedDivision(window, MessageBits(message));
    DivideConcat(window, MessageBits(message), Zeros(32));
    DivideZeros(LongDivide(window, MessageBits(message)), 32);
  }

  // ----- Composition

  /** The step backwards: a set leading coefficient shows that the polynomial was subtracted. */
  function Unstep(r: bv32): bv32 {
    if Small(r) then Prepend(false, r) else Prepend(true, Xor(r, POLYNOMIAL))
  }

  lemma LeadingCancels(r: bv32)
    ensures Small(r) || Small(Xor(r, POLYNOMIAL))
  {}

  lemma StepUnstep(r: bv32)
    ensures Step(Unstep(r)) == r
  {
    LeadingCancels(r);
    hide Odd, Half, Small, Prepend, Xor;
    PrependOdd(false, r);
    PrependHalf(false, r);
    PrependOdd(true, Xor(r, POLYNOMIAL));
    PrependHalf(true, Xor(r, POLYNOMIAL));
    XorCancels(r, POLYNOMIAL);
  }

  function Unsteps(r: bv32, n: nat): bv32
    decreases n
  {
    if n == 0 then r else Unstep(Unsteps(r, n - 1))
  }

  lemma {:induction false} StepsUnsteps(r: bv32, n: nat)
    ensures Steps(Unsteps(r, n), n) == r
    decreases n
  {
    hide Step, Unstep;
    if n > 0 {
      StepUnstep(Unsteps(r, n - 1));
      StepsUnsteps(r, n - 1);
    }
  }

  /** So for every start register, what update_crc32 computes is the complement of the remainder of a long
      division of the message followed by 32 zeros; exactly one initial window belongs to the register. */
  lemma CrcIsLongDivision(start: bv32, message: seq<bv8>) returns (window: bv32)
    requires message != []
    ensures Crc(start, message) == Xor(LongDivide(window, MessageBits(message) + Zeros(32)), ALL_ONES)
    ensures forall w :: Steps(w, 32) == start <==> w == window
  {
    hide Xor, Feed, Steps, LongDivide, MessageBits, Zeros, Unsteps;
    window := Unsteps(start, 32);
    StepsUnsteps(start, 32);
    RegisterIsLongDivision(window, message);
    forall w | Steps(w, 32) == start ensures w == window {
      StepsInjective(w, window, 32);
    }
  }

  lemma DoubleComplement(r: bv32)
    ensures Xor(Xor(r, ALL_ONES), ALL_ONES) == r
  {
    XorCancels(r, ALL_ONES);
  }

  /** Distinct registers stay distinct over any message. */
  lemma {:induction false} FeedInjective(r: bv32, s: bv32, bits: seq<bool>)
    requires Feed(r, bits) == Feed(s, bits)
    ensures r == s
    decreases |bits|
  {
    hide Xor, Step, Bit;
    if bits != [] {
      var b := Bit(bits[0]);
      FeedInjective(Step(Xor(r, b)), Step(Xor(s, b)), bits[1..]);
      StepInjective(Xor(r, b), Xor(s, b));
      XorCancels(r, b);
      XorCancels(s, b);
    }
  }

  /** Running on a, undoing the final complement and running on b is running on a + b, exactly when
      the special result for an empty part does not interfere. */
  lemma CrcConcat(start: bv32, a: seq<bv8>, b: seq<bv8>)
    ensures Crc(start, a + b) == Crc(Xor(Crc(start, a), ALL_ONES), b)
            <==> if b == [] then a == [] || Crc(start, a) == 0 else a != [] || start == ALL_ONES
  {
    hide Xor, Feed, MessageBits;
    if b == [] {
      assert a + b == a;
    } else if a == [] {
      assert a + b == b;
      StartFromZero(start, MessageBits(b));
    } else {
      MessageBitsConcat(a, b);
      FeedConcat(start, MessageBits(a), MessageBits(b));
      DoubleComplement(Feed(start, MessageBits(a)));
    }
  }

  /** Continuing an empty buffer from the register 0 is not the same as starting with the second one. */
  lemma EmptyPartInterferes()
    ensures Crc(0, [] + [0]) != Crc(Xor(Crc(0, []), ALL_ONES), [0])
  {
    hide Crc;
    CrcConcat(0, [], [0]);
  }

  lemma StartFromZero(start: bv32, bits: seq<bool>)
    ensures Xor(Feed(start, bits), ALL_ONES) == Xor(Feed(Xor(0, ALL_ONES), bits), ALL_ONES) <==> start == ALL_ONES
  {
    hide Feed, Xor;
    XorCommutative(0, ALL_ONES);
    XorZero(ALL_ONES);
    DoubleComplement(Feed(start, bits));
    DoubleComplement(Feed(ALL_ONES, bits));
    if Feed(start, bits) == Feed(ALL_ONES, bits) {
      FeedInjective(start, ALL_ONES, bits);
    }
  }

  // ----- Error detection

  lemma {:induction false} BitsInjective(a: bv8, b: bv8, n: nat)
    requires Fits(a, n) && Fits(b, n) && BitsOf(a, n) == BitsOf(b, n)
    ensures a == b
    decreases n
  {
    if n > 0 {
      assert BitsOf(a, n)[0] == BitsOf(b, n)[0];
      assert BitsOf(a, n)[1..] == BitsOf(a >> 1, n - 1) && BitsOf(b, n)[1..] == BitsOf(b >> 1, n - 1);
      BitsInjective(a >> 1, b >> 1, n - 1);
      SameHalves(a, b);
    }
  }

  lemma SameHalves(a: bv8, b: bv8)
    requires a >> 1 == b >> 1 && (a & 1 != 0 <==> b & 1 != 0)
    ensures a == b
  {}

  lemma {:induction false} MessageBitsInjective(a: seq<bv8>, b: seq<bv8>)
    requires |a| == |b| && MessageBits(a) == MessageBits(b)
    ensures a == b
    decreases |a|
  {
    hide BitsOf, Fits;
    if a != [] {
      assert MessageBits(a)[..8] == ByteBits(a[0]) && MessageBits(b)[..8] == ByteBits(b[0]);
      assert MessageBits(a)[8..] == MessageBits(a[1..]) && MessageBits(b)[8..] == MessageBits(b[1..]);
      ByteFits(a[0]);
      ByteFits(b[0]);
      BitsInjective(a[0], b[0], 8);
      MessageBitsInjective(a[1..], b[1..]);
      assert a == [a[0]] + a[1..] && b == [b[0]] + b[1..];
    }
  }

  /** Different runs of at most 32 bits lead from one register to different registers. */
  lemma ShortRunsDiffer(r: bv32, x: seq<bool>, y: seq<bool>)
    requires |x| == |y| <= 32 && Feed(r, x) == Feed(r, y)
    ensures x == y
  {
    hide Xor, Feed, Steps, Word;
    FeedWord(r, x);
    FeedWord(r, y);
    StepsInjective(Xor(r, Word(x)), Xor(r, Word(y)), |x|);
    XorCommutative(r, Word(x));
    XorCommutative(r, Word(y));
    XorCancels(Word(x), r);
    XorCancels(Word(y), r);
    WordInjective(x, y);
  }

  /** Two equal-length messages whose bits differ only inside a window of 32 consecutive bits, wherever
      it starts, never share a CRC. */
  lemma BurstErrorDetected(start: bv32, a: seq<bv8>, b: seq<bv8>, k: nat, n: nat)
    requires |a| == |b| && a != b && n <= 32 && k + n <= 8 * |a|
    requires MessageBits(a)[..k] == MessageBits(b)[..k]
    requires MessageBits(a)[k + n..] == MessageBits(b)[k + n..]
    ensures Crc(start, a) != Crc(start, b)
  {
    hide Xor, Feed, MessageBits;
    var p, q := MessageBits(a), MessageBits(b);
    if Crc(start, a) == Crc(start, b) {
      DoubleComplement(Feed(start, p));
      DoubleComplement(Feed(start, q));
      SplitFeed(start, p, k, n);
      SplitFeed(start, q, k, n);
      var r := Feed(start, p[..k]);
      FeedInjective(Feed(r, p[k..k + n]), Feed(r, q[k..k + n]), p[k + n..]);
      ShortRunsDiffer(r, p[k..k + n], q[k..k + n]);
      assert p == p[..k] + p[k..k + n] + p[k + n..];
      assert q == q[..k] + q[k..k + n] + q[k + n..];
      MessageBitsInjective(a, b);
    }
  }

  lemma SplitFeed(r: bv32, bits: seq<bool>, k: nat, n: nat)
    requires k + n <= |bits|
    ensures Feed(r, bits) == Feed(Feed(Feed(r, bits[..k]), bits[k..k + n]), bits[k + n..])
  {
    hide Feed;
    FeedConcat(r, bits[..k], bits[k..]);
    assert bits == bits[..k] + bits[k..];
    FeedConcat(Feed(r, bits[..k]), bits[k..k + n], bits[k + n..]);
    assert bits[k..] == bits[k..k + n] + bits[k + n..];
  }

  /** In particular an error confined to four consecutive bytes is always seen. */
  lemma FourByteErrorDetected(start: bv32, prefix: seq<bv8>, x: seq<bv8>, y: seq<bv8>, suffix: seq<bv8>)
    requires |x| == |y| <= 4 && x != y
    ensures Crc(start, prefix + x + suffix) != Crc(start, prefix + y + suffix)
  {
    hide Crc, MessageBits;
    MessageBitsConcat(prefix + x, suffix);
    MessageBitsConcat(prefix + y, suffix);
    MessageBitsConcat(prefix, x);
    MessageBitsConcat(prefix, y);
    assert (prefix + x + suffix)[|prefix|..|prefix| + |x|] == x;
    assert (prefix + y + suffix)[|prefix|..|prefix| + |x|] == y;
    BurstErrorDetected(start, prefix + x + suffix, prefix + y + suffix, 8 * |prefix|, 8 * |x|);
  }

  // ----- A message followed by its own CRC

  function LowByte(w: bv32): bv8 { (w & 0xFF) as bv8 }

  /** The n bytes of a word, low byte first. */
  function LowBytes(w: bv32, n: nat): (bytes: seq<bv8>)
    ensures |bytes| == n
    decreases n
  {
    if n == 0 then [] else [LowByte(w)] + LowBytes(w >> 8, n - 1)
  }

  /** n zero bits in front of a word. */
  function ShiftUp(w: bv32, n: nat): bv32 {
    if n == 0 then w else Prepend(false, ShiftUp(w, n - 1))
  }

  lemma PrependToSum(b: bool, p: bv32, q: bv32)
    ensures Prepend(b, Xor(p, q)) == Xor(Prepend(b, p), Prepend(false, q))
  {
    if b {} else {}
  }

  lemma {:induction false} WordConcat(a: seq<bool>, b: seq<bool>)
    ensures Word(a + b) == Xor(Word(a), ShiftUp(Word(b), |a|))
    decreases |a|
  {
    hide Xor, Prepend;
    if a == [] {
      assert a + b == b;
      XorCommutative(0, Word(b));
      XorZero(Word(b));
    } else {
      assert (a + b)[1..] == a[1..] + b;
      WordConcat(a[1..], b);
      PrependToSum(a[0], Word(a[1..]), ShiftUp(Word(b), |a| - 1));
    }
  }

  lemma ShiftTwice(w: bv32)
    ensures ShiftUp(w, 2) == w << 2
  {
    assert ShiftUp(w, 1) == w << 1;
  }

  lemma {:induction false} ShiftAdds(w: bv32, m: nat, n: nat)
    ensures ShiftUp(ShiftUp(w, m), n) == ShiftUp(w, m + n)
    decreases n
  {
    hide Prepend;
    if n > 0 {
      ShiftAdds(w, m, n - 1);
    }
  }

  lemma ShiftByTwosUp(w: bv32) returns (w2: bv32, w4: bv32, w6: bv32, w8: bv32)
    ensures ShiftUp(w, 2) == w2 && ShiftUp(w2, 2) == w4 && ShiftUp(w4, 2) == w6 && ShiftUp(w6, 2) == w8
    ensures w8 == w << 8
  {
    hide ShiftUp;
    w2 := w << 2;
    w4 := w2 << 2;
    w6 := w4 << 2;
    w8 := w6 << 2;
    ShiftTwice(w);
    ShiftTwice(w2);
    ShiftTwice(w4);
    ShiftTwice(w6);
  }

  lemma ShiftByte(w: bv32)
    ensures ShiftUp(w, 8) == w << 8
  {
    hide ShiftUp;
    var w2, w4, w6, w8 := ShiftByTwosUp(w);
    ShiftAdds(w, 2, 2);
    ShiftAdds(w, 4, 2);
    ShiftAdds(w, 6, 2);
  }

  lemma HighBytesBack(w: bv32)
    ensures (w >> 8) << 8 == w & 0xFFFFFF00
  {}

  lemma LowAndHigh(w: bv32)
    ensures Xor(LowByte(w) as bv32, w & 0xFFFFFF00) == w
  {}

  /** The bits of the low byte, then those of the other bytes. */
  lemma LowByteFirst(w: bv32, rest: seq<bv8>)
    requires Word(MessageBits(rest)) == w >> 8
    ensures Word(MessageBits([LowByte(w)] + rest)) == w
  {
    hide Word, MessageBits, LowByte, Xor, ByteBits;
    MessageBitsConcat([LowByte(w)], rest);
    OneByteBits(LowByte(w));
    WordConcat(ByteBits(LowByte(w)), MessageBits(rest));
    ByteWord(LowByte(w));
    ShiftByte(w >> 8);
    HighBytesBack(w);
    LowAndHigh(w);
  }

  /** The word has no more than n bytes. */
  predicate HasBytes(w: bv32, n: nat)
    decreases n
  {
    if n == 0 then w == 0 else HasBytes(w >> 8, n - 1)
  }

  lemma FourBytes(w: bv32)
    ensures HasBytes(w, 4)
  {
    assert (((w >> 8) >> 8) >> 8) >> 8 == 0;
  }

  lemma NoBits()
    ensures Word(MessageBits([])) == 0
  {}

  /** The bytes transmit exactly the bits of the word. */
  lemma {:induction false} LowBytesWord(w: bv32, n: nat)
    requires HasBytes(w, n)
    ensures Word(MessageBits(LowBytes(w, n))) == w
    decreases n
  {
    hide Word, MessageBits, LowByte;
    if n == 0 {
      NoBits();
    } else {
      LowBytesWord(w >> 8, n - 1);
      LowByteFirst(w, LowBytes(w >> 8, n - 1));
    }
  }

  lemma OnesFirstHalf()
    ensures Steps(0xFFFFFFFF, 16) == 0xBE26ED00
  {
    assert Steps(0xFFFFFFFF, 4) == 0xB2420DE3;
    assert Steps(0xB2420DE3, 4) == 0x2DFD1072;
    assert Steps(0x2DFD1072, 4) == 0x39B1F1CF;
    assert Steps(0x39B1F1CF, 4) == 0xBE26ED00;
    hide Steps;
    StepsAdd(0xFFFFFFFF, 4, 4);
    StepsAdd(0xFFFFFFFF, 8, 4);
    StepsAdd(0xFFFFFFFF, 12, 4);
  }

  lemma OnesSecondHalf()
    ensures Steps(0xBE26ED00, 16) == 0xDEBB20E3
  {
    assert Steps(0xBE26ED00, 4) == 0x0BE26ED0;
    assert Steps(0x0BE26ED0, 4) == 0x00BE26ED;
    assert Steps(0x00BE26ED, 4) == 0x86D830BA;
    assert Steps(0x86D830BA, 4) == 0xDEBB20E3;
    hide Steps;
    StepsAdd(0xBE26ED00, 4, 4);
    StepsAdd(0xBE26ED00, 8, 4);
    StepsAdd(0xBE26ED00, 12, 4);
  }

  lemma ResidueComplement()
    ensures Xor(0xDEBB20E3, ALL_ONES) == 0x2144DF1C
  {}

  /** A message followed by its own CRC, low byte first, has one and the same CRC, whatever the message and the
      start register. */
  lemma Residue(start: bv32, message: seq<bv8>)
    requires message != []
    ensures Crc(start, message + LowBytes(Crc(start, message), 4)) == 0x2144DF1C
  {
    hide Xor, Feed, MessageBits, Word, Steps, LowBytes, HasBytes;
    var r, crc := Feed(start, MessageBits(message)), Crc(start, message);
    var tail := LowBytes(crc, 4);
    MessageBitsConcat(message, tail);
    FeedConcat(start, MessageBits(message), MessageBits(tail));
    FeedWord(r, MessageBits(tail));
    FourBytes(crc);
    LowBytesWord(crc, 4);
    XorCommutative(r, crc);
    XorCommutative(r, ALL_ONES);
    XorCancels(ALL_ONES, r);
    OnesFirstHalf();
    OnesSecondHalf();
    StepsAdd(ALL_ONES, 16, 16);
    ResidueComplement();
  }
}
