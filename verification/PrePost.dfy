/** The type dispatchers of PrePostProcessor.cpp, the offsets that CompilerManager.cpp chooses for a SoC,
    and the pre- and post-processing of ExecutionScheduler.cpp built on them.  An element of a buffer is
    its bit pattern, a number below the modulus of its type. */
module PrePost {
  import opened Layout

  datatype DataType =
    | FLOAT32 | QUANT8 | RELAXED_FLOAT32 | INT32 | BOOL8 | FLOAT16 | INT64
    | INT16 | INT8 | UINT64 | UINT32 | UINT16 | UINT8

  /** Number of bit patterns of the C++ type the dispatcher instantiates the loops with. */
  function Modulus(dataType: DataType): (m: nat)
    ensures m >= 256
  {
    match dataType
    case QUANT8 | BOOL8 | INT8 | UINT8 => 0x100
    case RELAXED_FLOAT32 | FLOAT16 | INT16 | UINT16 => 0x1_0000
    case FLOAT32 | INT32 | UINT32 => 0x1_0000_0000
    case INT64 | UINT64 => 0x1_0000_0000_0000_0000
  }

  ghost predicate Patterns(dataType: DataType, buffer: seq<int>) {
    forall i :: 0 <= i < |buffer| ==> 0 <= buffer[i] < Modulus(dataType)
  }

  /** The pattern of a float plus an integer.  How the addition rounds is left open. */
  type FloatSum = (int, int) -> int

  /** Adding the offset and storing into the narrow type again. */
  function Add(dataType: DataType, offset: int, floatSum: FloatSum): int -> int {
    if dataType == FLOAT32 then x => floatSum(x, offset) else x => (x + offset) % Modulus(dataType)
  }

  function Keep(): int -> int { x => x }

  /** What each dispatcher does to an element.  The NCHW to NHWC dispatcher calls the plain loop for the
      16-bit integers even when there is an offset. */
  function ToNchwChange(dataType: DataType, offset: int, floatSum: FloatSum): int -> int {
    if offset == 0 then Keep() else Add(dataType, offset, floatSum)
  }

  function ToNhwcChange(dataType: DataType, offset: int, floatSum: FloatSum): int -> int {
    if offset == 0 || dataType == INT16 || dataType == UINT16 then Keep() else Add(dataType, offset, floatSum)
  }

  method FromNhwcToNchw(buffer: array?<int>, s: Shape, dataType: DataType, offset: int, floatSum: FloatSum)
    requires buffer != null ==> buffer.Length == s.Count()
    modifies buffer
    ensures buffer != null ==>
              Relaid(s, NHWC, NCHW, ToNchwChange(dataType, offset, floatSum), old(buffer[..]), buffer[..])
  {
    if buffer == null || buffer.Length == 0 {
      if buffer != null { NothingToMove(s, NHWC, NCHW, ToNchwChange(dataType, offset, floatSum), buffer[..]); }
      return;
    }
    if offset == 0 {
      ConvertToNchw(buffer, s, Keep());
    } else {
      ConvertToNchw(buffer, s, Add(dataType, offset, floatSum));
    }
  }

  method FromNchwToNhwc(buffer: array?<int>, s: Shape, dataType: DataType, offset: int, floatSum: FloatSum)
    requires buffer != null ==> buffer.Length == s.Count()
    modifies buffer
    ensures buffer != null ==>
              Relaid(s, NCHW, NHWC, ToNhwcChange(dataType, offset, floatSum), old(buffer[..]), buffer[..])
  {
    if buffer == null || buffer.Length == 0 {
      if buffer != null { NothingToMove(s, NCHW, NHWC, ToNhwcChange(dataType, offset, floatSum), buffer[..]); }
      return;
    }
    if offset == 0 {
      ConvertToNhwc(buffer, s, Keep());
    } else if dataType == INT16 || dataType == UINT16 {
      ConvertToNhwc(buffer, s, Keep());
    } else {
      ConvertToNhwc(buffer, s, Add(dataType, offset, floatSum));
    }
  }

  lemma NothingToMove(s: Shape, from: Order, to: Order, change: int -> int, empty: seq<int>)
    requires s.Count() == 0 == |empty|
    ensures Relaid(s, from, to, change, empty, empty)
  {
    forall e: Element | s.Has(e)
      ensures false
    {
      PositionBound(from, s, e);
    }
  }

  // ----- Offsets there and back

  lemma AddTwice(dataType: DataType, x: int, o: int, p: int, floatSum: FloatSum)
    requires dataType != FLOAT32 && 0 <= x < Modulus(dataType)
    ensures Add(dataType, p, floatSum)(Add(dataType, o, floatSum)(x)) == x <==> (o + p) % Modulus(dataType) == 0
    ensures Add(dataType, o, floatSum)(x) == x <==> o % Modulus(dataType) == 0
  {
    var m := Modulus(dataType);
    SumModulo(x + o, p, m);
    ShiftModulo(x, o + p, m);
    ShiftModulo(x, o, m);
  }

  lemma SumModulo(a: int, b: int, m: nat)
    requires m > 0
    ensures (a % m + b) % m == (a + b) % m
  {
    ModuloUnique((a % m + b) % m, (a % m + b) / m + a / m, a + b, m);
    assert a == a / m * m + a % m;
  }

  lemma ShiftModulo(x: int, d: int, m: nat)
    requires 0 <= x < m
    ensures (x + d) % m == x <==> d % m == 0
  {
    if d % m == 0 {
      assert d == d / m * m;
      ModuloUnique(x, d / m, x + d, m);
    }
    if (x + d) % m == x {
      assert x + d == (x + d) / m * m + x;
      ModuloUnique(0, (x + d) / m, d, m);
    }
  }

  lemma ModuloUnique(r: int, q: int, a: int, m: nat)
    requires 0 <= r < m && a == q * m + r
    ensures a % m == r
  {
    assert a == a / m * m + a % m;
    FlatInjectiveInt(q, r, a / m, a % m, m);
  }

  lemma FlatInjectiveInt(q: int, r: int, q': int, r': int, m: nat)
    requires 0 <= r < m && 0 <= r' < m && q * m + r == q' * m + r'
    ensures r == r'
  {
    var d := q - q';
    assert d * m == r' - r;
    MultipleInside(d, m);
  }

  lemma MultipleInside(d: int, m: nat)
    ensures d >= 1 ==> d * m >= m
    ensures d <= -1 ==> d * m + m <= 0
  {}

  /** Converting to NCHW with one offset and back with another restores a non-empty buffer exactly when
      the offsets cancel in the element type, or, for the 16-bit integers, when the first offset alone
      vanishes: the second one is never added. */
  lemma DispatchRoundTrip(s: Shape, dataType: DataType, o: int, p: int, floatSum: FloatSum,
                          before: seq<int>, between: seq<int>, after: seq<int>)
    requires dataType == FLOAT32 ==> o == 0 && p == 0
    requires Patterns(dataType, before) && before != []
    requires Relaid(s, NHWC, NCHW, ToNchwChange(dataType, o, floatSum), before, between)
    requires Relaid(s, NCHW, NHWC, ToNhwcChange(dataType, p, floatSum), between, after)
    ensures after == before <==>
            (if dataType == INT16 || dataType == UINT16 then o else o + p) % Modulus(dataType) == 0
  {
    var f, g := ToNchwChange(dataType, o, floatSum), ToNhwcChange(dataType, p, floatSum);
    var first := before[0];
    RoundTrip(s, NHWC, NCHW, f, g, before, between, after);
    forall i | 0 <= i < |before|
      ensures g(f(before[i])) == before[i] <==>
              (if dataType == INT16 || dataType == UINT16 then o else o + p) % Modulus(dataType) == 0
    {
      if dataType != FLOAT32 {
        AddTwice(dataType, before[i], o, p, floatSum);
        AddTwice(dataType, before[i], p, o, floatSum);
      }
    }
  }

  /** So opposite offsets do not cancel for 16-bit integers. */
  lemma Int16OffsetLost(floatSum: FloatSum)
    ensures exists s, before, between, after ::
              && Patterns(INT16, before)
              && Relaid(s, NHWC, NCHW, ToNchwChange(INT16, 1, floatSum), before, between)
              && Relaid(s, NCHW, NHWC, ToNhwcChange(INT16, -1, floatSum), between, after)
              && after != before
  {
    var s := Shape(1, 1, 1, 1);
    assert Relaid(s, NHWC, NCHW, ToNchwChange(INT16, 1, floatSum), [0], [1]);
    assert Relaid(s, NCHW, NHWC, ToNhwcChange(INT16, -1, floatSum), [1], [1]);
    assert Patterns(INT16, [0]);
  }

  // ----- The SoC decides the offsets

  datatype SocType = ST_MAKALU | ST_NEUS | ST_2020 | ST_OTHER

  datatype HwPreference = ALL_HW | GPU_ONLY | NPU_ONLY

  class CompilerManager {
    var inputOffset: int
    var outputOffset: int

    constructor ()
      ensures inputOffset == 0 && outputOffset == 0
    {
      inputOffset, outputOffset := 0, 0;
    }

    /** The offset assignments of initNPUCCompiler. */
    method InitNpucCompiler(soc: SocType)
      modifies this
      ensures inputOffset + outputOffset == 0
      ensures inputOffset == if soc == ST_MAKALU then -128 else 0
    {
      if soc == ST_MAKALU {
        inputOffset, outputOffset := -128, 128;
      } else if soc == ST_NEUS || soc == ST_2020 {
        inputOffset, outputOffset := 0, 0;
      } else {
        inputOffset, outputOffset := 0, 0;
      }
    }

    method PreProcessOnInputs(addr: array<int>, s: Shape, dataType: DataType, hw: HwPreference, floatSum: FloatSum)
      requires addr.Length == s.Count()
      modifies addr
      ensures Relaid(s, NHWC, NCHW, PreChange(dataType, hw, inputOffset, floatSum), old(addr[..]), addr[..])
    {
      if dataType == QUANT8 && hw == NPU_ONLY {
        FromNhwcToNchw(addr, s, dataType, inputOffset, floatSum);
      } else {
        FromNhwcToNchw(addr, s, dataType, 0, floatSum);
      }
    }

    method PostProcessOnOutputs(addr: array<int>, s: Shape, dataType: DataType, hw: HwPreference, floatSum: FloatSum)
      requires addr.Length == s.Count()
      modifies addr
      ensures Relaid(s, NCHW, NHWC, PostChange(dataType, hw, outputOffset, floatSum), old(addr[..]), addr[..])
    {
      if dataType == QUANT8 && hw == NPU_ONLY {
        FromNchwToNhwc(addr, s, dataType, outputOffset, floatSum);
      } else {
        FromNchwToNhwc(addr, s, dataType, 0, floatSum);
      }
    }
  }

  function PreChange(dataType: DataType, hw: HwPreference, inputOffset: int, floatSum: FloatSum): int -> int {
    ToNchwChange(dataType, if dataType == QUANT8 && hw == NPU_ONLY then inputOffset else 0, floatSum)
  }

  function PostChange(dataType: DataType, hw: HwPreference, outputOffset: int, floatSum: FloatSum): int -> int {
    ToNhwcChange(dataType, if dataType == QUANT8 && hw == NPU_ONLY then outputOffset else 0, floatSum)
  }

  /** On Makalu, pre-processing for the NPU turns an unsigned byte into the signed one of the same value, less the
      middle of the range, and post-processing back; for any other preference or type elements stay as they are. */
  lemma QuantisedBytes(x: int, floatSum: FloatSum)
    requires 0 <= x < 256
    ensures PreChange(QUANT8, NPU_ONLY, -128, floatSum)(x) == (x + 128) % 256
    ensures PostChange(QUANT8, NPU_ONLY, 128, floatSum)(x) == (x + 128) % 256
  {}

  lemma OthersUnchanged(dataType: DataType, hw: HwPreference, offset: int, x: int, floatSum: FloatSum)
    requires dataType != QUANT8 || hw != NPU_ONLY || offset == 0
    ensures PreChange(dataType, hw, offset, floatSum)(x) == x
    ensures PostChange(dataType, hw, offset, floatSum)(x) == x
  {}

  /** The sums of the dispatchers wrap at the width of the element type, and the second one drops them for the
      16-bit integers. */
  lemma SumsWrap(dataType: DataType, offset: int, x: int, floatSum: FloatSum)
    requires offset != 0
    ensures dataType == QUANT8 || dataType == BOOL8 || dataType == INT8 || dataType == UINT8 ==>
              ToNchwChange(dataType, offset, floatSum)(x) == ToNhwcChange(dataType, offset, floatSum)(x)
              == (x + offset) % 0x100
    ensures dataType == RELAXED_FLOAT32 || dataType == FLOAT16 ==>
              ToNchwChange(dataType, offset, floatSum)(x) == ToNhwcChange(dataType, offset, floatSum)(x)
              == (x + offset) % 0x1_0000
    ensures dataType == INT16 || dataType == UINT16 ==>
              && ToNchwChange(dataType, offset, floatSum)(x) == (x + offset) % 0x1_0000
              && ToNhwcChange(dataType, offset, floatSum)(x) == x
    ensures dataType == INT32 || dataType == UINT32 ==>
              ToNchwChange(dataType, offset, floatSum)(x) == ToNhwcChange(dataType, offset, floatSum)(x)
              == (x + offset) % 0x1_0000_0000
    ensures dataType == INT64 || dataType == UINT64 ==>
              ToNchwChange(dataType, offset, floatSum)(x) == ToNhwcChange(dataType, offset, floatSum)(x)
              == (x + offset) % 0x1_0000_0000_0000_0000
    ensures dataType == FLOAT32 ==>
              ToNchwChange(dataType, offset, floatSum)(x) == ToNhwcChange(dataType, offset, floatSum)(x)
              == floatSum(x, offset)
  {}

  /** Whatever SoC was found, type and preference: post-processing what pre-processing produced puts
      every byte back where it was, unchanged. */
  method PreThenPost(soc: SocType, addr: array<int>, s: Shape, dataType: DataType, hw: HwPreference, floatSum: FloatSum)
    requires addr.Length == s.Count() && Patterns(dataType, addr[..])
    modifies addr
    ensures addr[..] == old(addr[..])
  {
    var manager := new CompilerManager();
    manager.InitNpucCompiler(soc);
    ghost var before := addr[..];
    manager.PreProcessOnInputs(addr, s, dataType, hw, floatSum);
    ghost var between := addr[..];
    manager.PostProcessOnOutputs(addr, s, dataType, hw, floatSum);
    if before != [] {
      var quantised := dataType == QUANT8 && hw == NPU_ONLY;
      DispatchRoundTrip(s, dataType, if quantised then manager.inputOffset else 0,
                        if quantised then manager.outputOffset else 0, floatSum, before, between, addr[..]);
    }
  }
}
