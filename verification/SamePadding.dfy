/** The convolution branch of ModelConverter::supportedByNPU and its SAME padding arithmetic. */
module SamePadding {

  function Max(a: int, b: int): int { if a >= b then a else b }

  /** Number of output positions along one dimension. */
  function OutSize(input: nat, stride: nat): nat
    requires stride > 0
  {
    (input + stride - 1) / stride
  }

  function TotalPadding(input: nat, stride: nat, filter: nat): nat
    requires input > 0 && stride > 0
  {
    var neededInput := (OutSize(input, stride) - 1) * stride + filter;
    Max(0, neededInput - input)
  }

  function PadBefore(total: nat): nat { total / 2 }

  function PadAfter(total: nat): nat { (total + 1) / 2 }

  lemma OutSizeIsCeiling(input: nat, stride: nat)
    requires input > 0 && stride > 0
    ensures (OutSize(input, stride) - 1) * stride < input <= OutSize(input, stride) * stride
    ensures OutSize(input, stride) > 0
  {
    var out := OutSize(input, stride);
    assert input + stride - 1 == out * stride + (input + stride - 1) % stride;
    assert out != 0 by { assert 0 * stride == 0; }
    assert (out - 1) * stride == out * stride - stride;
  }

  /** Windows 0 .. outputs - 1, `stride` apart and `filter` long, fit into `length` and one more does not. */
  predicate OutputCount(length: int, stride: nat, filter: nat, outputs: nat) {
    && (outputs - 1) * stride + filter <= length
    && length < outputs * stride + filter
  }

  /** With `pad` entries added, the last of the ceil(input / stride) windows fits. */
  predicate Covers(input: nat, stride: nat, filter: nat, pad: nat)
    requires stride > 0
  {
    (OutSize(input, stride) - 1) * stride + filter <= input + pad
  }

  /** The padding is the least that lets the last of the ceil(input / stride) windows fit, gives exactly
      that many outputs, is split evenly with the odd one behind, and stays below the filter size. */
  lemma SamePaddingCorrect(input: nat, stride: nat, filter: nat)
    requires input > 0 && stride > 0 && filter > 0
    ensures var total := TotalPadding(input, stride, filter);
            var out := OutSize(input, stride);
            && (out - 1) * stride < input <= out * stride
            && (forall pad: nat :: Covers(input, stride, filter, pad) <==> total <= pad)
            && OutputCount(input + total, stride, filter, out)
            && PadBefore(total) + PadAfter(total) == total
            && PadBefore(total) <= PadAfter(total) <= PadBefore(total) + 1
            && total <= filter - 1
  {
    OutSizeIsCeiling(input, stride);
  }

  // ----- supportedByNPU

  datatype Constraint = Constraint(maxKernelSize: int, maxStrideSize: int, maxPaddingSize: int)

  /** The limits getConstraints sets for CONV_2D. */
  const CONV_2D_LIMITS := Constraint(8, 5, 5)

  predicate AtMost(pads: seq<int>, limit: int)
    requires |pads| == 4
  {
    pads[0] <= limit && pads[1] <= limit && pads[2] <= limit && pads[3] <= limit
  }

  /** What the branch reads from the operands.  Unknown sizes are 0, an unknown rank is an empty list.
      `explicitPads` is left, right, top, bottom for the ten-input form. */
  datatype Conv2D = Conv2D(quant8: bool, inputDims: seq<nat>, kernelDims: seq<nat>,
                           strideWidth: int, strideHeight: int,
                           tenInputs: bool, explicitPads: seq<int>, paddingScheme: int)
  {
    predicate WellFormed() {
      && (|inputDims| == 0 || |inputDims| == 4) && (|kernelDims| == 0 || |kernelDims| == 4)
      && (tenInputs ==> |explicitPads| == 4)
      && strideWidth > 0 && strideHeight > 0
    }

    /** Rank and spatial sizes are known. */
    predicate Known() {
      && |inputDims| == 4 && inputDims[1] != 0 && inputDims[2] != 0
      && |kernelDims| == 4 && kernelDims[1] != 0 && kernelDims[2] != 0
    }

    /** The branch takes the input width from dimension 1 and the filter width from dimension 2. */
    function Pads(): (pads: seq<int>)
      requires WellFormed() && Known()
      ensures |pads| == 4
    {
      if tenInputs then explicitPads
      else if paddingScheme == 1 then
        var horizontal := TotalPadding(inputDims[1], strideWidth, kernelDims[2]);
        var vertical := TotalPadding(inputDims[2], strideHeight, kernelDims[1]);
        [PadBefore(horizontal), PadAfter(horizontal), PadBefore(vertical), PadAfter(vertical)]
      else [0, 0, 0, 0]
    }

    /** supportedByNPU for an operation of this kind that the compiler lists as supported. */
    predicate Supported(limits: Constraint)
      requires WellFormed()
    {
      if !Known() then true
      else if !quant8 then false
      else if limits.maxKernelSize < kernelDims[2] || limits.maxKernelSize < kernelDims[1] then false
      else if limits.maxStrideSize < strideWidth || limits.maxStrideSize < strideHeight then false
      else AtMost(Pads(), limits.maxPaddingSize)
    }

    /** The same operation with the two spatial dimensions of the input exchanged. */
    function Transposed(): Conv2D {
      if |inputDims| == 4 then
        this.(inputDims := [inputDims[0], inputDims[2], inputDims[1], inputDims[3]])
      else this
    }
  }

  /** With the limits in force, the padding test never rejects a convolution with computed padding,
      whatever the sizes; it only matters for explicit padding. A convolution of unknown size is never
      rejected. */
  lemma PaddingLimitOnlyForExplicit(c: Conv2D)
    requires c.WellFormed()
    ensures c.Supported(CONV_2D_LIMITS) <==>
            || |c.inputDims| == 0 || c.inputDims[1] == 0 || c.inputDims[2] == 0
            || |c.kernelDims| == 0 || c.kernelDims[1] == 0 || c.kernelDims[2] == 0
            || (&& c.quant8
                && c.kernelDims[1] <= 8 && c.kernelDims[2] <= 8
                && c.strideWidth <= 5 && c.strideHeight <= 5
                && (c.tenInputs ==> forall i :: 0 <= i < 4 ==> c.explicitPads[i] <= 5))
  {
    if c.Known() && !c.tenInputs && c.paddingScheme == 1 {
      SamePaddingCorrect(c.inputDims[1], c.strideWidth, c.kernelDims[2]);
      SamePaddingCorrect(c.inputDims[2], c.strideHeight, c.kernelDims[1]);
    }
  }

  /** The pads that the branch computes for scheme 1 are the SAME padding of dimension 1 with the stride for the
      width and the filter's dimension 2, then of dimension 2 with the stride for the height and the filter's
      dimension 1; any other scheme has none. */
  lemma PadsComputed(c: Conv2D)
    requires c.WellFormed() && c.Known() && !c.tenInputs
    ensures c.paddingScheme != 1 ==> c.Pads() == [0, 0, 0, 0]
    ensures c.paddingScheme == 1 ==>
              && (forall pad: nat :: Covers(c.inputDims[1], c.strideWidth, c.kernelDims[2], pad) <==>
                    c.Pads()[0] + c.Pads()[1] <= pad)
              && (forall pad: nat :: Covers(c.inputDims[2], c.strideHeight, c.kernelDims[1], pad) <==>
                    c.Pads()[2] + c.Pads()[3] <= pad)
              && 0 <= c.Pads()[0] <= c.Pads()[1] <= c.Pads()[0] + 1
              && 0 <= c.Pads()[2] <= c.Pads()[3] <= c.Pads()[2] + 1
  {
    if c.paddingScheme == 1 {
      SamePaddingCorrect(c.inputDims[1], c.strideWidth, c.kernelDims[2]);
      SamePaddingCorrect(c.inputDims[2], c.strideHeight, c.kernelDims[1]);
    }
  }

  /** So it decides nothing that the input width is taken from dimension 1, where the height is. */
  lemma TransposingDecidesNothing(c: Conv2D)
    requires c.WellFormed()
    ensures c.Transposed().WellFormed()
    ensures c.Transposed().Supported(CONV_2D_LIMITS) <==> c.Supported(CONV_2D_LIMITS)
  {
    PaddingLimitOnlyForExplicit(c);
    PaddingLimitOnlyForExplicit(c.Transposed());
  }

  /** A convolution of any type, with a kernel of 100 by 100, is supported as long as its input is unknown. */
  lemma UnknownIsSupported(quant8: bool)
    ensures Conv2D(quant8, [], [1, 100, 100, 1], 1, 1, false, [], 1).Supported(CONV_2D_LIMITS)
    ensures !Conv2D(quant8, [1, 200, 200, 1], [1, 100, 100, 1], 1, 1, false, [], 1).Supported(CONV_2D_LIMITS)
  {}
}
