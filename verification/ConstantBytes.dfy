/** What convertToNCHW does to the bytes of a constant, with every condition and every index written out. */
module ConstantBytes {
  import opened Layout
  import opened ConstantLayout

  // ----- Elements and bytes

  lemma {:induction false} ByteOfChunk(bytes: seq<int>, count: nat, width: nat, p: nat, b: nat)
    requires |bytes| == count * width && p < count && b < width
    ensures p * width + b < |bytes| && Chunks(bytes, count, width)[p][b] == bytes[p * width + b]
    decreases count
  {
    FirstWidth(count, width);
    FlatIncreases(p, b, count, 0, width);
    if p > 0 {
      FirstWidth(p, width);
      ByteOfChunk(bytes[width..], count - 1, width, p - 1, b);
    }
  }

  /** Byte b of an entry moves with it. */
  lemma MovedByte(s: Shape, to: Order, width: nat, bytes: seq<int>, e: Element, b: nat)
    requires |bytes| == s.Count() * width && s.Has(e) && b < width
    ensures Position(to, s, e) * width + b < |bytes| && Position(NHWC, s, e) * width + b < |bytes|
    ensures Moved(s, to, width, bytes)[Position(to, s, e) * width + b] == bytes[Position(NHWC, s, e) * width + b]
  {
    hide Chunks, Moved;
    ChunksOfMoved(s, to, width, bytes);
    assert Relaid(s, NHWC, to, (x: seq<int>) => x, Chunks(bytes, s.Count(), width),
                  Relay(s, to, Chunks(bytes, s.Count(), width)));
    ByteOfChunk(bytes, s.Count(), width, Position(NHWC, s, e), b);
    ByteOfChunk(Moved(s, to, width, bytes), s.Count(), width, Position(to, s, e), b);
  }

  /** The three positions, as the source computes them. */
  lemma Positions(s: Shape, e: Element)
    requires s.Has(e)
    ensures Position(NHWC, s, e) == ((e.n * s.height + e.h) * s.width + e.w) * s.channel + e.c
    ensures Position(NCHW, s, e) == ((e.n * s.channel + e.c) * s.height + e.h) * s.width + e.w
    ensures Position(CNHW, s, e) == ((e.c * s.number + e.n) * s.height + e.h) * s.width + e.w
  {}

  // ----- One conversion

  /** Byte b of the element at position `from` before stands at position `at` after. */
  ghost predicate Stands(before: seq<int>, from: nat, after: seq<int>, at: nat, o: Operand, b: nat) {
    && o.start + at * o.width + b < |after| && o.start + from * o.width + b < |before|
    && after[o.start + at * o.width + b] == before[o.start + from * o.width + b]
  }

  lemma StandsInRead(before: seq<int>, from: nat, after: seq<int>, at: nat, o: Operand, b: nat)
    requires o.start + o.length <= |before| == |after|
    requires at * o.width + b < o.length && from * o.width + b < o.length
    requires Read(after, o)[at * o.width + b] == Read(before, o)[from * o.width + b]
    ensures Stands(before, from, after, at, o, b)
  {}

  lemma ConvertedByte(memory: seq<int>, o: Operand, to: Order, e: Element, b: nat)
    requires o.lifetime == CONSTANT_COPY || o.lifetime == CONSTANT_REFERENCE
    requires |o.dimensions| >= 4 && o.Fits(|memory|) && to != NHWC
    requires e.n < o.dimensions[0] && e.h < o.dimensions[1] && e.w < o.dimensions[2] && e.c < o.dimensions[3]
    requires b < o.width
    ensures var s := Shape(o.dimensions[0], o.dimensions[3], o.dimensions[1], o.dimensions[2]);
            Stands(memory, Position(NHWC, s, e), Convert(memory, o, to), Position(to, s, e), o, b)
  {
    hide Moved, Convert, Read, Position, Stands;
    ReadConverted(memory, o, to);
    MovedStands(memory, Convert(memory, o, to), o, to, e, b);
  }

  /** Nothing moves in an operand that is no constant, or has less than four dimensions. */
  lemma LeftAlone(memory: seq<int>, o: Operand, to: Order)
    requires o.Fits(|memory|)
    requires o.lifetime == NOT_CONSTANT || |o.dimensions| <= 3
    ensures Convert(memory, o, to) == memory
  {
    if o.Convertible() {
      assert o.EdenShape().channel == 1;
      OneChannelMoved(o.EdenShape(), to, o.width, Read(memory, o));
      hide Moved, Operand.EdenShape;
      assert memory[..o.start] + Read(memory, o) + memory[o.start + o.length..] == memory;
    }
  }

  lemma OneChannelMoved(s: Shape, to: Order, width: nat, bytes: seq<int>)
    requires |bytes| == s.Count() * width && s.channel == 1
    ensures Moved(s, to, width, bytes) == bytes
  {
    hide Chunks, Join;
    OneChannel(s, to, Chunks(bytes, s.Count(), width));
    JoinOfChunks(bytes, s.Count(), width);
  }

  /** With a single channel the three layouts coincide. */
  lemma OneChannel<T>(s: Shape, to: Order, elements: seq<T>)
    requires |elements| == s.Count() && s.channel == 1
    ensures Relay(s, to, elements) == elements
  {
    forall p | 0 <= p < |elements|
      ensures Relay(s, to, elements)[p] == elements[p]
    {
      var e := ElementAt(to, s, p);
      OneChannelPosition(s, to, e);
    }
  }

  lemma OneChannelPosition(s: Shape, to: Order, e: Element)
    requires s.Has(e) && s.channel == 1
    ensures Position(to, s, e) == Position(NHWC, s, e)
  {
    Positions(s, e);
  }

  // ----- The whole list of operations

  /** The layout in which operation op wants its k-th input, from the kind of the operation. */
  lemma DemandMeans(model: Model, op: Operation, k: nat)
    requires model.WellFormed(op)
    ensures op.kind == GATHER ==> Demand(model, op, k) == NHWC
    ensures op.kind == OTHER_OPERATION ==> Demand(model, op, k) == NCHW
    ensures op.kind == FULLY_CONNECTED ==> Demand(model, op, k) == if k == 0 then NHWC else NCHW
    ensures op.kind == CONV_2D || op.kind == DEPTHWISE_CONV_2D || op.kind == GROUPED_CONV_2D ==>
              Demand(model, op, k) == if k == 0 && model.IsNchw(op) then NHWC else NCHW
    ensures op.kind == TRANSPOSE_CONV_2D ==>
              Demand(model, op, k) == if k == 0 && model.IsNchw(op) then NHWC else if k == 1 then CNHW else NCHW
  {}

  /** Where the flag for NCHW activations stands: behind the scalar inputs of each form of a convolution, which
      is told by the type BOOL in the shorter one. */
  lemma LayoutFlag(model: Model, op: Operation)
    requires model.WellFormed(op)
    ensures op.kind == CONV_2D && |op.inputs| <= 7 ==> !model.IsNchw(op)
    ensures op.kind == CONV_2D && |op.inputs| >= 8 && model.operands[op.inputs[7]].isBool ==>
              model.IsNchw(op) == model.operands[op.inputs[7]].value
    ensures op.kind == CONV_2D && 8 <= |op.inputs| <= 10 && !model.operands[op.inputs[7]].isBool ==> !model.IsNchw(op)
    ensures op.kind == CONV_2D && |op.inputs| >= 11 && !model.operands[op.inputs[7]].isBool ==>
              model.IsNchw(op) == model.operands[op.inputs[10]].value
    ensures op.kind == DEPTHWISE_CONV_2D && |op.inputs| <= 8 ==> !model.IsNchw(op)
    ensures op.kind == DEPTHWISE_CONV_2D && |op.inputs| >= 9 && model.operands[op.inputs[8]].isBool ==>
              model.IsNchw(op) == model.operands[op.inputs[8]].value
    ensures op.kind == DEPTHWISE_CONV_2D && 9 <= |op.inputs| <= 11 && !model.operands[op.inputs[8]].isBool ==>
              !model.IsNchw(op)
    ensures op.kind == DEPTHWISE_CONV_2D && |op.inputs| >= 12 && !model.operands[op.inputs[8]].isBool ==>
              model.IsNchw(op) == model.operands[op.inputs[11]].value
    ensures op.kind == GROUPED_CONV_2D ==>
              model.IsNchw(op) == model.operands[op.inputs[if |op.inputs| == 12 then 11 else 8]].value
    ensures op.kind == TRANSPOSE_CONV_2D ==>
              model.IsNchw(op) == model.operands[op.inputs[|op.inputs| - 1]].value
  {}

  /** After any list of operations, every byte of a constant of four dimensions that is used once, and shares no
      byte with another converted constant, stands where its operation wants it. */
  lemma DemandedByte(model: Model, operationList: seq<nat>, memory: seq<int>, operand: nat, i: nat, k: nat,
                     e: Element, b: nat)
    requires model.Fits(|memory|)
    requires forall j :: 0 <= j < |operationList| ==> operationList[j] < |model.operations|
    requires i < |operationList| && k < |model.operations[operationList[i]].inputs|
    requires model.operations[operationList[i]].inputs[k] == operand < |model.operands|
    requires OccursOnlyAt(model, operationList, operand, i, k)
    requires var o := model.operands[operand];
             && (o.lifetime == CONSTANT_COPY || o.lifetime == CONSTANT_REFERENCE) && |o.dimensions| >= 4
             && e.n < o.dimensions[0] && e.h < o.dimensions[1] && e.w < o.dimensions[2] && e.c < o.dimensions[3]
             && b < o.width
    requires InModel(model, ListUses(model, operationList)) && Apart(model, ListUses(model, operationList), operand)
    ensures var o, after := model.operands[operand], Apply(model, ListUses(model, operationList), memory);
            var s := Shape(o.dimensions[0], o.dimensions[3], o.dimensions[1], o.dimensions[2]);
            var to := Demand(model, model.operations[operationList[i]], k);
            Stands(memory, Position(NHWC, s, e), after, Position(to, s, e), o, b)
  {
    hide Moved, Apply, Demand, Position, Read, Stands, ListUses, Apart, Operand.EdenShape;
    var o := model.operands[operand];
    ConstantGetsDemandedLayout(model, operationList, memory, operand, i, k);
    assert o.Fits(|memory|);
    MovedStands(memory, Apply(model, ListUses(model, operationList), memory), o,
                Demand(model, model.operations[operationList[i]], k), e, b);
  }

  lemma MovedStands(memory: seq<int>, after: seq<int>, o: Operand, to: Order, e: Element, b: nat)
    requires (o.lifetime == CONSTANT_COPY || o.lifetime == CONSTANT_REFERENCE) && |o.dimensions| >= 4
    requires o.Fits(|memory|) && |after| == |memory|
    requires e.n < o.dimensions[0] && e.h < o.dimensions[1] && e.w < o.dimensions[2] && e.c < o.dimensions[3]
    requires b < o.width
    ensures Read(after, o) ==
              (if to == NHWC then Read(memory, o) else Moved(o.EdenShape(), to, o.width, Read(memory, o))) ==>
            var s := Shape(o.dimensions[0], o.dimensions[3], o.dimensions[1], o.dimensions[2]);
            Stands(memory, Position(NHWC, s, e), after, Position(to, s, e), o, b)
  {
    hide Moved, Position, Read, Stands;
    var s := o.EdenShape();
    MovedByte(s, to, o.width, Read(memory, o), e, b);
    if Read(after, o) == if to == NHWC then Read(memory, o) else Moved(s, to, o.width, Read(memory, o)) {
      StandsInRead(memory, Position(NHWC, s, e), after, Position(to, s, e), o, b);
    }
  }

  // ----- Outputs

  lemma {:induction false} OutputTargetsOnce(op: Operation, first: nat, operand: nat, k: nat)
    requires forall j :: 0 <= j < |op.outputs| ==> (op.outputs[j] == operand <==> j == k)
    ensures Targets(OutputUses(op, first), operand) == if first <= k < |op.outputs| then [NCHW] else []
    decreases |op.outputs| - first
  {
    if first < |op.outputs| {
      OutputTargetsOnce(op, first + 1, operand, k);
      assert OutputUses(op, first)[1..] == OutputUses(op, first + 1);
    }
  }

  /** An operand that an operation only outputs, once, is converted to NCHW; not by a GATHER, and not by a
      convolution that has NCHW activations already. */
  lemma OutputConverted(model: Model, op: Operation, operand: nat, k: nat)
    requires model.WellFormed(op) && operand !in op.inputs && k < |op.outputs|
    requires forall j :: 0 <= j < |op.outputs| ==> (op.outputs[j] == operand <==> j == k)
    ensures op.kind == GATHER ==> Targets(Uses(model, op), operand) == []
    ensures op.kind == FULLY_CONNECTED || op.kind == OTHER_OPERATION ==> Targets(Uses(model, op), operand) == [NCHW]
    ensures op.kind == CONV_2D || op.kind == DEPTHWISE_CONV_2D || op.kind == GROUPED_CONV_2D ||
            op.kind == TRANSPOSE_CONV_2D ==>
              Targets(Uses(model, op), operand) == if model.IsNchw(op) then [] else [NCHW]
  {
    hide Targets, InputUses, OutputUses, Model.IsNchw;
    InputTargets(op, 0, operand, |op.inputs|);
    InputTargets(op, 1, operand, |op.inputs|);
    OutputTargetsOnce(op, 0, operand, k);
    TargetsConcat(InputUses(op, 0), OutputUses(op, 0), operand);
    TargetsConcat(InputUses(op, 1), OutputUses(op, 0), operand);
    SmallTargets(operand);
    if op.kind.Convolution() {
      if model.IsNchw(op) {
        assert [] + InputUses(op, 1) == InputUses(op, 1);
      } else {
        var firstInput := [Use(op.inputs[0], NCHW)];
        TargetsConcat(firstInput, OutputUses(op, 0), operand);
        TargetsConcat(firstInput + OutputUses(op, 0), InputUses(op, 1), operand);
      }
    }
  }
}
