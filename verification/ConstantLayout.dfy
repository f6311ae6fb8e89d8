/** ModelConverter::convertToNCHW: the constants of a model are permuted in place, operation by
    operation, in the memory they are stored in. */
module ConstantLayout {
  import opened Layout
  import Partition

  datatype Lifetime = CONSTANT_REFERENCE | CONSTANT_COPY | NOT_CONSTANT

  /** `start` and `length` locate the bytes, `width` is the size of an element.  `isBool` and `value` say
      whether the operand has type BOOL and what getValue<bool> reads from it. */
  datatype Operand = Operand(lifetime: Lifetime, start: nat, length: nat, dimensions: seq<nat>, width: nat,
                             isBool: bool, value: bool)
  {
    predicate Convertible() { lifetime != NOT_CONSTANT && |dimensions| > 1 }

    /** getEdenDimensions for rank 2 and above. */
    function EdenShape(): Shape
      requires Convertible()
    {
      if |dimensions| == 2 then Shape(1, 1, dimensions[0], dimensions[1])
      else if |dimensions| == 3 then Shape(dimensions[0], 1, dimensions[1], dimensions[2])
      else Shape(dimensions[0], dimensions[3], dimensions[1], dimensions[2])
    }

    /** The stored length is that of the tensor, inside the memory. */
    predicate Fits(size: nat) {
      Convertible() ==> width > 0 && length == EdenShape().Count() * width && start + length <= size
    }
  }

  datatype OperationType =
    | CONV_2D | DEPTHWISE_CONV_2D | GROUPED_CONV_2D | TRANSPOSE_CONV_2D
    | FULLY_CONNECTED | GATHER | OTHER_OPERATION
  {
    predicate Convolution() { CONV_2D? || DEPTHWISE_CONV_2D? || GROUPED_CONV_2D? || TRANSPOSE_CONV_2D? }
  }

  datatype Operation = Operation(kind: OperationType, inputs: seq<nat>, outputs: seq<nat>)

  datatype Model = Model(operands: seq<Operand>, operations: seq<Operation>) {
    predicate Fits(size: nat) {
      && (forall i :: 0 <= i < |operands| ==> operands[i].Fits(size))
      && (forall i :: 0 <= i < |operations| ==> WellFormed(operations[i]))
    }

    /** Indices exist, and an operation has the inputs its branch reads. */
    predicate WellFormed(op: Operation) {
      && (forall k :: 0 <= k < |op.inputs| ==> op.inputs[k] < |operands|)
      && (forall k :: 0 <= k < |op.outputs| ==> op.outputs[k] < |operands|)
      && (op.kind.Convolution() ==> |op.inputs| >= 1)
      && (op.kind == GROUPED_CONV_2D ==> |op.inputs| >= 9)
    }

    function Value(op: Operation, k: nat): bool
      requires WellFormed(op) && k < |op.inputs|
    {
      operands[op.inputs[k]].value
    }

    /** Whether a convolution already has NCHW activations. */
    function IsNchw(op: Operation): bool
      requires WellFormed(op) && op.kind.Convolution()
    {
      match op.kind
      case CONV_2D =>
        if |op.inputs| >= 8 && operands[op.inputs[7]].isBool then Value(op, 7)
        else |op.inputs| >= 11 && Value(op, 10)
      case GROUPED_CONV_2D => if |op.inputs| == 12 then Value(op, 11) else Value(op, 8)
      case TRANSPOSE_CONV_2D => Value(op, |op.inputs| - 1)
      case DEPTHWISE_CONV_2D =>
        if |op.inputs| >= 9 && operands[op.inputs[8]].isBool then Value(op, 8)
        else |op.inputs| >= 12 && Value(op, 11)
    }
  }

  // ----- Converting one operand

  /** Position in NHWC of the entry that another layout stores at position p. */
  ghost function Source(s: Shape, to: Order, p: nat): (q: nat)
    requires p < s.Count()
    ensures q < s.Count()
  {
    Position(NHWC, s, EntryAt(to, s, p))
  }

  /** The elements in another layout, as a function of the elements in NHWC. */
  ghost function Relay<T>(s: Shape, to: Order, elements: seq<T>): (moved: seq<T>)
    requires |elements| == s.Count()
    ensures Relaid(s, NHWC, to, (x: T) => x, elements, moved)
  {
    var moved := seq(|elements|, p requires 0 <= p < |elements| => elements[Source(s, to, p)]);
    assert Relaid(s, NHWC, to, (x: T) => x, elements, moved) by {
      forall e: Element | s.Has(e)
        ensures moved[Position(to, s, e)] == elements[Position(NHWC, s, e)]
      {
        PositionInjective(to, s, e, EntryAt(to, s, Position(to, s, e)));
      }
    }
    moved
  }

  lemma RelayIsTheConversion<T>(s: Shape, to: Order, change: T -> T, before: seq<T>, after: seq<T>)
    requires Relaid(s, NHWC, to, change, before, after) && forall x :: x in before ==> change(x) == x
    ensures after == Relay(s, to, before)
  {
    forall p | 0 <= p < |after|
      ensures after[p] == Relay(s, to, before)[p]
    {
      var e := ElementAt(to, s, p);
      PositionBound(NHWC, s, e);
    }
  }

  /** A byte buffer seen as elements of `width` bytes, as reinterpret_cast does, and back. */
  function Chunks(bytes: seq<int>, count: nat, width: nat): (elements: seq<seq<int>>)
    requires |bytes| == count * width
    ensures |elements| == count && forall i :: 0 <= i < count ==> |elements[i]| == width
  {
    if count == 0 then [] else
    assert count * width == width + (count - 1) * width;
    [bytes[..width]] + Chunks(bytes[width..], count - 1, width)
  }

  function Join(elements: seq<seq<int>>): seq<int> {
    if elements == [] then [] else elements[0] + Join(elements[1..])
  }

  lemma {:induction false} JoinLength(elements: seq<seq<int>>, width: nat)
    requires forall i :: 0 <= i < |elements| ==> |elements[i]| == width
    ensures |Join(elements)| == |elements| * width
  {
    if elements != [] {
      JoinLength(elements[1..], width);
      assert |elements| * width == width + (|elements| - 1) * width;
    }
  }

  lemma {:induction false} JoinOfChunks(bytes: seq<int>, count: nat, width: nat)
    requires |bytes| == count * width
    ensures Join(Chunks(bytes, count, width)) == bytes
    decreases count
  {
    if count > 0 {
      FirstWidth(count, width);
      var first, others := bytes[..width], Chunks(bytes[width..], count - 1, width);
      JoinOfChunks(bytes[width..], count - 1, width);
      assert Chunks(bytes, count, width) == [first] + others;
      hide Chunks;
      assert ([first] + others)[1..] == others;
      assert first + bytes[width..] == bytes;
    }
  }

  lemma FirstWidth(count: nat, width: nat)
    requires count > 0
    ensures count * width == width + (count - 1) * width
  {}

  lemma {:induction false} ChunksOfJoin(elements: seq<seq<int>>, width: nat)
    requires forall i :: 0 <= i < |elements| ==> |elements[i]| == width
    ensures |Join(elements)| == |elements| * width
    ensures Chunks(Join(elements), |elements|, width) == elements
  {
    JoinLength(elements, width);
    if elements != [] {
      ChunksOfJoin(elements[1..], width);
      assert Join(elements)[..width] == elements[0] && Join(elements)[width..] == Join(elements[1..]);
    }
  }

  /** Bytes of a tensor with elements of `width` bytes, moved from NHWC to another layout. */
  ghost function Moved(s: Shape, to: Order, width: nat, bytes: seq<int>): (moved: seq<int>)
    requires |bytes| == s.Count() * width
    ensures |moved| == |bytes|
  {
    var elements := Relay(s, to, Chunks(bytes, s.Count(), width));
    JoinLength(elements, width);
    Join(elements)
  }

  // ----- Memory

  function Read(memory: seq<int>, o: Operand): (bytes: seq<int>)
    requires o.start + o.length <= |memory|
    ensures |bytes| == o.length
  {
    memory[o.start..o.start + o.length]
  }

  /** Memory after convertOperandToNCHW or convertOperandToCNHW. */
  ghost function Convert(memory: seq<int>, o: Operand, to: Order): (result: seq<int>)
    requires o.Fits(|memory|)
    ensures |result| == |memory|
  {
    if o.Convertible() then
      memory[..o.start] + Moved(o.EdenShape(), to, o.width, Read(memory, o)) + memory[o.start + o.length..]
    else memory
  }

  method ConvertOperand(memory: array<int>, o: Operand, to: Order)
    requires o.Fits(memory.Length) && (to == NCHW || to == CNHW)
    modifies memory
    ensures memory[..] == Convert(old(memory[..]), o, to)
  {
    if o.Convertible() {
      var s := o.EdenShape();
      var view := Chunks(memory[o.start..o.start + o.length], s.Count(), o.width);
      var elements := new seq<int>[s.Count()](i requires 0 <= i < s.Count() => view[i]);
      assert elements[..] == view;
      if to == CNHW {
        ConvertToCnhw(elements, s, x => x);
      } else {
        ConvertToNchw(elements, s, x => x);
      }
      RelayIsTheConversion(s, to, (x: seq<int>) => x, view, elements[..]);
      var bytes := Join(elements[..]);
      JoinLength(elements[..], o.width);
      WriteBytes(memory, o.start, bytes);
    }
  }

  method WriteBytes(memory: array<int>, start: nat, bytes: seq<int>)
    requires start + |bytes| <= memory.Length
    modifies memory
    ensures memory[..] == old(memory[..start]) + bytes + old(memory[start + |bytes|..])
  {
    forall i | 0 <= i < |bytes| {
      memory[start + i] := bytes[i];
    }
  }

  // ----- Converting the operands of operations

  datatype Use = Use(operand: nat, to: Order)

  /** Inputs from position k on; only the filter of a transposed convolution goes to CNHW. */
  function InputUses(op: Operation, k: nat): seq<Use>
    decreases |op.inputs| - k
  {
    if k >= |op.inputs| then []
    else [Use(op.inputs[k], if k == 1 && op.kind == TRANSPOSE_CONV_2D then CNHW else NCHW)] + InputUses(op, k + 1)
  }

  function OutputUses(op: Operation, k: nat): seq<Use>
    decreases |op.outputs| - k
  {
    if k >= |op.outputs| then [] else [Use(op.outputs[k], NCHW)] + OutputUses(op, k + 1)
  }

  /** The conversions made for one operation, in order. */
  function Uses(model: Model, op: Operation): seq<Use>
    requires model.WellFormed(op)
  {
    if op.kind.Convolution() then
      (if model.IsNchw(op) then [] else [Use(op.inputs[0], NCHW)] + OutputUses(op, 0)) + InputUses(op, 1)
    else if op.kind == FULLY_CONNECTED then InputUses(op, 1) + OutputUses(op, 0)
    else if op.kind == GATHER then []
    else InputUses(op, 0) + OutputUses(op, 0)
  }

  ghost predicate InModel(model: Model, uses: seq<Use>) {
    forall u :: u in uses ==> u.operand < |model.operands|
  }

  ghost function Apply(model: Model, uses: seq<Use>, memory: seq<int>): (result: seq<int>)
    requires model.Fits(|memory|) && InModel(model, uses)
    ensures |result| == |memory|
    decreases |uses|
  {
    if uses == [] then memory
    else Apply(model, uses[1..], Convert(memory, model.operands[uses[0].operand], uses[0].to))
  }

  lemma {:induction false} ApplyConcat(model: Model, a: seq<Use>, b: seq<Use>, memory: seq<int>)
    requires model.Fits(|memory|) && InModel(model, a) && InModel(model, b)
    ensures InModel(model, a + b)
    ensures Apply(model, a + b, memory) == Apply(model, b, Apply(model, a, memory))
    decreases |a|
  {
    if a == [] {
      assert a + b == b;
    } else {
      assert (a + b)[1..] == a[1..] + b;
      ApplyConcat(model, a[1..], b, Convert(memory, model.operands[a[0].operand], a[0].to));
    }
  }

  lemma ApplyFirst(model: Model, u: Use, rest: seq<Use>, memory: seq<int>)
    requires model.Fits(|memory|) && InModel(model, rest) && u.operand < |model.operands|
    ensures InModel(model, [u] + rest)
    ensures Apply(model, [u] + rest, memory) == Apply(model, rest, Convert(memory, model.operands[u.operand], u.to))
  {
    assert ([u] + rest)[1..] == rest;
  }

  lemma ApplyNone(model: Model, memory: seq<int>)
    requires model.Fits(|memory|)
    ensures Apply(model, [], memory) == memory
  {}

  lemma {:induction false} InputUsesInModel(model: Model, op: Operation, k: nat)
    requires model.WellFormed(op)
    ensures InModel(model, InputUses(op, k))
    decreases |op.inputs| - k
  {
    if k < |op.inputs| {
      InputUsesInModel(model, op, k + 1);
    }
  }

  lemma {:induction false} OutputUsesInModel(model: Model, op: Operation, k: nat)
    requires model.WellFormed(op)
    ensures InModel(model, OutputUses(op, k))
    decreases |op.outputs| - k
  {
    if k < |op.outputs| {
      OutputUsesInModel(model, op, k + 1);
    }
  }

  lemma UsesInModel(model: Model, op: Operation)
    requires model.WellFormed(op)
    ensures InModel(model, Uses(model, op))
  {
    InputUsesInModel(model, op, 0);
    InputUsesInModel(model, op, 1);
    OutputUsesInModel(model, op, 0);
  }

  method ConvertInputs(model: Model, op: Operation, first: nat, memory: array<int>)
    requires model.Fits(memory.Length) && model.WellFormed(op)
    modifies memory
    ensures InModel(model, InputUses(op, first))
    ensures memory[..] == Apply(model, InputUses(op, first), old(memory[..]))
  {
    hide Apply, Convert;
    ghost var before := memory[..];
    var idx := first;
    InputUsesInModel(model, op, first);
    while idx < |op.inputs|
      invariant InModel(model, InputUses(op, idx))
      invariant Apply(model, InputUses(op, idx), memory[..]) == Apply(model, InputUses(op, first), before)
    {
      var to := if idx == 1 && op.kind == TRANSPOSE_CONV_2D then CNHW else NCHW;
      InputUsesInModel(model, op, idx + 1);
      ApplyFirst(model, Use(op.inputs[idx], to), InputUses(op, idx + 1), memory[..]);
      ConvertOperand(memory, model.operands[op.inputs[idx]], to);
      idx := idx + 1;
    }
    ApplyNone(model, memory[..]);
  }

  method ConvertOutputs(model: Model, op: Operation, memory: array<int>)
    requires model.Fits(memory.Length) && model.WellFormed(op)
    modifies memory
    ensures InModel(model, OutputUses(op, 0))
    ensures memory[..] == Apply(model, OutputUses(op, 0), old(memory[..]))
  {
    hide Apply, Convert;
    ghost var before := memory[..];
    var idx := 0;
    OutputUsesInModel(model, op, 0);
    while idx < |op.outputs|
      invariant InModel(model, OutputUses(op, idx))
      invariant Apply(model, OutputUses(op, idx), memory[..]) == Apply(model, OutputUses(op, 0), before)
    {
      OutputUsesInModel(model, op, idx + 1);
      ApplyFirst(model, Use(op.outputs[idx], NCHW), OutputUses(op, idx + 1), memory[..]);
      ConvertOperand(memory, model.operands[op.outputs[idx]], NCHW);
      idx := idx + 1;
    }
    ApplyNone(model, memory[..]);
  }

  method ConvertOperation(model: Model, op: Operation, memory: array<int>)
    requires model.Fits(memory.Length) && model.WellFormed(op)
    modifies memory
    ensures InModel(model, Uses(model, op))
    ensures memory[..] == Apply(model, Uses(model, op), old(memory[..]))
  {
    ghost var m0 := memory[..];
    UsesInModel(model, op);
    InputUsesInModel(model, op, 0);
    InputUsesInModel(model, op, 1);
    OutputUsesInModel(model, op, 0);
    if op.kind.Convolution() {
      if !model.IsNchw(op) {
        ConvertOperand(memory, model.operands[op.inputs[0]], NCHW);
        ConvertOutputs(model, op, memory);
        ApplyFirst(model, Use(op.inputs[0], NCHW), OutputUses(op, 0), m0);
        ApplyConcat(model, [Use(op.inputs[0], NCHW)] + OutputUses(op, 0), InputUses(op, 1), m0);
      } else {
        assert [] + InputUses(op, 1) == InputUses(op, 1);
      }
      ConvertInputs(model, op, 1, memory);
    } else if op.kind == FULLY_CONNECTED {
      ConvertInputs(model, op, 1, memory);
      ConvertOutputs(model, op, memory);
      ApplyConcat(model, InputUses(op, 1), OutputUses(op, 0), m0);
    } else if op.kind == GATHER {
    } else {
      ConvertInputs(model, op, 0, memory);
      ConvertOutputs(model, op, memory);
      ApplyConcat(model, InputUses(op, 0), OutputUses(op, 0), m0);
    }
  }

  /** The conversions made for a list of operations. */
  function ListUses(model: Model, operationList: seq<nat>): seq<Use>
    requires forall i :: 0 <= i < |operationList| ==> operationList[i] < |model.operations|
    requires forall i :: 0 <= i < |model.operations| ==> model.WellFormed(model.operations[i])
  {
    if operationList == [] then []
    else Uses(model, model.operations[operationList[0]]) + ListUses(model, operationList[1..])
  }

  lemma {:induction false} ListUsesInModel(model: Model, operationList: seq<nat>)
    requires forall i :: 0 <= i < |operationList| ==> operationList[i] < |model.operations|
    requires forall i :: 0 <= i < |model.operations| ==> model.WellFormed(model.operations[i])
    ensures InModel(model, ListUses(model, operationList))
  {
    if operationList != [] {
      UsesInModel(model, model.operations[operationList[0]]);
      ListUsesInModel(model, operationList[1..]);
    }
  }

  /** convertToNCHW */
  method ConvertModelToNchw(model: Model, operationList: seq<nat>, memory: array<int>)
    requires model.Fits(memory.Length)
    requires forall i :: 0 <= i < |operationList| ==> operationList[i] < |model.operations|
    modifies memory
    ensures InModel(model, ListUses(model, operationList))
    ensures memory[..] == Apply(model, ListUses(model, operationList), old(memory[..]))
  {
    ghost var before := memory[..];
    ListUsesInModel(model, operationList);
    for k := 0 to |operationList|
      invariant InModel(model, ListUses(model, operationList[k..]))
      invariant Apply(model, ListUses(model, operationList[k..]), memory[..])
                == Apply(model, ListUses(model, operationList), before)
    {
      var op := model.operations[operationList[k]];
      ListUsesInModel(model, operationList[k + 1..]);
      UsesInModel(model, op);
      ApplyConcat(model, Uses(model, op), ListUses(model, operationList[k + 1..]), memory[..]);
      assert operationList[k..][1..] == operationList[k + 1..];
      ConvertOperation(model, op, memory);
    }
  }

  // ----- All groups of operations

  lemma {:induction false} ListUsesConcat(model: Model, a: seq<nat>, b: seq<nat>)
    requires forall i :: 0 <= i < |a| ==> a[i] < |model.operations|
    requires forall i :: 0 <= i < |b| ==> b[i] < |model.operations|
    requires forall i :: 0 <= i < |model.operations| ==> model.WellFormed(model.operations[i])
    ensures ListUses(model, a + b) == ListUses(model, a) + ListUses(model, b)
    decreases |a|
  {
    hide Uses;
    if a == [] {
      assert a + b == b;
    } else {
      assert (a + b)[1..] == a[1..] + b;
      ListUsesConcat(model, a[1..], b);
      assert (a + b)[0] == a[0];
      UsesAssociate(Uses(model, model.operations[a[0]]), ListUses(model, a[1..]), ListUses(model, b));
    }
  }

  lemma UsesAssociate(a: seq<Use>, b: seq<Use>, c: seq<Use>)
    ensures a + (b + c) == (a + b) + c
  {}

  ghost predicate GroupsBelow(groups: seq<Partition.Group>, n: nat) {
    forall g :: 0 <= g < |groups| ==> Partition.OperationsBelow(groups[g], n)
  }

  lemma {:induction false} ExceptNpuBelow(groups: seq<Partition.Group>, n: nat)
    requires GroupsBelow(groups, n)
    ensures forall i :: 0 <= i < |Partition.ExceptNpu(groups)| ==> Partition.ExceptNpu(groups)[i] < n
  {
    if groups != [] {
      assert Partition.OperationsBelow(groups[0], n);
      ExceptNpuBelow(groups[1..], n);
    }
  }

  lemma NextGroup(model: Model, groups: seq<Partition.Group>, size: nat)
    requires model.Fits(size) && groups != [] && GroupsBelow(groups, |model.operations|)
    ensures forall i :: 0 <= i < |groups[0].operations| ==> groups[0].operations[i] < |model.operations|
    ensures GroupsBelow(groups[1..], |model.operations|)
    ensures forall i :: 0 <= i < |Partition.ExceptNpu(groups)| ==>
              Partition.ExceptNpu(groups)[i] < |model.operations|
    ensures forall i :: 0 <= i < |Partition.ExceptNpu(groups[1..])| ==>
              Partition.ExceptNpu(groups[1..])[i] < |model.operations|
    ensures ListUses(model, Partition.ExceptNpu(groups)) ==
            (if groups[0].device == Partition.NPU then [] else ListUses(model, groups[0].operations))
            + ListUses(model, Partition.ExceptNpu(groups[1..]))
  {
    hide ListUses, Model.WellFormed;
    assert Partition.OperationsBelow(groups[0], |model.operations|);
    ExceptNpuBelow(groups, |model.operations|);
    ExceptNpuBelow(groups[1..], |model.operations|);
    if groups[0].device != Partition.NPU {
      ListUsesConcat(model, groups[0].operations, Partition.ExceptNpu(groups[1..]));
    } else {
      NothingBefore(Partition.ExceptNpu(groups[1..]), ListUses(model, Partition.ExceptNpu(groups[1..])));
    }
  }

  lemma NothingBefore(operations: seq<nat>, uses: seq<Use>)
    ensures [] + operations == operations && [] + uses == uses
  {}

  /** What convert does to the constants: convertToNCHW for every group of another device. */
  method ConvertGroups(model: Model, groups: seq<Partition.Group>, memory: array<int>)
    requires model.Fits(memory.Length) && GroupsBelow(groups, |model.operations|)
    modifies memory
    ensures forall i :: 0 <= i < |Partition.ExceptNpu(groups)| ==>
              Partition.ExceptNpu(groups)[i] < |model.operations|
    ensures InModel(model, ListUses(model, Partition.ExceptNpu(groups)))
    ensures memory[..] == Apply(model, ListUses(model, Partition.ExceptNpu(groups)), old(memory[..]))
  {
    hide Apply, ListUses, Partition.ExceptNpu;
    ghost var before := memory[..];
    ExceptNpuBelow(groups, |model.operations|);
    ListUsesInModel(model, Partition.ExceptNpu(groups));
    assert groups[0..] == groups;
    for k := 0 to |groups|
      invariant GroupsBelow(groups[k..], |model.operations|)
      invariant forall i :: 0 <= i < |Partition.ExceptNpu(groups[k..])| ==>
                  Partition.ExceptNpu(groups[k..])[i] < |model.operations|
      invariant InModel(model, ListUses(model, Partition.ExceptNpu(groups[k..])))
      invariant Apply(model, ListUses(model, Partition.ExceptNpu(groups[k..])), memory[..])
                == Apply(model, ListUses(model, Partition.ExceptNpu(groups)), before)
    {
      ghost var rest := groups[k..];
      NextGroup(model, rest, memory.Length);
      assert rest[0] == groups[k] && rest[1..] == groups[k + 1..];
      ListUsesInModel(model, Partition.ExceptNpu(rest[1..]));
      if groups[k].device != Partition.NPU {
        ListUsesInModel(model, groups[k].operations);
        ApplyConcat(model, ListUses(model, groups[k].operations), ListUses(model, Partition.ExceptNpu(rest[1..])),
                    memory[..]);
        ConvertModelToNchw(model, groups[k].operations, memory);
      } else {
        assert [] + ListUses(model, Partition.ExceptNpu(rest[1..])) == ListUses(model, Partition.ExceptNpu(rest[1..]));
      }
    }
    NoGroups(model, memory[..]);
    assert groups[|groups|..] == [];
  }

  lemma NoGroups(model: Model, memory: seq<int>)
    requires model.Fits(|memory|)
    ensures Partition.ExceptNpu([]) == [] && ListUses(model, []) == []
    ensures Apply(model, [], memory) == memory
  {}

  // ----- The effect on one constant

  predicate Disjoint(o: Operand, p: Operand) {
    o.start + o.length <= p.start || p.start + p.length <= o.start
  }

  /** The layouts one operand is converted to, in order. */
  function Targets(uses: seq<Use>, operand: nat): seq<Order> {
    if uses == [] then []
    else (if uses[0].operand == operand then [uses[0].to] else []) + Targets(uses[1..], operand)
  }

  ghost function MovedBy(o: Operand, targets: seq<Order>, bytes: seq<int>): (moved: seq<int>)
    requires o.Convertible() && |bytes| == o.EdenShape().Count() * o.width
    ensures |moved| == |bytes|
    decreases |targets|
  {
    if targets == [] then bytes else MovedBy(o, targets[1..], Moved(o.EdenShape(), targets[0], o.width, bytes))
  }

  /** No other converted constant overlaps this one. */
  ghost predicate Apart(model: Model, uses: seq<Use>, operand: nat)
    requires InModel(model, uses) && operand < |model.operands|
  {
    forall u :: u in uses && u.operand != operand && model.operands[u.operand].Convertible() ==>
      Disjoint(model.operands[u.operand], model.operands[operand])
  }

  /** A constant whose bytes are its own ends up converted once for every use, and in no other way. */
  lemma {:induction false} ConstantAfter(model: Model, uses: seq<Use>, memory: seq<int>, operand: nat)
    requires model.Fits(|memory|) && InModel(model, uses) && operand < |model.operands|
    requires model.operands[operand].Convertible() && Apart(model, uses, operand)
    ensures Read(Apply(model, uses, memory), model.operands[operand])
            == MovedBy(model.operands[operand], Targets(uses, operand), Read(memory, model.operands[operand]))
    decreases |uses|
  {
    hide Convert, Moved, Read;
    if uses != [] {
      var next := Convert(memory, model.operands[uses[0].operand], uses[0].to);
      ConstantAfter(model, uses[1..], next, operand);
      if uses[0].operand == operand {
        ReadConverted(memory, model.operands[operand], uses[0].to);
        assert Targets(uses, operand)[1..] == Targets(uses[1..], operand);
      } else {
        ReadOther(memory, model.operands[uses[0].operand], uses[0].to, model.operands[operand]);
        assert Targets(uses, operand) == Targets(uses[1..], operand);
      }
    }
  }

  lemma ReadConverted(memory: seq<int>, o: Operand, to: Order)
    requires o.Fits(|memory|) && o.Convertible()
    ensures Read(Convert(memory, o, to), o) == Moved(o.EdenShape(), to, o.width, Read(memory, o))
  {}

  lemma ReadOther(memory: seq<int>, p: Operand, to: Order, o: Operand)
    requires p.Fits(|memory|) && o.start + o.length <= |memory| && (p.Convertible() ==> Disjoint(p, o))
    ensures Read(Convert(memory, p, to), o) == Read(memory, o)
  {}

  /** A byte outside every converted constant keeps its value. */
  lemma {:induction false} OtherBytesKept(model: Model, uses: seq<Use>, memory: seq<int>, q: nat)
    requires model.Fits(|memory|) && InModel(model, uses) && q < |memory|
    requires forall u :: u in uses && model.operands[u.operand].Convertible() ==>
               var o := model.operands[u.operand]; !(o.start <= q < o.start + o.length)
    ensures Apply(model, uses, memory)[q] == memory[q]
    decreases |uses|
  {
    if uses != [] {
      OtherBytesKept(model, uses[1..], Convert(memory, model.operands[uses[0].operand], uses[0].to), q);
    }
  }

  // ----- A constant with one use gets the layout its operation demands

  /** Layout in which operation op wants its k-th input; NHWC when it is to stay as it is. */
  function Demand(model: Model, op: Operation, k: nat): Order
    requires model.WellFormed(op)
  {
    if op.kind == GATHER then NHWC
    else if k == 0 && op.kind == FULLY_CONNECTED then NHWC
    else if k == 0 && op.kind.Convolution() && model.IsNchw(op) then NHWC
    else if k == 1 && op.kind == TRANSPOSE_CONV_2D then CNHW
    else NCHW
  }

  function Once(to: Order): seq<Order> { if to == NHWC then [] else [to] }

  lemma {:induction false} TargetsConcat(a: seq<Use>, b: seq<Use>, operand: nat)
    ensures Targets(a + b, operand) == Targets(a, operand) + Targets(b, operand)
    decreases |a|
  {
    if a == [] {
      assert a + b == b;
    } else {
      assert (a + b)[1..] == a[1..] + b && (a + b)[0] == a[0];
      TargetsConcat(a[1..], b, operand);
      var first := if a[0].operand == operand then [a[0].to] else [];
      assert first + (Targets(a[1..], operand) + Targets(b, operand))
          == (first + Targets(a[1..], operand)) + Targets(b, operand);
    }
  }

  lemma {:induction false} OutputTargets(op: Operation, first: nat, operand: nat)
    requires operand !in op.outputs
    ensures Targets(OutputUses(op, first), operand) == []
    decreases |op.outputs| - first
  {
    if first < |op.outputs| {
      OutputTargets(op, first + 1, operand);
      assert OutputUses(op, first)[1..] == OutputUses(op, first + 1);
    }
  }

  lemma {:induction false} InputTargets(op: Operation, first: nat, operand: nat, k: nat)
    requires forall j :: 0 <= j < |op.inputs| ==> (op.inputs[j] == operand <==> j == k)
    ensures Targets(InputUses(op, first), operand) ==
            if first <= k < |op.inputs| then [if k == 1 && op.kind == TRANSPOSE_CONV_2D then CNHW else NCHW] else []
    decreases |op.inputs| - first
  {
    if first < |op.inputs| {
      InputTargets(op, first + 1, operand, k);
      assert InputUses(op, first)[1..] == InputUses(op, first + 1);
    }
  }

  /** k is the one position of the operand among the inputs, or there is none. */
  lemma OperationTargets(model: Model, op: Operation, operand: nat, k: nat)
    requires model.WellFormed(op) && operand !in op.outputs
    requires forall j :: 0 <= j < |op.inputs| ==> (op.inputs[j] == operand <==> j == k)
    ensures Targets(Uses(model, op), operand) == if k < |op.inputs| then Once(Demand(model, op, k)) else []
  {
    hide Targets, InputUses, OutputUses;
    InputTargets(op, 0, operand, k);
    InputTargets(op, 1, operand, k);
    OutputTargets(op, 0, operand);
    TargetsConcat(InputUses(op, 0), OutputUses(op, 0), operand);
    TargetsConcat(InputUses(op, 1), OutputUses(op, 0), operand);
    SmallTargets(operand);
    if op.kind.Convolution() {
      ConvolutionTargets(model, op, operand, k);
    }
  }

  lemma SmallTargets(operand: nat)
    ensures Targets([], operand) == []
    ensures forall u: Use :: Targets([u], operand) == if u.operand == operand then [u.to] else []
  {
    forall u: Use
      ensures Targets([u], operand) == if u.operand == operand then [u.to] else []
    {
      assert [u][1..] == [];
    }
  }

  lemma ConvolutionTargets(model: Model, op: Operation, operand: nat, k: nat)
    requires model.WellFormed(op) && operand !in op.outputs && op.kind.Convolution()
    requires forall j :: 0 <= j < |op.inputs| ==> (op.inputs[j] == operand <==> j == k)
    ensures Targets(Uses(model, op), operand) == if k < |op.inputs| then Once(Demand(model, op, k)) else []
  {
    hide Targets, InputUses, OutputUses;
    InputTargets(op, 1, operand, k);
    OutputTargets(op, 0, operand);
    SmallTargets(operand);
    if model.IsNchw(op) {
      assert [] + InputUses(op, 1) == InputUses(op, 1);
    } else {
      var firstInput := [Use(op.inputs[0], NCHW)];
      TargetsConcat(firstInput, OutputUses(op, 0), operand);
      TargetsConcat(firstInput + OutputUses(op, 0), InputUses(op, 1), operand);
    }
  }

  /** Among the listed operations, the operand occurs as input k of operation i and nowhere else. */
  ghost predicate OccursOnlyAt(model: Model, operationList: seq<nat>, operand: nat, i: nat, k: nat)
    requires forall j :: 0 <= j < |operationList| ==> operationList[j] < |model.operations|
  {
    forall j :: 0 <= j < |operationList| ==>
      var op := model.operations[operationList[j]];
      && operand !in op.outputs
      && forall l :: 0 <= l < |op.inputs| ==> (op.inputs[l] == operand <==> j == i && l == k)
  }

  lemma {:induction false} ListTargets(model: Model, operationList: seq<nat>, operand: nat, i: int, k: nat)
    requires forall j :: 0 <= j < |operationList| ==> operationList[j] < |model.operations|
    requires forall j :: 0 <= j < |model.operations| ==> model.WellFormed(model.operations[j])
    requires forall j :: 0 <= j < |operationList| ==>
               var op := model.operations[operationList[j]];
               && operand !in op.outputs
               && forall l :: 0 <= l < |op.inputs| ==> (op.inputs[l] == operand <==> j == i && l == k)
    requires i < |operationList| && (i >= 0 ==> k < |model.operations[operationList[i]].inputs|)
    ensures Targets(ListUses(model, operationList), operand) ==
            if i >= 0 then Once(Demand(model, model.operations[operationList[i]], k)) else []
    decreases |operationList|
  {
    if operationList != [] {
      var op := model.operations[operationList[0]];
      OperationTargets(model, op, operand, if i == 0 then k else |op.inputs|);
      ListTargets(model, operationList[1..], operand, i - 1, k);
      TargetsConcat(Uses(model, op), ListUses(model, operationList[1..]), operand);
    }
  }

  /** The main result: after the whole list has been processed, a constant that is used once and shares
      no byte with another converted constant holds the permutation its operation demands. */
  lemma ConstantGetsDemandedLayout(model: Model, operationList: seq<nat>, memory: seq<int>, operand: nat, i: nat,
                                   k: nat)
    requires model.Fits(|memory|)
    requires forall j :: 0 <= j < |operationList| ==> operationList[j] < |model.operations|
    requires i < |operationList| && k < |model.operations[operationList[i]].inputs|
    requires model.operations[operationList[i]].inputs[k] == operand
    requires OccursOnlyAt(model, operationList, operand, i, k)
    requires operand < |model.operands| && model.operands[operand].Convertible()
    requires InModel(model, ListUses(model, operationList)) && Apart(model, ListUses(model, operationList), operand)
    ensures var o := model.operands[operand];
            var to := Demand(model, model.operations[operationList[i]], k);
            Read(Apply(model, ListUses(model, operationList), memory), o) ==
            if to == NHWC then Read(memory, o) else Moved(o.EdenShape(), to, o.width, Read(memory, o))
  {
    hide Moved, Apply, Read;
    ListTargets(model, operationList, operand, i, k);
    ConstantAfter(model, ListUses(model, operationList), memory, operand);
    var to := Demand(model, model.operations[operationList[i]], k);
    MovedOnce(model.operands[operand], to, Read(memory, model.operands[operand]));
  }

  lemma MovedOnce(o: Operand, to: Order, bytes: seq<int>)
    requires o.Convertible() && |bytes| == o.EdenShape().Count() * o.width
    ensures MovedBy(o, Once(to), bytes) == if to == NHWC then bytes else Moved(o.EdenShape(), to, o.width, bytes)
  {
    if to != NHWC { assert [to][1..] == []; }
  }

  // ----- A constant with two uses is permuted twice

  lemma UsedTwice(model: Model, uses: seq<Use>, memory: seq<int>, operand: nat)
    requires model.Fits(|memory|) && InModel(model, uses) && operand < |model.operands|
    requires model.operands[operand].Convertible() && Apart(model, uses, operand)
    requires Targets(uses, operand) == [NCHW, NCHW]
    ensures var o := model.operands[operand];
            Read(Apply(model, uses, memory), o) ==
            Moved(o.EdenShape(), NCHW, o.width, Moved(o.EdenShape(), NCHW, o.width, Read(memory, o)))
  {
    hide Moved, Apply, Read;
    ConstantAfter(model, uses, memory, operand);
    assert [NCHW, NCHW][1..] == [NCHW] && [NCHW][1..] == [];
  }

  /** The shapes for which NHWC and NCHW are the same arrangement. */
  predicate SameArrangement(s: Shape) {
    s.number == 0 || s.channel <= 1 || s.height * s.width <= 1
  }

  lemma {:induction false} RelayInjective<T>(s: Shape, to: Order, a: seq<T>, b: seq<T>)
    requires |a| == |b| == s.Count() && Relay(s, to, a) == Relay(s, to, b)
    ensures a == b
  {
    forall p | 0 <= p < |a|
      ensures a[p] == b[p]
    {
      var e := ElementAt(NHWC, s, p);
      assert Relay(s, to, a)[Position(to, s, e)] == a[p];
      assert Relay(s, to, b)[Position(to, s, e)] == b[p];
    }
  }

  lemma SamePositions(s: Shape, e: Element)
    requires s.Has(e) && SameArrangement(s)
    ensures Position(NHWC, s, e) == Position(NCHW, s, e)
  {
    if s.channel > 1 {
      OneByOne(s.height, s.width);
    }
  }

  lemma OneByOne(h: nat, w: nat)
    requires h > 0 && w > 0 && h * w <= 1
    ensures h == 1 && w == 1
  {
    assert h <= h * w && w <= h * w;
  }

  lemma RelayOfSameArrangement<T>(s: Shape, elements: seq<T>)
    requires |elements| == s.Count() && SameArrangement(s)
    ensures Relay(s, NCHW, elements) == elements
  {
    forall p | 0 <= p < |elements|
      ensures Relay(s, NCHW, elements)[p] == elements[p]
    {
      var e := ElementAt(NCHW, s, p);
      SamePositions(s, e);
    }
  }

  lemma RelayMovesSomething<T>(s: Shape, elements: seq<T>)
    requires |elements| == s.Count() && !SameArrangement(s)
    requires forall p, q :: 0 <= p < q < |elements| ==> elements[p] != elements[q]
    ensures Relay(s, NCHW, elements) != elements
  {
    var e := Element(0, 1, 0, 0);
    assert s.height != 0 by { assert 0 * s.width == 0; }
    assert s.width != 0 by { assert s.height * 0 == 0; }
    SecondChannel(s.channel, s.height, s.width);
    assert Position(NHWC, s, e) == 1 && Position(NCHW, s, e) == s.height * s.width;
    assert Relay(s, NCHW, elements)[Position(NCHW, s, e)] == elements[1];
  }

  lemma SecondChannel(C: nat, H: nat, W: nat)
    ensures Flat(Flat(Flat(0, 0, H), 0, W), 1, C) == 1
    ensures Flat(Flat(Flat(0, 1, C), 0, H), 0, W) == H * W
  {}

  /** Being permuted twice is harmless, whatever the contents, exactly for the shapes whose permutation
      is the identity. */
  lemma TwiceIsOnce(s: Shape, width: nat)
    ensures (forall bytes: seq<int> :: |bytes| == s.Count() * width ==>
               Moved(s, NCHW, width, Moved(s, NCHW, width, bytes)) == Moved(s, NCHW, width, bytes))
            <==> width == 0 || SameArrangement(s)
  {
    if width == 0 || SameArrangement(s) {
      forall bytes: seq<int> | |bytes| == s.Count() * width
        ensures Moved(s, NCHW, width, bytes) == bytes
      {
        if width != 0 {
          RelayOfSameArrangement(s, Chunks(bytes, s.Count(), width));
          JoinOfChunks(bytes, s.Count(), width);
        }
      }
    } else {
      var bytes := TwiceDiffers(s, width);
    }
  }

  lemma TwiceDiffers(s: Shape, width: nat) returns (bytes: seq<int>)
    requires width > 0 && !SameArrangement(s)
    ensures |bytes| == s.Count() * width
    ensures Moved(s, NCHW, width, Moved(s, NCHW, width, bytes)) != Moved(s, NCHW, width, bytes)
  {
    hide Relay, Join, Chunks;
    var elements := seq(s.Count(), i => seq(width, _ => i));
    assert forall i :: 0 <= i < s.Count() ==> elements[i][0] == i;
    JoinLength(elements, width);
    ChunksOfJoin(elements, width);
    RelayMovesSomething(s, elements);
    bytes := Join(elements);
    var once := Relay(s, NCHW, elements);
    RelayWidths(s, NCHW, elements, width);
    ChunksOfJoin(once, width);
    var twice := Relay(s, NCHW, once);
    RelayWidths(s, NCHW, once, width);
    if Join(twice) == Join(once) {
      ChunksOfJoin(twice, width);
      RelayInjective(s, NCHW, once, elements);
    }
  }

  /** A tensor of four channels on two by two places does not survive the second conversion. */
  lemma FourChannelsTwice() returns (bytes: seq<int>)
    ensures |bytes| == 16
    ensures Moved(Shape(1, 4, 2, 2), NCHW, 1, Moved(Shape(1, 4, 2, 2), NCHW, 1, bytes))
            != Moved(Shape(1, 4, 2, 2), NCHW, 1, bytes)
  {
    bytes := TwiceDiffers(Shape(1, 4, 2, 2), 1);
  }

  lemma RelayWidths(s: Shape, to: Order, elements: seq<seq<int>>, width: nat)
    requires |elements| == s.Count() && forall i :: 0 <= i < |elements| ==> |elements[i]| == width
    ensures forall i :: 0 <= i < |Relay(s, to, elements)| ==> |Relay(s, to, elements)[i]| == width
  {}

  // ----- A constant with any number of uses

  /** Position in the original of the element that stands at position p after all the conversions. */
  ghost function Origin(s: Shape, targets: seq<Order>, p: nat): (q: nat)
    requires p < s.Count()
    ensures q < s.Count()
  {
    if targets == [] then p else Source(s, targets[0], Origin(s, targets[1..], p))
  }

  lemma ChunksOfMoved(s: Shape, to: Order, width: nat, bytes: seq<int>)
    requires |bytes| == s.Count() * width
    ensures Chunks(Moved(s, to, width, bytes), s.Count(), width) == Relay(s, to, Chunks(bytes, s.Count(), width))
  {
    hide Relay, Join, Chunks;
    var elements := Relay(s, to, Chunks(bytes, s.Count(), width));
    RelayWidths(s, to, Chunks(bytes, s.Count(), width), width);
    ChunksOfJoin(elements, width);
  }

  lemma RelayAt<T>(s: Shape, to: Order, elements: seq<T>, p: nat)
    requires |elements| == s.Count() && p < s.Count()
    ensures |Relay(s, to, elements)| == s.Count()
    ensures Relay(s, to, elements)[p] == elements[Source(s, to, p)]
  {}

  lemma {:induction false} MovedByAt(o: Operand, targets: seq<Order>, bytes: seq<int>, p: nat)
    requires o.Convertible() && |bytes| == o.EdenShape().Count() * o.width && p < o.EdenShape().Count()
    ensures Chunks(MovedBy(o, targets, bytes), o.EdenShape().Count(), o.width)[p]
            == Chunks(bytes, o.EdenShape().Count(), o.width)[Origin(o.EdenShape(), targets, p)]
    decreases |targets|
  {
    hide Moved, Chunks, Relay, Source, Operand.EdenShape;
    if targets != [] {
      var s := o.EdenShape();
      MovedByAt(o, targets[1..], Moved(s, targets[0], o.width, bytes), p);
      ChunksOfMoved(s, targets[0], o.width, bytes);
      RelayAt(s, targets[0], Chunks(bytes, s.Count(), o.width), Origin(s, targets[1..], p));
    }
  }

  /** Bytes that give every element a value of its own. */
  lemma DistinctElements(count: nat, width: nat) returns (bytes: seq<int>)
    requires width > 0
    ensures |bytes| == count * width
    ensures var elements := Chunks(bytes, count, width);
            forall p, q :: 0 <= p < count && 0 <= q < count && elements[p] == elements[q] ==> p == q
  {
    hide Join, Chunks;
    var elements := seq(count, i => seq(width, _ => i));
    assert forall i :: 0 <= i < count ==> elements[i][0] == i;
    JoinLength(elements, width);
    ChunksOfJoin(elements, width);
    bytes := Join(elements);
  }

  /** All the conversions together have the effect of the one, whatever the constant holds. */
  ghost predicate Harmless(o: Operand, targets: seq<Order>, to: Order)
    requires o.Convertible()
  {
    forall bytes: seq<int> :: |bytes| == o.EdenShape().Count() * o.width ==>
      MovedBy(o, targets, bytes) == Moved(o.EdenShape(), to, o.width, bytes)
  }

  /** Any list of conversions is harmless exactly if it takes every position of the shape where the demanded
      one takes it. */
  lemma HarmlessIff(o: Operand, targets: seq<Order>, to: Order)
    requires o.Convertible() && o.width > 0
    ensures Harmless(o, targets, to) <==>
            forall p :: 0 <= p < o.EdenShape().Count() ==>
              Origin(o.EdenShape(), targets, p) == Source(o.EdenShape(), to, p)
  {
    hide MovedBy, Moved, Chunks, Origin, Source, Operand.EdenShape;
    var s := o.EdenShape();
    if forall p :: 0 <= p < s.Count() ==> Origin(s, targets, p) == Source(s, to, p) {
      forall bytes: seq<int> | |bytes| == s.Count() * o.width
        ensures MovedBy(o, targets, bytes) == Moved(s, to, o.width, bytes)
      {
        forall p | 0 <= p < s.Count() ensures SameChunk(o, targets, to, bytes, p) {
          BothAt(o, targets, to, bytes, p);
        }
        SameChunks(o, targets, to, bytes);
      }
    } else {
      var p :| 0 <= p < s.Count() && Origin(s, targets, p) != Source(s, to, p);
      var bytes := DistinctElements(s.Count(), o.width);
      BothAt(o, targets, to, bytes, p);
    }
  }

  /** Element p is the same either way. */
  ghost predicate SameChunk(o: Operand, targets: seq<Order>, to: Order, bytes: seq<int>, p: nat)
    requires o.Convertible() && |bytes| == o.EdenShape().Count() * o.width && p < o.EdenShape().Count()
  {
    Chunks(MovedBy(o, targets, bytes), o.EdenShape().Count(), o.width)[p]
    == Chunks(Moved(o.EdenShape(), to, o.width, bytes), o.EdenShape().Count(), o.width)[p]
  }

  lemma BothAt(o: Operand, targets: seq<Order>, to: Order, bytes: seq<int>, p: nat)
    requires o.Convertible() && |bytes| == o.EdenShape().Count() * o.width && p < o.EdenShape().Count()
    ensures SameChunk(o, targets, to, bytes, p) <==>
            Chunks(bytes, o.EdenShape().Count(), o.width)[Origin(o.EdenShape(), targets, p)]
            == Chunks(bytes, o.EdenShape().Count(), o.width)[Source(o.EdenShape(), to, p)]
  {
    hide MovedBy, Moved, Chunks, Origin, Source, Relay, Operand.EdenShape;
    var s := o.EdenShape();
    MovedByAt(o, targets, bytes, p);
    ChunksOfMoved(s, to, o.width, bytes);
    RelayAt(s, to, Chunks(bytes, s.Count(), o.width), p);
  }

  lemma SameChunks(o: Operand, targets: seq<Order>, to: Order, bytes: seq<int>)
    requires o.Convertible() && |bytes| == o.EdenShape().Count() * o.width
    requires forall p :: 0 <= p < o.EdenShape().Count() ==> SameChunk(o, targets, to, bytes, p)
    ensures MovedBy(o, targets, bytes) == Moved(o.EdenShape(), to, o.width, bytes)
  {
    hide MovedBy, Moved, Chunks, Operand.EdenShape;
    var s := o.EdenShape();
    var x, y := MovedBy(o, targets, bytes), Moved(s, to, o.width, bytes);
    JoinOfChunks(x, s.Count(), o.width);
    JoinOfChunks(y, s.Count(), o.width);
    forall p | 0 <= p < s.Count() ensures Chunks(x, s.Count(), o.width)[p] == Chunks(y, s.Count(), o.width)[p] {
      assert SameChunk(o, targets, to, bytes, p);
    }
    assert Chunks(x, s.Count(), o.width) == Chunks(y, s.Count(), o.width);
  }

  // ----- Where three uses are harmless and two are not

  lemma SquarePositions(s: Shape, e: Element)
    requires s.number == 1 && s.channel == s.height * s.width && s.Has(e)
    ensures Position(NCHW, s, e) == e.c * s.channel + Flat(e.h, e.w, s.width)
    ensures Position(NHWC, s, e) == Flat(e.h, e.w, s.width) * s.channel + e.c
  {
    assert e.n == 0 && Flat(0, e.h, s.height) == e.h;
    PlanePosition(NCHW, s, e);
  }

  /** With one batch and as many channels as places in a plane, the permutation is a square transposition. */
  lemma SquareTransposes(s: Shape, p: nat)
    requires s.number == 1 && s.channel == s.height * s.width && p < s.Count()
    ensures Source(s, NCHW, Source(s, NCHW, p)) == p
  {
    var e := EntryAt(NCHW, s, p);
    var q := Source(s, NCHW, p);
    var k := Flat(e.h, e.w, s.width);
    FlatIncreases(e.h, e.w, s.height, 0, s.width);
    var h, w := FlatSurjective(e.c, s.height, s.width);
    var f := Element(0, k, h, w);
    hide RawPosition, Flat;
    SquarePositions(s, e);
    SquarePositions(s, f);
    PositionInjective(NCHW, s, f, EntryAt(NCHW, s, q));
  }

  lemma ThreeOrigin(s: Shape, p: nat)
    requires p < s.Count()
    ensures Origin(s, [NCHW, NCHW, NCHW], p) == Source(s, NCHW, Source(s, NCHW, Source(s, NCHW, p)))
  {
    hide Source;
    OriginFirst(s, NCHW, [NCHW, NCHW], p);
    OriginFirst(s, NCHW, [NCHW], p);
    OriginFirst(s, NCHW, [], p);
    assert [NCHW] + [NCHW, NCHW] == [NCHW, NCHW, NCHW] && [NCHW] + [NCHW] == [NCHW, NCHW];
    assert [NCHW] + [] == [NCHW];
  }

  lemma OriginFirst(s: Shape, first: Order, more: seq<Order>, p: nat)
    requires p < s.Count()
    ensures Origin(s, [first] + more, p) == Source(s, first, Origin(s, more, p))
    ensures Origin(s, [], p) == p
  {
    assert ([first] + more)[1..] == more;
  }

  lemma ThreeUsesOfSquare(o: Operand)
    requires o.Convertible() && o.width > 0
    requires o.EdenShape().number == 1 && o.EdenShape().channel == o.EdenShape().height * o.EdenShape().width
    ensures Harmless(o, [NCHW, NCHW, NCHW], NCHW)
  {
    hide Operand.EdenShape, Source, Origin, Harmless;
    var s := o.EdenShape();
    forall p | 0 <= p < s.Count() ensures Origin(s, [NCHW, NCHW, NCHW], p) == Source(s, NCHW, p) {
      SquareTransposes(s, Source(s, NCHW, p));
      SquareTransposes(s, p);
      ThreeOrigin(s, p);
    }
    HarmlessIff(o, [NCHW, NCHW, NCHW], NCHW);
  }
}
