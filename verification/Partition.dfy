/** ModelConverter: dividing the operations of a model into runs for one device each, and the slots of
    the converted model that `convert` fills from those runs. */
module Partition {

  datatype Device = NPU | GPU

  datatype Operation = Operation(inputs: seq<nat>, outputs: seq<nat>)

  /** NNSubOperationList */
  datatype Group = Group(device: Device, operations: seq<nat>, inputs: set<nat>, outputs: set<nat>)

  function Range(lo: nat, hi: nat): (r: seq<nat>)
    requires lo <= hi
    ensures |r| == hi - lo && forall i :: 0 <= i < |r| ==> r[i] == lo + i
  {
    seq(hi - lo, i => lo + i)
  }

  function DeviceFor(supported: bool): Device { if supported then NPU else GPU }

  /** The group of operations lo .. hi - 1. */
  ghost function GroupOf(model: seq<Operation>, supported: seq<bool>, lo: nat, hi: nat): Group
    requires lo < hi <= |supported| == |model|
  {
    Group(DeviceFor(supported[lo]), Range(lo, hi),
          set i, x | lo <= i < hi && x in model[i].inputs :: x,
          set i, x | lo <= i < hi && x in model[i].outputs :: x)
  }

  /** hi is the end of the longest run of equal flags that starts at lo. */
  ghost predicate RunEnd(supported: seq<bool>, lo: nat, hi: nat) {
    && lo < hi <= |supported|
    && (forall i :: lo <= i < hi ==> supported[i] == supported[lo])
    && (hi < |supported| ==> supported[hi] != supported[lo])
  }

  /** The groups cover operations lo .. end - 1 in order, one device each, and none could be longer. */
  ghost predicate Runs(groups: seq<Group>, model: seq<Operation>, supported: seq<bool>, lo: nat, end: nat)
    requires |model| == |supported|
    decreases |groups|
  {
    if groups == [] then lo == end
    else
      var hi := lo + |groups[0].operations|;
      && RunEnd(supported, lo, hi)
      && groups[0].device == DeviceFor(supported[lo]) && groups[0].operations == Range(lo, hi)
      && groups[0] == GroupOf(model, supported, lo, hi)
      && Runs(groups[1..], model, supported, hi, end)
  }

  lemma {:induction false} AppendRun(groups: seq<Group>, model: seq<Operation>, supported: seq<bool>, lo: nat,
                                     end: nat, hi: nat)
    requires |model| == |supported| && RunEnd(supported, end, hi)
    requires Runs(groups, model, supported, lo, end)
    ensures Runs(groups + [GroupOf(model, supported, end, hi)], model, supported, lo, hi)
    decreases |groups|
  {
    var last := [GroupOf(model, supported, end, hi)];
    if groups == [] {
      assert groups + last == last && last[1..] == [];
    } else {
      assert (groups + last)[1..] == groups[1..] + last;
      AppendRun(groups[1..], model, supported, lo + |groups[0].operations|, end, hi);
    }
  }

  class ModelInfo {
    var vecOpGroup: seq<Group>

    constructor ()
      ensures vecOpGroup == []
    {
      vecOpGroup := [];
    }

    method BuildOpGroup(model: seq<Operation>, offset: nat, supported: seq<bool>) returns (next: nat)
      requires offset < |supported| == |model|
      modifies this
      ensures RunEnd(supported, offset, next)
      ensures vecOpGroup == old(vecOpGroup) + [GroupOf(model, supported, offset, next)]
    {
      var targetFlag := supported[offset];
      var group := Group(DeviceFor(targetFlag), [], {}, {});
      next := offset;
      while next < |supported|
        invariant offset <= next <= |supported|
        invariant forall i :: offset <= i < next ==> supported[i] == targetFlag
        invariant group.device == DeviceFor(targetFlag) && group.operations == Range(offset, next)
        invariant group.inputs == set i, x | offset <= i < next && x in model[i].inputs :: x
        invariant group.outputs == set i, x | offset <= i < next && x in model[i].outputs :: x
      {
        if supported[next] == targetFlag {
          group := Group(group.device, group.operations + [next],
                         group.inputs + (set x | x in model[next].inputs),
                         group.outputs + (set x | x in model[next].outputs));
        } else {
          break;
        }
        next := next + 1;
      }
      ghost var expected := GroupOf(model, supported, offset, next);
      assert group.inputs == expected.inputs && group.outputs == expected.outputs;
      vecOpGroup := vecOpGroup + [group];
    }

    /** `byOperation` is what supportedByNPU answers for each operation, `wholeModel` what the compiler
        answers for the model. */
    method DivideOperationList(model: seq<Operation>, wholeModel: bool, byOperation: seq<bool>)
      returns (ghost supported: seq<bool>)
      requires |byOperation| == |model| && vecOpGroup == []
      modifies this
      ensures supported == seq(|model|, i requires 0 <= i < |model| => wholeModel && byOperation[i])
      ensures Runs(vecOpGroup, model, supported, 0, |supported|)
    {
      var vecSupportedByNpu := seq(|model|, i => false);
      for idx := 0 to |model|
        invariant |vecSupportedByNpu| == |model| && vecOpGroup == []
        invariant forall i :: 0 <= i < |model| ==> vecSupportedByNpu[i] == (i < idx && wholeModel && byOperation[i])
      {
        if wholeModel && byOperation[idx] {
          vecSupportedByNpu := vecSupportedByNpu[idx := true];
        }
      }
      supported := vecSupportedByNpu;
      var idx := 0;
      while idx < |vecSupportedByNpu|
        invariant idx <= |supported|
        invariant Runs(vecOpGroup, model, supported, 0, idx)
      {
        ghost var groups := vecOpGroup;
        ghost var start := idx;
        idx := BuildOpGroup(model, idx, vecSupportedByNpu);
        AppendRun(groups, model, supported, 0, start, idx);
      }
    }

    method GetOperationsExceptNpu() returns (operations: seq<nat>)
      ensures operations == ExceptNpu(vecOpGroup)
    {
      operations := [];
      for k := 0 to |vecOpGroup|
        invariant operations + ExceptNpu(vecOpGroup[k..]) == ExceptNpu(vecOpGroup)
      {
        if vecOpGroup[k].device != NPU {
          operations := operations + vecOpGroup[k].operations;
        }
        assert vecOpGroup[k..][1..] == vecOpGroup[k + 1..];
      }
    }

    method GetNumOfOperationForNpu() returns (count: nat)
      ensures count == NpuCount(vecOpGroup)
    {
      count := 0;
      for k := 0 to |vecOpGroup|
        invariant count + NpuCount(vecOpGroup[k..]) == NpuCount(vecOpGroup)
      {
        if vecOpGroup[k].device == NPU {
          count := count + |vecOpGroup[k].operations|;
        }
        assert vecOpGroup[k..][1..] == vecOpGroup[k + 1..];
      }
    }

    /** The slot accounting of convert.  `status` is what createEdenOperation answers for an operation,
        0 for success; `slots` is what was put into the capacity operations, in order. */
    method Convert(model: seq<Operation>, wholeModel: bool, byOperation: seq<bool>, status: seq<int>)
      returns (result: int, capacity: nat, slots: seq<Slot>, ghost supported: seq<bool>)
      requires |byOperation| == |model| == |status| && vecOpGroup == []
      modifies this
      ensures supported == seq(|model|, i requires 0 <= i < |model| => wholeModel && byOperation[i])
      ensures Runs(vecOpGroup, model, supported, 0, |supported|)
      ensures capacity == |model| && |slots| <= capacity
      ensures result == 0 ==> slots == SlotsOf(vecOpGroup)
      ensures result != 0 ==> Stopped(result, slots, SlotsOf(vecOpGroup), status)
      ensures Created(slots, status)
      ensures result == 0 <==> Created(SlotsOf(vecOpGroup), status)
    {
      supported := DivideOperationList(model, wholeModel, byOperation);
      var others := GetOperationsExceptNpu();
      var npu := GetNumOfOperationForNpu();
      capacity := |others| + npu;
      CountsAddUp(vecOpGroup, model, supported, 0);
      SlotsFit(vecOpGroup, model, supported, 0);
      forall g | 0 <= g < |vecOpGroup|
        ensures OperationsBelow(vecOpGroup[g], |model|)
      {
        OperationsInModel(vecOpGroup, model, supported, 0, g);
      }
      result, slots := FillSlots(vecOpGroup, status);
    }
  }

  predicate OperationsBelow(group: Group, n: nat) {
    forall k :: 0 <= k < |group.operations| ==> group.operations[k] < n
  }

  /** Every operation that has a slot of its own could be created. */
  predicate Created(slots: seq<Slot>, status: seq<int>) {
    forall i :: 0 <= i < |slots| && slots[i].Single? ==>
      slots[i].operation < |status| && status[slots[i].operation] == 0
  }

  /** The slots are those planned before the first operation that cannot be created, with the result it gave. */
  predicate Stopped(result: int, slots: seq<Slot>, planned: seq<Slot>, status: seq<int>) {
    && slots < planned
    && planned[|slots|].Single? && planned[|slots|].operation < |status|
    && result == status[planned[|slots|].operation]
  }

  /** The loop over the groups: one slot for an NPU group, one for each operation of another. */
  method FillSlots(groups: seq<Group>, status: seq<int>) returns (result: int, slots: seq<Slot>)
    requires forall g :: 0 <= g < |groups| ==> OperationsBelow(groups[g], |status|)
    ensures result == 0 ==> slots == SlotsOf(groups)
    ensures result != 0 ==> Stopped(result, slots, SlotsOf(groups), status)
    ensures Created(slots, status)
    ensures result == 0 <==> Created(SlotsOf(groups), status)
  {
    hide SlotsOf, Singles, FirstSlots;
    slots := [];
    for g := 0 to |groups|
      invariant slots + SlotsOf(groups[g..]) == SlotsOf(groups)
      invariant Created(slots, status)
    {
      var group := groups[g];
      SlotsFrom(groups, g);
      FirstSlotsCases(group);
      if group.device == NPU {
        slots := slots + [Custom(group.operations)];
      } else {
        var failure, after := CreateOperations(group.operations, status, slots);
        if failure != 0 {
          StoppedAt(slots, group.operations, SlotsOf(groups[g + 1..]), |after| - |slots|);
          return failure, after;
        }
        slots := after;
      }
    }
    NoSlots();
    assert groups[|groups|..] == [];
    result := 0;
  }

  lemma FirstSlotsCases(group: Group)
    ensures group.device == NPU ==> FirstSlots(group) == [Custom(group.operations)]
    ensures group.device != NPU ==> FirstSlots(group) == Singles(group.operations)
  {}

  lemma NoSlots()
    ensures SlotsOf([]) == []
  {}

  /** The inner loop of convert: one slot per operation until createEdenOperation fails. */
  method CreateOperations(operations: seq<nat>, status: seq<int>, slots: seq<Slot>)
    returns (result: int, after: seq<Slot>)
    requires forall k :: 0 <= k < |operations| ==> operations[k] < |status|
    requires Created(slots, status)
    ensures Created(after, status)
    ensures result == 0 ==> after == slots + Singles(operations)
    ensures result != 0 ==>
              && |slots| <= |after| < |slots| + |operations|
              && after == slots + Singles(operations[..|after| - |slots|])
              && result == status[operations[|after| - |slots|]]
  {
    after := slots;
    for k := 0 to |operations|
      invariant after == slots + Singles(operations[..k]) && Created(after, status)
    {
      if status[operations[k]] != 0 {
        return status[operations[k]], after;
      }
      after := after + [Single(operations[k])];
    }
    assert operations[..|operations|] == operations;
    result := 0;
  }

  lemma StoppedAt(before: seq<Slot>, operations: seq<nat>, rest: seq<Slot>, k: nat)
    requires k < |operations|
    ensures before + Singles(operations[..k]) <= before + (Singles(operations) + rest)
    ensures (before + (Singles(operations) + rest))[|before| + k] == Single(operations[k])
  {}

  lemma SlotsFrom(groups: seq<Group>, g: nat)
    requires g < |groups|
    ensures SlotsOf(groups[g..]) == FirstSlots(groups[g]) + SlotsOf(groups[g + 1..])
  {
    assert groups[g..][1..] == groups[g + 1..];
  }

  /** What one slot of the converted model stands for. */
  datatype Slot = Custom(operations: seq<nat>) | Single(operation: nat)

  function ExceptNpu(groups: seq<Group>): seq<nat> {
    if groups == [] then []
    else (if groups[0].device != NPU then groups[0].operations else []) + ExceptNpu(groups[1..])
  }

  function NpuCount(groups: seq<Group>): nat {
    if groups == [] then 0
    else (if groups[0].device == NPU then |groups[0].operations| else 0) + NpuCount(groups[1..])
  }

  function Singles(operations: seq<nat>): (slots: seq<Slot>)
    ensures |slots| == |operations|
  {
    seq(|operations|, k requires 0 <= k < |operations| => Single(operations[k]))
  }

  function FirstSlots(group: Group): seq<Slot> {
    if group.device == NPU then [Custom(group.operations)] else Singles(group.operations)
  }

  function SlotsOf(groups: seq<Group>): seq<Slot> {
    if groups == [] then [] else FirstSlots(groups[0]) + SlotsOf(groups[1..])
  }

  // ----- Properties of the division

  lemma {:induction false} OperationsInModel(groups: seq<Group>, model: seq<Operation>, supported: seq<bool>, lo: nat,
                                             g: nat)
    requires |model| == |supported| && Runs(groups, model, supported, lo, |supported|) && g < |groups|
    ensures forall k :: 0 <= k < |groups[g].operations| ==> lo <= groups[g].operations[k] < |model|
    decreases |groups|
  {
    hide GroupOf;
    if g > 0 {
      OperationsInModel(groups[1..], model, supported, lo + |groups[0].operations|, g - 1);
    }
  }

  /** The operands of a group are those of its operations, the inputs read and the outputs written. */
  lemma {:induction false} GroupOperands(groups: seq<Group>, model: seq<Operation>, supported: seq<bool>, lo: nat,
                                         g: nat, x: nat)
    requires |model| == |supported| && Runs(groups, model, supported, lo, |supported|) && g < |groups|
    ensures forall k :: 0 <= k < |groups[g].operations| ==> groups[g].operations[k] < |model|
    ensures x in groups[g].inputs <==> exists op :: op in groups[g].operations && x in model[op].inputs
    ensures x in groups[g].outputs <==> exists op :: op in groups[g].operations && x in model[op].outputs
    decreases |groups|
  {
    OperationsInModel(groups, model, supported, lo, g);
    if g > 0 {
      hide GroupOf;
      GroupOperands(groups[1..], model, supported, lo + |groups[0].operations|, g - 1, x);
    } else {
      var hi := lo + |groups[0].operations|;
      assert groups[0].operations == Range(lo, hi);
      RangeHas(lo, hi);
    }
  }

  lemma RangeHas(lo: nat, hi: nat)
    requires lo <= hi
    ensures forall i: nat :: i in Range(lo, hi) <==> lo <= i < hi
  {
    forall i: nat | lo <= i < hi ensures i in Range(lo, hi) {
      assert Range(lo, hi)[i - lo] == i;
    }
  }

  function Concatenated(groups: seq<Group>): seq<nat> {
    if groups == [] then [] else groups[0].operations + Concatenated(groups[1..])
  }

  /** The groups concatenate to the operation indices in order. */
  lemma {:induction false} GroupsConcatenate(groups: seq<Group>, model: seq<Operation>, supported: seq<bool>, lo: nat)
    requires |model| == |supported| && Runs(groups, model, supported, lo, |supported|)
    ensures lo <= |supported| && Concatenated(groups) == Range(lo, |supported|)
    decreases |groups|
  {
    hide GroupOf;
    if groups != [] {
      var hi := lo + |groups[0].operations|;
      GroupsConcatenate(groups[1..], model, supported, hi);
      RangeConcat(lo, hi, |supported|);
    }
  }

  /** Neighbouring groups alternate between the devices. */
  lemma {:induction false} NeighboursAlternate(groups: seq<Group>, model: seq<Operation>, supported: seq<bool>,
                                               lo: nat, g: nat)
    requires |model| == |supported| && Runs(groups, model, supported, lo, |supported|) && g + 1 < |groups|
    ensures groups[g].device != groups[g + 1].device
    decreases |groups|
  {
    hide GroupOf;
    if g > 0 {
      NeighboursAlternate(groups[1..], model, supported, lo + |groups[0].operations|, g - 1);
    } else {
      assert groups[1..][0] == groups[1];
    }
  }

  lemma RunEndUnique(supported: seq<bool>, lo: nat, x: nat, y: nat)
    requires RunEnd(supported, lo, x) && RunEnd(supported, lo, y)
    ensures x == y
  {}

  /** There is only one such division. */
  lemma {:induction false} DivisionUnique(a: seq<Group>, b: seq<Group>, model: seq<Operation>, supported: seq<bool>,
                                          lo: nat)
    requires |model| == |supported|
    requires Runs(a, model, supported, lo, |supported|) && Runs(b, model, supported, lo, |supported|)
    ensures a == b
    decreases |a|
  {
    if a != [] && b != [] {
      var x, y := lo + |a[0].operations|, lo + |b[0].operations|;
      RunEndUnique(supported, lo, x, y);
      DivisionUnique(a[1..], b[1..], model, supported, x);
      assert a == [a[0]] + a[1..] && b == [b[0]] + b[1..];
    }
  }

  /** The operations kept for the other devices are the unsupported ones, in order. */
  function Unsupported(supported: seq<bool>, lo: nat): seq<nat>
    decreases |supported| - lo
  {
    if lo >= |supported| then [] else (if supported[lo] then [] else [lo]) + Unsupported(supported, lo + 1)
  }

  lemma {:induction false} SupportedRun(supported: seq<bool>, lo: nat, hi: nat)
    requires lo <= hi <= |supported| && forall i :: lo <= i < hi ==> supported[i]
    ensures Unsupported(supported, lo) == Unsupported(supported, hi)
    decreases hi - lo
  {
    if lo < hi {
      SupportedRun(supported, lo + 1, hi);
    }
  }

  lemma {:induction false} UnsupportedRun(supported: seq<bool>, lo: nat, hi: nat)
    requires lo <= hi <= |supported| && forall i :: lo <= i < hi ==> !supported[i]
    ensures Unsupported(supported, lo) == Range(lo, hi) + Unsupported(supported, hi)
    decreases hi - lo
  {
    if lo < hi {
      UnsupportedRun(supported, lo + 1, hi);
      assert [lo] + Range(lo + 1, hi) == Range(lo, hi);
      assert [lo] + (Range(lo + 1, hi) + Unsupported(supported, hi))
          == ([lo] + Range(lo + 1, hi)) + Unsupported(supported, hi);
    }
  }

  /** The two collectors are complementary, and together they count every operation once. */
  lemma {:induction false} CountsAddUp(groups: seq<Group>, model: seq<Operation>, supported: seq<bool>, lo: nat)
    requires |model| == |supported| && Runs(groups, model, supported, lo, |supported|)
    ensures ExceptNpu(groups) == Unsupported(supported, lo)
    ensures |ExceptNpu(groups)| + NpuCount(groups) == |supported| - lo
    decreases |groups|
  {
    hide GroupOf;
    if groups != [] {
      var hi := lo + |groups[0].operations|;
      CountsAddUp(groups[1..], model, supported, hi);
      if supported[lo] { SupportedRun(supported, lo, hi); } else { UnsupportedRun(supported, lo, hi); }
    }
  }

  // ----- Properties of the slots

  /** The operations a list of slots executes. */
  function Expand(slots: seq<Slot>): seq<nat> {
    if slots == [] then []
    else (if slots[0].Custom? then slots[0].operations else [slots[0].operation]) + Expand(slots[1..])
  }

  lemma {:induction false} ExpandConcat(a: seq<Slot>, b: seq<Slot>)
    ensures Expand(a + b) == Expand(a) + Expand(b)
    decreases |a|
  {
    if a == [] {
      assert a + b == b;
    } else {
      assert (a + b)[1..] == a[1..] + b && (a + b)[0] == a[0];
      ExpandConcat(a[1..], b);
      var first := if a[0].Custom? then a[0].operations else [a[0].operation];
      assert first + (Expand(a[1..]) + Expand(b)) == (first + Expand(a[1..])) + Expand(b);
    }
  }

  lemma {:induction false} ExpandSingles(operations: seq<nat>)
    ensures Expand(Singles(operations)) == operations
  {
    if operations != [] {
      ExpandSingles(operations[1..]);
      assert Singles(operations)[1..] == Singles(operations[1..]);
    }
  }

  /** The converted model runs every operation of the original exactly once, in the original order. */
  lemma {:induction false} SlotsRunEveryOperation(groups: seq<Group>, model: seq<Operation>, supported: seq<bool>,
                                                  lo: nat)
    requires |model| == |supported| && Runs(groups, model, supported, lo, |supported|)
    ensures lo <= |supported| && Expand(SlotsOf(groups)) == Range(lo, |supported|)
    decreases |groups|
  {
    hide GroupOf;
    if groups != [] {
      var hi := lo + |groups[0].operations|;
      SlotsRunEveryOperation(groups[1..], model, supported, hi);
      FirstGroupExpands(groups[0]);
      ExpandConcat(FirstSlots(groups[0]), SlotsOf(groups[1..]));
      RangeConcat(lo, hi, |supported|);
    }
  }

  lemma FirstGroupExpands(group: Group)
    ensures Expand(FirstSlots(group)) == group.operations
  {
    ExpandSingles(group.operations);
    assert [Custom(group.operations)][1..] == [];
  }

  lemma RangeConcat(lo: nat, hi: nat, end: nat)
    requires lo <= hi <= end
    ensures Range(lo, hi) + Range(hi, end) == Range(lo, end)
  {}

  /** No two neighbouring operations are both supported by the NPU. */
  predicate NpuIsolated(supported: seq<bool>, lo: nat) {
    forall i :: lo <= i && i + 1 < |supported| ==> !(supported[i] && supported[i + 1])
  }

  /** The slots never outgrow the allocation; they use all of it exactly when no NPU group was merged. */
  lemma {:induction false} SlotsFit(groups: seq<Group>, model: seq<Operation>, supported: seq<bool>, lo: nat)
    requires |model| == |supported| && Runs(groups, model, supported, lo, |supported|)
    ensures |SlotsOf(groups)| <= |supported| - lo
    ensures |SlotsOf(groups)| == |supported| - lo <==> NpuIsolated(supported, lo)
    decreases |groups|
  {
    hide GroupOf;
    if groups != [] {
      var hi := lo + |groups[0].operations|;
      SlotsFit(groups[1..], model, supported, hi);
      if groups[0].device == NPU && hi > lo + 1 {
        assert supported[lo] && supported[lo + 1];
      }
    }
  }
}
