/** NNNetworkBuilder::getInputs and getConsumers: the two ends from which the network of layers is read. */
module NetworkGraph {

  /** A layer is named after its operation type and index, a model input after its operand. */
  datatype Name = Layer(kind: int, index: nat) | Data(operand: nat)

  datatype Operation = Operation(kind: int, inputs: seq<nat>, outputs: seq<nat>)

  /** `ranked` holds the operands of known rank. */
  datatype Model = Model(operations: seq<Operation>, inputIndexes: seq<nat>, ranked: set<nat>) {
    function LayerOf(i: nat): Name
      requires i < |operations|
    {
      Layer(operations[i].kind, i)
    }
  }

  // ----- getInputs

  /** `name` once for every element equal to the operand. */
  function Copies(operands: seq<nat>, operand: nat, name: Name): seq<Name> {
    if operands == [] then []
    else (if operands[0] == operand then [name] else []) + Copies(operands[1..], operand, name)
  }

  /** The layers from operation i on that output the operand, once for each time they do. */
  function Producers(m: Model, operand: nat, i: nat): seq<Name>
    decreases |m.operations| - i
  {
    if i >= |m.operations| then []
    else Copies(m.operations[i].outputs, operand, m.LayerOf(i)) + Producers(m, operand, i + 1)
  }

  /** What one input of operation y contributes. */
  function InputNames(m: Model, y: nat, operand: nat): seq<Name> {
    if operand !in m.ranked then []
    else if y == 0 || operand in m.inputIndexes then [Data(operand)]
    else Producers(m, operand, 0)
  }

  function Inputs(m: Model, y: nat, operands: seq<nat>): seq<Name> {
    if operands == [] then [] else InputNames(m, y, operands[0]) + Inputs(m, y, operands[1..])
  }

  lemma {:induction false} InputsAppend(m: Model, y: nat, operands: seq<nat>, operand: nat)
    ensures Inputs(m, y, operands + [operand]) == Inputs(m, y, operands) + InputNames(m, y, operand)
    decreases |operands|
  {
    hide InputNames;
    if operands == [] {
      assert operands + [operand] == [operand] && [operand][1..] == [];
    } else {
      assert (operands + [operand])[1..] == operands[1..] + [operand];
      InputsAppend(m, y, operands[1..], operand);
    }
  }

  lemma CopiesFrom(operands: seq<nat>, k: nat, operand: nat, name: Name)
    requires k < |operands|
    ensures Copies(operands[k..], operand, name) ==
            (if operands[k] == operand then [name] else []) + Copies(operands[k + 1..], operand, name)
  {
    assert operands[k..][1..] == operands[k + 1..];
  }

  method GetProducers(m: Model, operand: nat, names: seq<Name>) returns (result: seq<Name>)
    ensures result == names + Producers(m, operand, 0)
  {
    result := names;
    for i := 0 to |m.operations|
      invariant result + Producers(m, operand, i) == names + Producers(m, operand, 0)
    {
      var outputs := m.operations[i].outputs;
      ghost var before := result;
      for l := 0 to |outputs|
        invariant result + Copies(outputs[l..], operand, m.LayerOf(i))
               == before + Copies(outputs, operand, m.LayerOf(i))
      {
        CopiesFrom(outputs, l, operand, m.LayerOf(i));
        if outputs[l] == operand {
          result := result + [m.LayerOf(i)];
        }
      }
      assert before + (Copies(outputs, operand, m.LayerOf(i)) + Producers(m, operand, i + 1))
          == (before + Copies(outputs, operand, m.LayerOf(i))) + Producers(m, operand, i + 1);
    }
  }

  lemma NoInputs(m: Model, y: nat)
    ensures Inputs(m, y, []) == []
  {}

  method GetInputs(m: Model, y: nat, numOfInput: nat) returns (names: seq<Name>)
    requires y < |m.operations| && numOfInput <= |m.operations[y].inputs|
    ensures names == Inputs(m, y, m.operations[y].inputs[..numOfInput])
  {
    hide Inputs, Producers;
    names := [];
    var inputs := m.operations[y].inputs;
    NoInputs(m, y);
    for idx := 0 to numOfInput
      invariant names == Inputs(m, y, inputs[..idx])
    {
      assert inputs[..idx + 1] == inputs[..idx] + [inputs[idx]];
      InputsAppend(m, y, inputs[..idx], inputs[idx]);
      if inputs[idx] !in m.ranked { continue; }
      if y > 0 {
        var doneInputSetting := false;
        for k := 0 to |m.inputIndexes|
          invariant !doneInputSetting && inputs[idx] !in m.inputIndexes[..k]
        {
          if m.inputIndexes[k] == inputs[idx] {
            names := names + [Data(inputs[idx])];
            doneInputSetting := true;
            break;
          }
        }
        if !doneInputSetting {
          names := GetProducers(m, inputs[idx], names);
        }
      } else {
        names := names + [Data(inputs[idx])];
      }
    }
  }

  // ----- getConsumers

  /** The layers from operation i on that read the operand. */
  function Readers(m: Model, operand: nat, i: nat): seq<Name>
    decreases |m.operations| - i
  {
    if i >= |m.operations| then []
    else Copies(m.operations[i].inputs, operand, m.LayerOf(i)) + Readers(m, operand, i + 1)
  }

  function Consumers(m: Model, outputs: seq<nat>): seq<Name> {
    if outputs == [] then [] else Readers(m, outputs[0], 0) + Consumers(m, outputs[1..])
  }

  lemma {:induction false} ConsumersAppend(m: Model, outputs: seq<nat>, operand: nat)
    ensures Consumers(m, outputs + [operand]) == Consumers(m, outputs) + Readers(m, operand, 0)
    decreases |outputs|
  {
    hide Readers;
    if outputs == [] {
      assert outputs + [operand] == [operand] && [operand][1..] == [];
    } else {
      assert (outputs + [operand])[1..] == outputs[1..] + [operand];
      ConsumersAppend(m, outputs[1..], operand);
    }
  }

  method GetReaders(m: Model, operand: nat, names: seq<Name>) returns (result: seq<Name>)
    ensures result == names + Readers(m, operand, 0)
  {
    result := names;
    for i := 0 to |m.operations|
      invariant result + Readers(m, operand, i) == names + Readers(m, operand, 0)
    {
      var inputs := m.operations[i].inputs;
      ghost var before := result;
      for k := 0 to |inputs|
        invariant result + Copies(inputs[k..], operand, m.LayerOf(i)) == before + Copies(inputs, operand, m.LayerOf(i))
      {
        CopiesFrom(inputs, k, operand, m.LayerOf(i));
        if inputs[k] == operand {
          result := result + [m.LayerOf(i)];
        }
      }
      assert before + (Copies(inputs, operand, m.LayerOf(i)) + Readers(m, operand, i + 1))
          == (before + Copies(inputs, operand, m.LayerOf(i))) + Readers(m, operand, i + 1);
    }
  }

  lemma NoConsumers(m: Model)
    ensures Consumers(m, []) == []
  {}

  method GetConsumers(m: Model, x: nat) returns (names: seq<Name>)
    requires x < |m.operations|
    ensures names == Consumers(m, m.operations[x].outputs)
  {
    hide Readers, Consumers;
    names := [];
    var outputs := m.operations[x].outputs;
    NoConsumers(m);
    for l := 0 to |outputs|
      invariant names == Consumers(m, outputs[..l])
    {
      names := GetReaders(m, outputs[l], names);
      ConsumersAppend(m, outputs[..l], outputs[l]);
      assert outputs[..l + 1] == outputs[..l] + [outputs[l]];
    }
    assert outputs[..|outputs|] == outputs;
  }

  // ----- The graph seen from either end

  function Occurrences<T(==)>(s: seq<T>, x: T): nat {
    if s == [] then 0 else (if s[0] == x then 1 else 0) + Occurrences(s[1..], x)
  }

  lemma {:induction false} OccurrencesConcat<T>(a: seq<T>, b: seq<T>, x: T)
    ensures Occurrences(a + b, x) == Occurrences(a, x) + Occurrences(b, x)
    decreases |a|
  {
    if a == [] {
      assert a + b == b;
    } else {
      assert (a + b)[1..] == a[1..] + b;
      OccurrencesConcat(a[1..], b, x);
    }
  }

  lemma {:induction false} OccurrencesZero<T>(s: seq<T>, x: T)
    ensures Occurrences(s, x) == 0 <==> x !in s
  {
    if s != [] {
      OccurrencesZero(s[1..], x);
      assert s == [s[0]] + s[1..];
    }
  }

  lemma {:induction false} CopiesCount(operands: seq<nat>, operand: nat, name: Name, x: Name)
    ensures Occurrences(Copies(operands, operand, name), x) == if name == x then Occurrences(operands, operand) else 0
  {
    if operands != [] {
      var first := if operands[0] == operand then [name] else [];
      CopiesCount(operands[1..], operand, name, x);
      OccurrencesConcat(first, Copies(operands[1..], operand, name), x);
      assert [name][1..] == [];
    }
  }

  lemma {:induction false} ProducersCount(m: Model, operand: nat, i: nat, x: nat)
    requires x < |m.operations|
    ensures Occurrences(Producers(m, operand, i), m.LayerOf(x)) ==
            if i <= x then Occurrences(m.operations[x].outputs, operand) else 0
    decreases |m.operations| - i
  {
    if i < |m.operations| {
      var copies := Copies(m.operations[i].outputs, operand, m.LayerOf(i));
      ProducersCount(m, operand, i + 1, x);
      CopiesCount(m.operations[i].outputs, operand, m.LayerOf(i), m.LayerOf(x));
      OccurrencesConcat(copies, Producers(m, operand, i + 1), m.LayerOf(x));
    }
  }

  lemma {:induction false} ReadersCount(m: Model, operand: nat, i: nat, y: nat)
    requires y < |m.operations|
    ensures Occurrences(Readers(m, operand, i), m.LayerOf(y)) ==
            if i <= y then Occurrences(m.operations[y].inputs, operand) else 0
    decreases |m.operations| - i
  {
    if i < |m.operations| {
      var copies := Copies(m.operations[i].inputs, operand, m.LayerOf(i));
      ReadersCount(m, operand, i + 1, y);
      CopiesCount(m.operations[i].inputs, operand, m.LayerOf(i), m.LayerOf(y));
      OccurrencesConcat(copies, Readers(m, operand, i + 1), m.LayerOf(y));
    }
  }

  /** Pairs of equal elements. */
  function Matches(a: seq<nat>, b: seq<nat>): nat {
    if a == [] then 0 else Occurrences(b, a[0]) + Matches(a[1..], b)
  }

  lemma {:induction false} MatchesCons(a: seq<nat>, b: seq<nat>)
    requires b != []
    ensures Matches(a, b) == Occurrences(a, b[0]) + Matches(a, b[1..])
    decreases |a|
  {
    if a != [] {
      MatchesCons(a[1..], b);
    }
  }

  lemma {:induction false} MatchesEmpty(a: seq<nat>)
    ensures Matches(a, []) == 0
  {
    if a != [] {
      MatchesEmpty(a[1..]);
    }
  }

  /** Counting by rows or by columns gives the same. */
  lemma {:induction false} MatchesSymmetric(a: seq<nat>, b: seq<nat>)
    ensures Matches(a, b) == Matches(b, a)
    decreases |b|
  {
    if b == [] {
      MatchesEmpty(a);
    } else {
      MatchesCons(a, b);
      MatchesSymmetric(a, b[1..]);
    }
  }

  lemma {:induction false} ConsumersCount(m: Model, outputs: seq<nat>, y: nat)
    requires y < |m.operations|
    ensures Occurrences(Consumers(m, outputs), m.LayerOf(y)) == Matches(outputs, m.operations[y].inputs)
    decreases |outputs|
  {
    if outputs != [] {
      ReadersCount(m, outputs[0], 0, y);
      ConsumersCount(m, outputs[1..], y);
      OccurrencesConcat(Readers(m, outputs[0], 0), Consumers(m, outputs[1..]), m.LayerOf(y));
    }
  }

  /** getInputs looks the producer of this operand up. */
  predicate LookedUp(m: Model, y: nat, operand: nat) {
    operand in m.ranked && y != 0 && operand !in m.inputIndexes
  }

  lemma InputNamesCount(m: Model, y: nat, operand: nat, x: nat)
    requires x < |m.operations|
    ensures Occurrences(InputNames(m, y, operand), m.LayerOf(x)) ==
            if LookedUp(m, y, operand) then Occurrences(m.operations[x].outputs, operand) else 0
  {
    ProducersCount(m, operand, 0, x);
    OneData(operand, m.LayerOf(x));
  }

  /** Every occurrence among the inputs is a match, and no match is missed exactly when all are looked up. */
  lemma {:induction false} InputsCount(m: Model, y: nat, operands: seq<nat>, x: nat)
    requires x < |m.operations|
    ensures Occurrences(Inputs(m, y, operands), m.LayerOf(x)) <= Matches(operands, m.operations[x].outputs)
    ensures Occurrences(Inputs(m, y, operands), m.LayerOf(x)) == Matches(operands, m.operations[x].outputs) <==>
            forall j :: 0 <= j < |operands| && operands[j] in m.operations[x].outputs ==> LookedUp(m, y, operands[j])
    decreases |operands|
  {
    hide InputNames, LookedUp;
    if operands != [] {
      InputsCount(m, y, operands[1..], x);
      InputNamesCount(m, y, operands[0], x);
      OccurrencesConcat(InputNames(m, y, operands[0]), Inputs(m, y, operands[1..]), m.LayerOf(x));
      OccurrencesZero(m.operations[x].outputs, operands[0]);
      assert operands == [operands[0]] + operands[1..];
    }
  }

  lemma OneData(operand: nat, x: Name)
    requires x.Layer?
    ensures Occurrences([Data(operand)], x) == 0
  {}

  lemma {:induction false} MatchesConcat(a: seq<nat>, b: seq<nat>, c: seq<nat>)
    ensures Matches(a + b, c) == Matches(a, c) + Matches(b, c)
    decreases |a|
  {
    if a == [] {
      assert a + b == b;
    } else {
      assert (a + b)[1..] == a[1..] + b;
      MatchesConcat(a[1..], b, c);
    }
  }

  lemma {:induction false} MatchesZero(a: seq<nat>, c: seq<nat>)
    ensures Matches(a, c) == 0 <==> forall j :: 0 <= j < |a| ==> a[j] !in c
    decreases |a|
  {
    if a != [] {
      OccurrencesZero(c, a[0]);
      MatchesZero(a[1..], c);
      assert a == [a[0]] + a[1..];
    }
  }

  /** Every input of y that comes from x is among the first k and is looked up. */
  predicate SeenFromBothEnds(m: Model, x: nat, y: nat, k: nat)
    requires x < |m.operations| && y < |m.operations|
  {
    forall j :: 0 <= j < |m.operations[y].inputs| && m.operations[y].inputs[j] in m.operations[x].outputs ==>
      j < k && LookedUp(m, y, m.operations[y].inputs[j])
  }

  lemma SeenSplits(m: Model, x: nat, y: nat, k: nat)
    requires x < |m.operations| && y < |m.operations| && k <= |m.operations[y].inputs|
    ensures SeenFromBothEnds(m, x, y, k) <==>
            var inputs, outputs := m.operations[y].inputs, m.operations[x].outputs;
            && (forall j :: 0 <= j < k && inputs[..k][j] in outputs ==> LookedUp(m, y, inputs[..k][j]))
            && (forall j :: 0 <= j < |inputs| - k ==> inputs[k..][j] !in outputs)
  {
    hide LookedUp;
    var inputs, outputs := m.operations[y].inputs, m.operations[x].outputs;
    assert forall j :: 0 <= j < k ==> inputs[..k][j] == inputs[j];
    if forall j :: 0 <= j < |inputs| - k ==> inputs[k..][j] !in outputs {
      assert forall j :: k <= j < |inputs| ==> inputs[j] == inputs[k..][j - k];
    }
  }

  /** X occurs among the inputs of Y as often as Y among the consumers of X, exactly when no connection
      is hidden by an unknown rank, a model input, the first operation or the input limit. */
  lemma GraphSymmetric(m: Model, x: nat, y: nat, k: nat)
    requires x < |m.operations| && y < |m.operations| && k <= |m.operations[y].inputs|
    ensures Occurrences(Inputs(m, y, m.operations[y].inputs[..k]), m.LayerOf(x))
            == Occurrences(Consumers(m, m.operations[x].outputs), m.LayerOf(y))
            <==> SeenFromBothEnds(m, x, y, k)
  {
    hide Occurrences, Inputs, Consumers, Matches, SeenFromBothEnds, LookedUp;
    var inputs, outputs := m.operations[y].inputs, m.operations[x].outputs;
    assert inputs == inputs[..k] + inputs[k..];
    InputsCount(m, y, inputs[..k], x);
    ConsumersCount(m, outputs, y);
    MatchesSymmetric(outputs, inputs);
    MatchesConcat(inputs[..k], inputs[k..], outputs);
    MatchesZero(inputs[k..], outputs);
    SeenSplits(m, x, y, k);
  }

  // ----- The names in their order

  /** None for an input of unknown rank, the data of the model for the first operation and for a model input, the
      producing layers otherwise. */
  lemma InputNamesMeans(m: Model, y: nat, operand: nat)
    ensures operand !in m.ranked ==> InputNames(m, y, operand) == []
    ensures operand in m.ranked && (y == 0 || operand in m.inputIndexes) ==>
              InputNames(m, y, operand) == [Data(operand)]
    ensures operand in m.ranked && y != 0 && operand !in m.inputIndexes ==>
              InputNames(m, y, operand) == Producers(m, operand, 0)
  {}

  /** Every input contributes its own names, in the order of the inputs. */
  lemma {:induction false} InputsInOrder(m: Model, y: nat, operands: seq<nat>, j: nat)
    requires j < |operands|
    ensures Inputs(m, y, operands) ==
            Inputs(m, y, operands[..j]) + InputNames(m, y, operands[j]) + Inputs(m, y, operands[j + 1..])
    decreases j
  {
    hide InputNames;
    if j == 0 {
      assert operands[..0] == [];
    } else {
      var first, others := InputNames(m, y, operands[0]), operands[1..];
      InputsInOrder(m, y, others, j - 1);
      assert operands[..j][1..] == others[..j - 1] && operands[j + 1..] == others[j..];
      ThreeParts(first, Inputs(m, y, others[..j - 1]), InputNames(m, y, operands[j]), Inputs(m, y, others[j..]));
    }
  }

  lemma ThreeParts(first: seq<Name>, a: seq<Name>, b: seq<Name>, c: seq<Name>)
    ensures first + (a + b + c) == (first + a) + b + c
  {}

  /** The names are layers of the operations from i on, in their order and each with its kind. */
  ghost predicate InOrder(m: Model, names: seq<Name>, i: nat) {
    && (forall k :: 0 <= k < |names| ==>
          && names[k].Layer? && i <= names[k].index < |m.operations|
          && names[k].kind == m.operations[names[k].index].kind)
    && (forall k, l :: 0 <= k < l < |names| ==> names[k].Layer? && names[l].Layer? && names[k].index <= names[l].index)
  }

  lemma {:induction false} CopiesAreName(operands: seq<nat>, operand: nat, name: Name)
    ensures forall k :: 0 <= k < |Copies(operands, operand, name)| ==> Copies(operands, operand, name)[k] == name
  {
    if operands != [] {
      CopiesAreName(operands[1..], operand, name);
    }
  }

  lemma CopiesBefore(m: Model, copies: seq<Name>, more: seq<Name>, i: nat)
    requires i < |m.operations| && InOrder(m, more, i + 1)
    requires forall k :: 0 <= k < |copies| ==> copies[k] == Layer(m.operations[i].kind, i)
    ensures InOrder(m, copies + more, i)
  {}

  lemma {:induction false} ProducersInOrder(m: Model, operand: nat, i: nat)
    ensures InOrder(m, Producers(m, operand, i), i)
    decreases |m.operations| - i
  {
    if i < |m.operations| {
      ProducersInOrder(m, operand, i + 1);
      CopiesAreName(m.operations[i].outputs, operand, m.LayerOf(i));
      CopiesBefore(m, Copies(m.operations[i].outputs, operand, m.LayerOf(i)), Producers(m, operand, i + 1), i);
    }
  }

  lemma {:induction false} ReadersInOrder(m: Model, operand: nat, i: nat)
    ensures InOrder(m, Readers(m, operand, i), i)
    decreases |m.operations| - i
  {
    if i < |m.operations| {
      ReadersInOrder(m, operand, i + 1);
      CopiesAreName(m.operations[i].inputs, operand, m.LayerOf(i));
      CopiesBefore(m, Copies(m.operations[i].inputs, operand, m.LayerOf(i)), Readers(m, operand, i + 1), i);
    }
  }

  /** Every output contributes its readers, in the order of the outputs. */
  lemma {:induction false} ConsumersInOrder(m: Model, outputs: seq<nat>, j: nat)
    requires j < |outputs|
    ensures Consumers(m, outputs) ==
            Consumers(m, outputs[..j]) + Readers(m, outputs[j], 0) + Consumers(m, outputs[j + 1..])
    decreases j
  {
    hide Readers;
    var first, others := Readers(m, outputs[0], 0), outputs[1..];
    if j == 0 {
      assert outputs[..0] == [];
    } else {
      ConsumersInOrder(m, others, j - 1);
      assert outputs[..j][1..] == others[..j - 1] && outputs[j + 1..] == others[j..];
      ThreeParts(first, Consumers(m, others[..j - 1]), Readers(m, outputs[j], 0), Consumers(m, others[j..]));
    }
  }
}
