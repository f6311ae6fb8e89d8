/** The four-deep loops of PrePostProcessor.cpp that move a tensor between the NHWC, NCHW and CNHW
    layouts.  Each walks its input with a running pointer and writes through a computed index; the
    contracts say which element ends up where, the lemmas that this determines the buffer, permutes it
    and is undone by the opposite direction. */
module Layout {

  datatype Shape = Shape(number: nat, channel: nat, height: nat, width: nat) {
    function Count(): nat { number * channel * height * width }

    predicate Has(e: Element) {
      e.n < number && e.c < channel && e.h < height && e.w < width
    }
  }

  /** An entry of the tensor, independent of any layout. */
  datatype Element = Element(n: nat, c: nat, h: nat, w: nat)

  datatype Order = NHWC | NCHW | CNHW

  /** Position of entry b of row a when a row has `width` entries. */
  function Flat(a: nat, b: nat, width: nat): nat { a * width + b }

  function Position(order: Order, s: Shape, e: Element): (p: nat)
    requires s.Has(e)
    ensures p < s.Count()
  {
    PositionBound(order, s, e);
    RawPosition(order, s, e)
  }

  function RawPosition(order: Order, s: Shape, e: Element): nat {
    match order
    case NHWC => Flat(Flat(Flat(e.n, e.h, s.height), e.w, s.width), e.c, s.channel)
    case NCHW => Flat(Flat(Flat(e.n, e.c, s.channel), e.h, s.height), e.w, s.width)
    case CNHW => Flat(Flat(Flat(e.c, e.n, s.number), e.h, s.height), e.w, s.width)
  }

  // ----- Mixed-radix positions

  lemma FlatIncreases(a: nat, b: nat, a': nat, b': nat, width: nat)
    requires a < a' && b < width
    ensures Flat(a, b, width) < Flat(a', b', width)
  {
    assert (a + 1) * width <= a' * width;
  }

  lemma FlatInjective(a: nat, b: nat, a': nat, b': nat, width: nat)
    requires b < width && b' < width && Flat(a, b, width) == Flat(a', b', width)
    ensures a == a' && b == b'
  {
    if a < a' {
      FlatIncreases(a, b, a', b', width);
    } else if a' < a {
      FlatIncreases(a', b', a, b, width);
    }
  }

  lemma FlatSurjective(p: nat, rows: nat, width: nat) returns (a: nat, b: nat)
    requires p < rows * width
    ensures a < rows && b < width && Flat(a, b, width) == p
  {
    assert width != 0 by { assert rows * 0 == 0; }
    a, b := p / width, p % width;
    assert a < rows by {
      if rows <= a { FlatIncreases(rows - 1, width - 1, a, 0, width); }
    }
  }

  lemma FlatCarry(a: nat, width: nat)
    ensures Flat(a, width, width) == Flat(a + 1, 0, width)
  {}

  lemma FlatBound(a: nat, b: nat, c: nat, d: nat, A: nat, B: nat, C: nat, D: nat)
    requires a < A && b < B && c < C && d < D
    ensures Flat(Flat(Flat(a, b, B), c, C), d, D) < A * B * C * D
  {
    FlatIncreases(a, b, A, 0, B);
    FlatIncreases(Flat(a, b, B), c, A * B, 0, C);
    FlatIncreases(Flat(Flat(a, b, B), c, C), d, A * B * C, 0, D);
  }

  lemma CountAnyOrder(s: Shape)
    ensures s.Count() == s.number * s.height * s.width * s.channel
    ensures s.Count() == s.channel * s.number * s.height * s.width
  {
    assert s.number * s.channel * s.height * s.width == (s.number * s.height * s.width) * s.channel;
  }

  lemma PositionBound(order: Order, s: Shape, e: Element)
    requires s.Has(e)
    ensures RawPosition(order, s, e) < s.Count()
  {
    CountAnyOrder(s);
    match order
    case NHWC => FlatBound(e.n, e.h, e.w, e.c, s.number, s.height, s.width, s.channel);
    case NCHW => FlatBound(e.n, e.c, e.h, e.w, s.number, s.channel, s.height, s.width);
    case CNHW => FlatBound(e.c, e.n, e.h, e.w, s.channel, s.number, s.height, s.width);
  }

  lemma ThreeFlatsInjective(a: nat, b: nat, c: nat, d: nat, a': nat, b': nat, c': nat, d': nat, B: nat, C: nat, D: nat)
    requires b < B && c < C && d < D && b' < B && c' < C && d' < D
    requires Flat(Flat(Flat(a, b, B), c, C), d, D) == Flat(Flat(Flat(a', b', B), c', C), d', D)
    ensures a == a' && b == b' && c == c' && d == d'
  {
    FlatInjective(Flat(Flat(a, b, B), c, C), d, Flat(Flat(a', b', B), c', C), d', D);
    FlatInjective(Flat(a, b, B), c, Flat(a', b', B), c', C);
    FlatInjective(a, b, a', b', B);
  }

  /** No two entries share a position. */
  lemma PositionInjective(order: Order, s: Shape, e: Element, f: Element)
    requires s.Has(e) && s.Has(f) && Position(order, s, e) == Position(order, s, f)
    ensures e == f
  {
    match order
    case NHWC => ThreeFlatsInjective(e.n, e.h, e.w, e.c, f.n, f.h, f.w, f.c, s.height, s.width, s.channel);
    case NCHW => ThreeFlatsInjective(e.n, e.c, e.h, e.w, f.n, f.c, f.h, f.w, s.channel, s.height, s.width);
    case CNHW => ThreeFlatsInjective(e.c, e.n, e.h, e.w, f.c, f.n, f.h, f.w, s.number, s.height, s.width);
  }

  lemma ThreeFlatsSurjective(p: nat, A: nat, B: nat, C: nat, D: nat) returns (a: nat, b: nat, c: nat, d: nat)
    requires p < A * B * C * D
    ensures a < A && b < B && c < C && d < D && Flat(Flat(Flat(a, b, B), c, C), d, D) == p
  {
    var abc, ab;
    abc, d := FlatSurjective(p, A * B * C, D);
    ab, c := FlatSurjective(abc, A * B, C);
    a, b := FlatSurjective(ab, A, B);
  }

  /** Every position of the buffer belongs to an entry. */
  lemma ElementAt(order: Order, s: Shape, p: nat) returns (e: Element)
    requires p < s.Count()
    ensures s.Has(e) && Position(order, s, e) == p
  {
    CountAnyOrder(s);
    var n, c, h, w;
    match order {
      case NHWC => n, h, w, c := ThreeFlatsSurjective(p, s.number, s.height, s.width, s.channel);
      case NCHW => n, c, h, w := ThreeFlatsSurjective(p, s.number, s.channel, s.height, s.width);
      case CNHW => c, n, h, w := ThreeFlatsSurjective(p, s.channel, s.number, s.height, s.width);
    }
    e := Element(n, c, h, w);
  }

  // ----- What a conversion does

  /** Every entry whose position in the input is below `upto` stands, after `change`, at its position
      in the output. */
  ghost predicate MovedUpTo<T>(s: Shape, from: Order, to: Order, change: T -> T, input: seq<T>, output: seq<T>,
                               upto: nat)
    requires |input| == |output| == s.Count()
  {
    forall e: Element | s.Has(e) && Position(from, s, e) < upto ::
      output[Position(to, s, e)] == change(input[Position(from, s, e)])
  }

  ghost predicate Relaid<T>(s: Shape, from: Order, to: Order, change: T -> T, input: seq<T>, output: seq<T>) {
    && |input| == |output| == s.Count()
    && MovedUpTo(s, from, to, change, input, output, s.Count())
  }

  /** One assignment of the innermost loop. */
  lemma MoveNext<T>(s: Shape, from: Order, to: Order, change: T -> T, input: seq<T>, output: seq<T>, e: Element)
    requires |input| == |output| == s.Count() && s.Has(e)
    requires MovedUpTo(s, from, to, change, input, output, Position(from, s, e))
    ensures MovedUpTo(s, from, to, change, input,
                      output[Position(to, s, e) := change(input[Position(from, s, e)])], Position(from, s, e) + 1)
  {
    forall f: Element | s.Has(f) && Position(from, s, f) < Position(from, s, e) + 1
      ensures output[Position(to, s, e) := change(input[Position(from, s, e)])][Position(to, s, f)]
              == change(input[Position(from, s, f)])
    {
      if Position(from, s, f) == Position(from, s, e) {
        PositionInjective(from, s, f, e);
      } else if Position(to, s, f) == Position(to, s, e) {
        PositionInjective(to, s, f, e);
      }
    }
  }

  lemma AllVisited(A: nat, B: nat, C: nat, D: nat)
    ensures Flat(Flat(Flat(A, 0, B), 0, C), 0, D) == A * B * C * D
  {}

  /** convertToNCHW; with an offset to add as `change` it is convertToNCHWWithOffset. */
  method ConvertToNchw<T(0)>(buffer: array<T>, s: Shape, change: T -> T)
    requires buffer.Length == s.Count()
    modifies buffer
    ensures Relaid(s, NHWC, NCHW, change, old(buffer[..]), buffer[..])
  {
    ghost var source := buffer[..];
    var ptr := new T[buffer.Length];
    var input := 0;
    for n := 0 to s.number
      invariant input == Flat(Flat(Flat(n, 0, s.height), 0, s.width), 0, s.channel)
      invariant buffer[..] == source && MovedUpTo(s, NHWC, NCHW, change, source, ptr[..], input)
    {
      for h := 0 to s.height
        invariant input == Flat(Flat(Flat(n, h, s.height), 0, s.width), 0, s.channel)
        invariant buffer[..] == source && MovedUpTo(s, NHWC, NCHW, change, source, ptr[..], input)
      {
        for w := 0 to s.width
          invariant input == Flat(Flat(Flat(n, h, s.height), w, s.width), 0, s.channel)
          invariant buffer[..] == source && MovedUpTo(s, NHWC, NCHW, change, source, ptr[..], input)
        {
          for c := 0 to s.channel
            invariant input == Flat(Flat(Flat(n, h, s.height), w, s.width), c, s.channel)
            invariant buffer[..] == source && MovedUpTo(s, NHWC, NCHW, change, source, ptr[..], input)
          {
            ghost var e := Element(n, c, h, w);
            MoveNext(s, NHWC, NCHW, change, source, ptr[..], e);
            PositionBound(NHWC, s, e);
            PositionBound(NCHW, s, e);
            ptr[((n * s.channel + c) * s.height + h) * s.width + w] := change(buffer[input]);
            input := input + 1;
          }
          FlatCarry(Flat(Flat(n, h, s.height), w, s.width), s.channel);
        }
        FlatCarry(Flat(n, h, s.height), s.width);
      }
      FlatCarry(n, s.height);
    }
    AllVisited(s.number, s.height, s.width, s.channel);
    CountAnyOrder(s);
    forall i | 0 <= i < buffer.Length {
      buffer[i] := ptr[i];
    }
    assert buffer[..] == ptr[..];
  }

  /** convertToNHWC and convertToNHWCWithOffset. */
  method ConvertToNhwc<T(0)>(buffer: array<T>, s: Shape, change: T -> T)
    requires buffer.Length == s.Count()
    modifies buffer
    ensures Relaid(s, NCHW, NHWC, change, old(buffer[..]), buffer[..])
  {
    ghost var source := buffer[..];
    var ptr := new T[buffer.Length];
    var input := 0;
    for n := 0 to s.number
      invariant input == Flat(Flat(Flat(n, 0, s.channel), 0, s.height), 0, s.width)
      invariant buffer[..] == source && MovedUpTo(s, NCHW, NHWC, change, source, ptr[..], input)
    {
      for c := 0 to s.channel
        invariant input == Flat(Flat(Flat(n, c, s.channel), 0, s.height), 0, s.width)
        invariant buffer[..] == source && MovedUpTo(s, NCHW, NHWC, change, source, ptr[..], input)
      {
        for h := 0 to s.height
          invariant input == Flat(Flat(Flat(n, c, s.channel), h, s.height), 0, s.width)
          invariant buffer[..] == source && MovedUpTo(s, NCHW, NHWC, change, source, ptr[..], input)
        {
          for w := 0 to s.width
            invariant input == Flat(Flat(Flat(n, c, s.channel), h, s.height), w, s.width)
            invariant buffer[..] == source && MovedUpTo(s, NCHW, NHWC, change, source, ptr[..], input)
          {
            ghost var e := Element(n, c, h, w);
            MoveNext(s, NCHW, NHWC, change, source, ptr[..], e);
            PositionBound(NCHW, s, e);
            PositionBound(NHWC, s, e);
            ptr[((n * s.height + h) * s.width + w) * s.channel + c] := change(buffer[input]);
            input := input + 1;
          }
          FlatCarry(Flat(Flat(n, c, s.channel), h, s.height), s.width);
        }
        FlatCarry(Flat(n, c, s.channel), s.height);
      }
      FlatCarry(n, s.channel);
    }
    AllVisited(s.number, s.channel, s.height, s.width);
    CountAnyOrder(s);
    forall i | 0 <= i < buffer.Length {
      buffer[i] := ptr[i];
    }
    assert buffer[..] == ptr[..];
  }

  /** convertToCNHW and convertToCNHWWithOffset. */
  method ConvertToCnhw<T(0)>(buffer: array<T>, s: Shape, change: T -> T)
    requires buffer.Length == s.Count()
    modifies buffer
    ensures Relaid(s, NHWC, CNHW, change, old(buffer[..]), buffer[..])
  {
    ghost var source := buffer[..];
    var ptr := new T[buffer.Length];
    var input := 0;
    for n := 0 to s.number
      invariant input == Flat(Flat(Flat(n, 0, s.height), 0, s.width), 0, s.channel)
      invariant buffer[..] == source && MovedUpTo(s, NHWC, CNHW, change, source, ptr[..], input)
    {
      for h := 0 to s.height
        invariant input == Flat(Flat(Flat(n, h, s.height), 0, s.width), 0, s.channel)
        invariant buffer[..] == source && MovedUpTo(s, NHWC, CNHW, change, source, ptr[..], input)
      {
        for w := 0 to s.width
          invariant input == Flat(Flat(Flat(n, h, s.height), w, s.width), 0, s.channel)
          invariant buffer[..] == source && MovedUpTo(s, NHWC, CNHW, change, source, ptr[..], input)
        {
          for c := 0 to s.channel
            invariant input == Flat(Flat(Flat(n, h, s.height), w, s.width), c, s.channel)
            invariant buffer[..] == source && MovedUpTo(s, NHWC, CNHW, change, source, ptr[..], input)
          {
            ghost var e := Element(n, c, h, w);
            MoveNext(s, NHWC, CNHW, change, source, ptr[..], e);
            PositionBound(NHWC, s, e);
            PositionBound(CNHW, s, e);
            ptr[((c * s.number + n) * s.height + h) * s.width + w] := change(buffer[input]);
            input := input + 1;
          }
          FlatCarry(Flat(Flat(n, h, s.height), w, s.width), s.channel);
        }
        FlatCarry(Flat(n, h, s.height), s.width);
      }
      FlatCarry(n, s.height);
    }
    AllVisited(s.number, s.height, s.width, s.channel);
    CountAnyOrder(s);
    forall i | 0 <= i < buffer.Length {
      buffer[i] := ptr[i];
    }
    assert buffer[..] == ptr[..];
  }

  // ----- Consequences, for every shape

  /** The contract leaves no freedom: input and layouts determine the output. */
  lemma RelaidUnique<T>(s: Shape, from: Order, to: Order, change: T -> T, input: seq<T>, x: seq<T>, y: seq<T>)
    requires Relaid(s, from, to, change, input, x) && Relaid(s, from, to, change, input, y)
    ensures x == y
  {
    forall p | 0 <= p < |x|
      ensures x[p] == y[p]
    {
      var e := ElementAt(to, s, p);
      PositionBound(from, s, e);
    }
  }

  /** Going back restores the buffer exactly when the two element changes cancel on its contents. */
  lemma RoundTrip<T>(s: Shape, from: Order, to: Order, change: T -> T, back: T -> T,
                     before: seq<T>, between: seq<T>, after: seq<T>)
    requires Relaid(s, from, to, change, before, between)
    requires Relaid(s, to, from, back, between, after)
    ensures after == before <==> forall p :: 0 <= p < |before| ==> back(change(before[p])) == before[p]
  {
    forall p | 0 <= p < |before|
      ensures after[p] == back(change(before[p]))
    {
      var e := ElementAt(from, s, p);
      assert between[Position(to, s, e)] == change(before[p]);
    }
  }

  /** Composing two conversions is the direct conversion. */
  lemma RelaidCompose<T>(s: Shape, x: Order, y: Order, z: Order, f: T -> T, g: T -> T, h: T -> T,
                         a: seq<T>, b: seq<T>, c: seq<T>)
    requires Relaid(s, x, y, f, a, b) && Relaid(s, y, z, g, b, c)
    requires forall v :: v in a ==> h(v) == g(f(v))
    ensures Relaid(s, x, z, h, a, c)
  {
    forall e: Element | s.Has(e)
      ensures c[Position(z, s, e)] == h(a[Position(x, s, e)])
    {
      assert b[Position(y, s, e)] == f(a[Position(x, s, e)]);
    }
  }

  /** Number of the plane of batch n and channel c. */
  function PlaneIndex(order: Order, s: Shape, n: nat, c: nat): nat {
    if order == NCHW then Flat(n, c, s.channel) else Flat(c, n, s.number)
  }

  function PlaneSize(s: Shape): nat { s.height * s.width }

  /** Where the height x width plane of batch n and channel c starts. */
  function PlaneStart(order: Order, s: Shape, n: nat, c: nat): (start: nat)
    requires order != NHWC && n < s.number && c < s.channel
    ensures start + s.height * s.width <= s.Count()
  {
    PlaneFits(order, s, n, c);
    Flat(PlaneIndex(order, s, n, c), 0, PlaneSize(s))
  }

  lemma PlaneFits(order: Order, s: Shape, n: nat, c: nat)
    requires order != NHWC && n < s.number && c < s.channel
    ensures Flat(PlaneIndex(order, s, n, c), 0, PlaneSize(s)) + PlaneSize(s) <= s.Count()
  {
    if order == NCHW {
      PlaneBound(n, c, s.number, s.channel, PlaneSize(s));
    } else {
      PlaneBound(c, n, s.channel, s.number, PlaneSize(s));
    }
    PlaneCount(s);
  }

  lemma PlaneBound(a: nat, b: nat, A: nat, B: nat, plane: nat)
    requires a < A && b < B
    ensures (a * B + b) * plane + plane <= A * B * plane
  {
    FlatIncreases(a, b, A, 0, B);
    assert (a * B + b + 1) * plane <= (A * B) * plane;
  }

  lemma PlaneCount(s: Shape)
    ensures s.Count() == s.number * s.channel * (s.height * s.width) == s.channel * s.number * (s.height * s.width)
  {
    assert s.number * s.channel == s.channel * s.number;
  }

  lemma PlaneOffset(p: nat, h: nat, w: nat, H: nat, W: nat)
    ensures Flat(Flat(p, h, H), w, W) == p * (H * W) + Flat(h, w, W)
  {}

  lemma PlanePosition(order: Order, s: Shape, e: Element)
    requires order != NHWC && s.Has(e)
    ensures Position(order, s, e) == PlaneStart(order, s, e.n, e.c) + Flat(e.h, e.w, s.width)
  {
    PlaneOffset(if order == NCHW then e.n * s.channel + e.c else e.c * s.number + e.n, e.h, e.w, s.height, s.width);
  }

  /** CNHW is NCHW with the two outer axes exchanged: whole planes move, each keeps its contents. */
  lemma CnhwExchangesOuterAxes<T>(s: Shape, change: T -> T, input: seq<T>, nchw: seq<T>, cnhw: seq<T>, n: nat, c: nat)
    requires Relaid(s, NHWC, NCHW, change, input, nchw) && Relaid(s, NHWC, CNHW, change, input, cnhw)
    requires n < s.number && c < s.channel
    ensures nchw[PlaneStart(NCHW, s, n, c)..][..s.height * s.width]
            == cnhw[PlaneStart(CNHW, s, n, c)..][..s.height * s.width]
  {
    var x := nchw[PlaneStart(NCHW, s, n, c)..][..s.height * s.width];
    var y := cnhw[PlaneStart(CNHW, s, n, c)..][..s.height * s.width];
    forall k | 0 <= k < s.height * s.width
      ensures x[k] == y[k]
    {
      var h, w := FlatSurjective(k, s.height, s.width);
      var e := Element(n, c, h, w);
      PlanePosition(NCHW, s, e);
      PlanePosition(CNHW, s, e);
      PositionBound(NHWC, s, e);
      assert nchw[Position(NCHW, s, e)] == cnhw[Position(CNHW, s, e)];
    }
  }

  ghost function EntryAt(order: Order, s: Shape, p: nat): (e: Element)
    requires p < s.Count()
    ensures s.Has(e) && Position(order, s, e) == p
  {
    EntryExists(order, s, p);
    var e :| s.Has(e) && Position(order, s, e) == p;
    e
  }

  lemma EntryExists(order: Order, s: Shape, p: nat)
    requires p < s.Count()
    ensures exists e :: s.Has(e) && Position(order, s, e) == p
  {
    var e := ElementAt(order, s, p);
  }

  /** Without an element change, the buffer is only permuted. */
  lemma RelaidPermutes<T>(s: Shape, from: Order, to: Order, change: T -> T, input: seq<T>, output: seq<T>)
    requires Relaid(s, from, to, change, input, output)
    requires forall x :: x in input ==> change(x) == x
    ensures multiset(output) == multiset(input)
  {
    var target := seq(|input|, p requires 0 <= p < |input| => Position(to, s, EntryAt(from, s, p)));
    forall p, q | 0 <= p < q < |input|
      ensures target[p] != target[q]
    {
      if target[p] == target[q] {
        PositionInjective(to, s, EntryAt(from, s, p), EntryAt(from, s, q));
      }
    }
    PermutationKeepsMultiset(input, output, target);
  }

  lemma {:induction false} PermutationKeepsMultiset<T>(a: seq<T>, b: seq<T>, target: seq<nat>)
    requires |a| == |b| == |target|
    requires forall i :: 0 <= i < |a| ==> target[i] < |b| && b[target[i]] == a[i]
    requires forall i, j :: 0 <= i < j < |a| ==> target[i] != target[j]
    ensures multiset(a) == multiset(b)
    decreases |a|
  {
    if a != [] {
      var n := |a| - 1;
      var j := target[n];
      var a', b' := a[..n], b[..j] + b[j + 1..];
      var target' := seq(n, i requires 0 <= i < n => if target[i] > j then target[i] - 1 else target[i]);
      forall i, k | 0 <= i < k < n ensures target'[i] != target'[k] {
        assert target[i] != target[k] && target[i] != target[n] && target[k] != target[n];
      }
      PermutationKeepsMultiset(a', b', target');
      assert a == a' + [a[n]];
      TakenOut(b, j);
    }
  }

  lemma TakenOut<T>(b: seq<T>, j: nat)
    requires j < |b|
    ensures multiset(b) == multiset(b[..j] + b[j + 1..]) + multiset{b[j]}
  {
    assert b == b[..j] + [b[j]] + b[j + 1..];
  }
}
