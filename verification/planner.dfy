/** The layout planner of `generateCode`: each parameter, in list order, gets
    the next `length` bits of one logical bit stream, and the stream is cut
    into words of `outputBitLength` bits. */
module Planner {

  /** A parameter as the generator sees it. `minimum` and `maximum` only feed
      the floating-point quantization, which is not part of this model. */
  datatype Parameter = Parameter(name: string, length: nat, minimum: real, maximum: real)

  /** The half-open bit range `[from, to)` of `param` in the logical bit stream. */
  datatype Offset = Offset(from: nat, to: nat, param: Parameter)

  /** Sum of the bit lengths of `ps`. */
  function TotalLength(ps: seq<Parameter>): nat
  {
    if ps == [] then 0 else TotalLength(ps[..|ps| - 1]) + ps[|ps| - 1].length
  }

  /** The offsets the planner assigns: parameter `j` starts where the
      parameters before it end. */
  function Layout(ps: seq<Parameter>): seq<Offset>
  {
    if ps == [] then []
    else
      var init, last := ps[..|ps| - 1], ps[|ps| - 1];
      var start := TotalLength(init);
      Layout(init) + [Offset(start, start + last.length, last)]
  }

  /** `Math.ceil(total / width)`: the least number of `width`-bit words that hold `total` bits. */
  function WordCount(total: nat, width: nat): (r: nat)
    requires width >= 1
    ensures r * width >= total
    ensures r > 0 ==> (r - 1) * width < total
  {
    var r := (total + width - 1) / width;
    assert (r - 1) * width == r * width - width;
    r
  }

  /** Offsets that tile `[0, End(offs))` in list order, without gaps or overlaps. */
  predicate Contiguous(offs: seq<Offset>)
  {
    && (|offs| > 0 ==> offs[0].from == 0)
    && (forall j :: 0 <= j < |offs| ==> offs[j].from <= offs[j].to)
    && (forall j :: 0 < j < |offs| ==> offs[j - 1].to == offs[j].from)
  }

  /** The first bit after the last offset. */
  function End(offs: seq<Offset>): nat
  {
    if offs == [] then 0 else offs[|offs| - 1].to
  }

  /** Every planned offset has its parameter's length, the offsets follow the
      parameter list, tile the stream from bit 0, and end at the total length. */
  lemma {:induction false} LayoutIsContiguous(ps: seq<Parameter>)
    ensures |Layout(ps)| == |ps|
    ensures forall j :: 0 <= j < |ps| ==>
      Layout(ps)[j].param == ps[j] && Layout(ps)[j].to - Layout(ps)[j].from == ps[j].length
    ensures Contiguous(Layout(ps))
    ensures End(Layout(ps)) == TotalLength(ps)
  {
    if ps != [] {
      var init := ps[..|ps| - 1];
      LayoutIsContiguous(init);
      assert forall j :: 0 <= j < |init| ==> init[j] == ps[j];
      var offs := Layout(ps);
      assert offs == Layout(init) + [offs[|ps| - 1]];
      assert forall j :: 0 <= j < |init| ==> offs[j] == Layout(init)[j];
      assert offs[|ps| - 1].from == End(Layout(init));
      forall j | 0 < j < |offs|
        ensures offs[j - 1].to == offs[j].from
      {
        if j < |init| {
          assert offs[j - 1] == Layout(init)[j - 1];
        }
      }
    }
  }

  /** In contiguous offsets, a later offset starts no earlier than an earlier one ends. */
  lemma {:induction false} ContiguousOrdered(offs: seq<Offset>, j: nat, k: nat)
    requires Contiguous(offs) && j < k < |offs|
    ensures offs[j].to <= offs[k].from
    decreases k - j
  {
    if j + 1 < k {
      ContiguousOrdered(offs, j, k - 1);
    }
  }

  /** No contiguous offset ends after the last one. */
  lemma EndBound(offs: seq<Offset>, j: nat)
    requires Contiguous(offs) && j < |offs|
    ensures offs[j].to <= End(offs)
  {
    if j < |offs| - 1 {
      ContiguousOrdered(offs, j, |offs| - 1);
    }
  }

  /** With every length at least one, the total length counts at least one bit per parameter. */
  lemma {:induction false} TotalLengthAtLeastCount(ps: seq<Parameter>)
    requires forall j :: 0 <= j < |ps| ==> ps[j].length >= 1
    ensures TotalLength(ps) >= |ps|
  {
    if ps != [] {
      TotalLengthAtLeastCount(ps[..|ps| - 1]);
    }
  }

  /** No word is produced exactly when there is no parameter (lengths are at least one). */
  lemma WordCountZeroIffEmpty(ps: seq<Parameter>, width: nat)
    requires width >= 1
    requires forall j :: 0 <= j < |ps| ==> ps[j].length >= 1
    ensures WordCount(TotalLength(ps), width) == 0 <==> ps == []
  {
    TotalLengthAtLeastCount(ps);
  }

  /** Lines 15-22 and 35 of `generateCode`: a running cursor hands out the
      offsets, `totalLength` keeps the largest end seen, and the word count is
      the total length rounded up to whole words. */
  method PlanLayout(parameters: seq<Parameter>, outputBitLength: nat)
    returns (offsets: seq<Offset>, totalLength: nat, outputCount: nat)
    requires outputBitLength >= 1
    ensures offsets == Layout(parameters)
    ensures totalLength == TotalLength(parameters)
    ensures outputCount * outputBitLength >= totalLength
    ensures outputCount > 0 ==> (outputCount - 1) * outputBitLength < totalLength
    ensures outputCount == WordCount(totalLength, outputBitLength)
  {
    offsets := [];
    var curr := 0;
    totalLength := 0;
    for k := 0 to |parameters|
      invariant offsets == Layout(parameters[..k])
      invariant curr == TotalLength(parameters[..k])
      invariant totalLength == curr
    {
      var param := parameters[k];
      assert parameters[..k + 1][..k] == parameters[..k];
      totalLength := if totalLength < curr + param.length then curr + param.length else totalLength;
      offsets := offsets + [Offset(curr, curr + param.length, param)];
      curr := curr + param.length;
    }
    assert parameters[..|parameters|] == parameters;
    outputCount := WordCount(totalLength, outputBitLength);
  }
}
