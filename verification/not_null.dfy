/**
 * Kotlin's `mapNotNull`, taken as `map` followed by `filterNotNull`: the
 * non-null results, in the order of the list they came from.
 */
module NotNull {
  import opened Options

  /** `filterNotNull`: the present values, in order. */
  function FilterNotNull<T>(os: seq<Option<T>>): (r: seq<T>)
    ensures |r| <= |os|
    ensures forall k :: 0 <= k < |r| ==> Some(r[k]) in os
  {
    if os == [] then []
    else
      var rest := FilterNotNull(os[1..]);
      assert forall x :: x in os[1..] ==> x in os;
      match os[0]
      case Some(v) => [v] + rest
      case None => rest
  }

  /** Filtering distributes over concatenation: it drops values but never reorders them. */
  lemma {:induction false} FilterNotNullAppend<T>(a: seq<Option<T>>, b: seq<Option<T>>)
    ensures FilterNotNull(a + b) == FilterNotNull(a) + FilterNotNull(b)
  {
    if a == [] {
      assert a + b == b;
    } else {
      assert (a + b)[0] == a[0] && (a + b)[1..] == a[1..] + b;
      FilterNotNullAppend(a[1..], b);
    }
  }

  /** When every value is present, filtering keeps them all. */
  lemma {:induction false} FilterNotNullAllPresent<T>(os: seq<Option<T>>, vs: seq<T>)
    requires |os| == |vs| && forall i :: 0 <= i < |os| ==> os[i] == Some(vs[i])
    ensures FilterNotNull(os) == vs
  {
    if os != [] {
      FilterNotNullAllPresent(os[1..], vs[1..]);
      assert vs == [vs[0]] + vs[1..];
    }
  }

  /**
   * `idx` gives, for each value kept by `FilterNotNull(os)`, the position it
   * came from; the positions increase strictly, and every present value's
   * position is among them.
   */
  ghost predicate IsOrigins<T>(os: seq<Option<T>>, idx: seq<nat>) {
    && |idx| == |FilterNotNull(os)|
    && (forall k :: 0 <= k < |idx| ==> idx[k] < |os| && os[idx[k]] == Some(FilterNotNull(os)[k]))
    && (forall k, l :: 0 <= k < l < |idx| ==> idx[k] < idx[l])
    && (forall i :: 0 <= i < |os| && os[i].Some? ==> i in idx)
  }

  /** Every position shifted by one. */
  function Shift(idx: seq<nat>): seq<nat> {
    seq(|idx|, k requires 0 <= k < |idx| => idx[k] + 1)
  }

  /**
   * For each value `FilterNotNull` keeps, the position it came from: the
   * output is the present values in their original order, and nothing else.
   */
  function Origins<T>(os: seq<Option<T>>): (idx: seq<nat>)
    ensures IsOrigins(os, idx)
  {
    if os == [] then []
    else
      var rest := Origins(os[1..]);
      var idx := if os[0].Some? then [0] + Shift(rest) else Shift(rest);
      OriginsStep(os, rest, idx);
      idx
  }

  /** The origins of a non-empty list, from the origins of its tail. */
  lemma OriginsStep<T>(os: seq<Option<T>>, rest: seq<nat>, idx: seq<nat>)
    requires os != [] && IsOrigins(os[1..], rest)
    requires idx == if os[0].Some? then [0] + Shift(rest) else Shift(rest)
    ensures IsOrigins(os, idx)
  {
    OriginsStepValues(os, rest, idx);
    OriginsStepIncreasing(os, rest, idx);
    OriginsStepComplete(os, rest, idx);
  }

  /** Positions and values kept by `FilterNotNull(os)`, from those of its tail. */
  lemma OriginsStepValues<T>(os: seq<Option<T>>, rest: seq<nat>, idx: seq<nat>)
    requires os != [] && IsOrigins(os[1..], rest)
    requires idx == if os[0].Some? then [0] + Shift(rest) else Shift(rest)
    ensures |idx| == |FilterNotNull(os)|
    ensures forall k :: 0 <= k < |idx| ==> idx[k] < |os| && os[idx[k]] == Some(FilterNotNull(os)[k])
  {
    var tail := FilterNotNull(os[1..]);
    ShiftedValues(os, rest, tail);
    if os[0].Some? {
      assert FilterNotNull(os) == [os[0].value] + tail;
      PrependValue(os, Shift(rest), tail);
    } else {
      assert FilterNotNull(os) == tail;
    }
  }

  /** Positions in the tail, shifted by one, are positions in the whole list. */
  lemma ShiftedValues<T>(os: seq<Option<T>>, rest: seq<nat>, tail: seq<T>)
    requires os != [] && |rest| == |tail|
    requires forall k :: 0 <= k < |rest| ==> rest[k] < |os[1..]| && os[1..][rest[k]] == Some(tail[k])
    ensures forall k :: 0 <= k < |rest| ==> Shift(rest)[k] < |os| && os[Shift(rest)[k]] == Some(tail[k])
  {
    forall k | 0 <= k < |rest| ensures Shift(rest)[k] < |os| && os[Shift(rest)[k]] == Some(tail[k]) {
      assert os[rest[k] + 1] == os[1..][rest[k]];
    }
  }

  /** A present head at position 0 in front of the shifted positions of the tail. */
  lemma PrependValue<T>(os: seq<Option<T>>, shifted: seq<nat>, tail: seq<T>)
    requires os != [] && os[0].Some? && |shifted| == |tail|
    requires forall k :: 0 <= k < |shifted| ==> shifted[k] < |os| && os[shifted[k]] == Some(tail[k])
    ensures forall k :: 0 <= k < |shifted| + 1 ==>
      ([0] + shifted)[k] < |os| && os[([0] + shifted)[k]] == Some(([os[0].value] + tail)[k])
  {
    forall k | 0 <= k < |shifted| + 1
      ensures ([0] + shifted)[k] < |os| && os[([0] + shifted)[k]] == Some(([os[0].value] + tail)[k])
    {
      if k > 0 {
        assert ([0] + shifted)[k] == shifted[k - 1] && ([os[0].value] + tail)[k] == tail[k - 1];
      }
    }
  }

  lemma OriginsStepIncreasing<T>(os: seq<Option<T>>, rest: seq<nat>, idx: seq<nat>)
    requires os != [] && forall k, l :: 0 <= k < l < |rest| ==> rest[k] < rest[l]
    requires idx == if os[0].Some? then [0] + Shift(rest) else Shift(rest)
    ensures forall k, l :: 0 <= k < l < |idx| ==> idx[k] < idx[l]
  {
    var off := if os[0].Some? then 1 else 0;
    forall k, l | 0 <= k < l < |idx| ensures idx[k] < idx[l] {
      if k >= off {
        assert rest[k - off] < rest[l - off];
      }
    }
  }

  lemma OriginsStepComplete<T>(os: seq<Option<T>>, rest: seq<nat>, idx: seq<nat>)
    requires os != [] && forall i :: 0 <= i < |os[1..]| && os[1..][i].Some? ==> i in rest
    requires idx == if os[0].Some? then [0] + Shift(rest) else Shift(rest)
    ensures forall i :: 0 <= i < |os| && os[i].Some? ==> i in idx
  {
    var off := if os[0].Some? then 1 else 0;
    forall i | 0 <= i < |os| && os[i].Some? ensures i in idx {
      if i == 0 {
        assert idx[0] == 0;
      } else {
        assert os[1..][i - 1] == os[i];
        var k :| 0 <= k < |rest| && rest[k] == i - 1;
        assert idx[k + off] == i;
      }
    }
  }
}
