/** The aggregation step of the reporter: every 100 ms it adds up the good
    and bad counters of all slices of the ring, per latency bucket, and finds
    the longest bar to scale the plot. */
module Reporter {
  import opened Faults
  import opened Metrics

  /** Column `j` of the first `n` rows of `g`, summed. */
  function ColumnSum(g: seq<seq<nat>>, j: nat, n: nat): nat
    requires n <= |g| && forall i :: 0 <= i < |g| ==> j < |g[i]|
    decreases n
  {
    if n == 0 then 0 else ColumnSum(g, j, n - 1) + g[n - 1][j]
  }

  /** The largest `a[k] + b[k]` for `lo <= k < hi`, or 0 when there is none. */
  function PeakRange(a: seq<nat>, b: seq<nat>, lo: nat, hi: nat): nat
    requires lo <= hi <= |a| && hi <= |b|
    decreases hi - lo
  {
    if lo == hi then 0
    else
      var rest := PeakRange(a, b, lo + 1, hi);
      if a[lo] + b[lo] > rest then a[lo] + b[lo] else rest
  }

  /** The per-bucket totals and the plot's scale, as the reporter computes them. */
  datatype Totals = Totals(ok: seq<nat>, bad: seq<nat>, max: nat)

  function Max(a: nat, b: nat): nat {
    if a >= b then a else b
  }

  /** `PeakRange` is an upper bound reached by some element. */
  lemma {:induction false} PeakRangeBounds(a: seq<nat>, b: seq<nat>, lo: nat, hi: nat)
    requires lo <= hi <= |a| && hi <= |b|
    ensures forall k :: lo <= k < hi ==> a[k] + b[k] <= PeakRange(a, b, lo, hi)
    ensures lo < hi ==> exists k :: lo <= k < hi && PeakRange(a, b, lo, hi) == a[k] + b[k]
    decreases hi - lo
  {
    if lo < hi {
      PeakRangeBounds(a, b, lo + 1, hi);
    }
  }

  /** Extending the range by one element on the right. */
  lemma {:induction false} PeakRangeExtend(a: seq<nat>, b: seq<nat>, lo: nat, hi: nat)
    requires lo <= hi < |a| && hi < |b|
    ensures PeakRange(a, b, lo, hi + 1) == Max(PeakRange(a, b, lo, hi), a[hi] + b[hi])
    decreases hi - lo
  {
    if lo < hi {
      PeakRangeExtend(a, b, lo + 1, hi);
    }
  }

  /** Elementwise larger sequences have a larger peak. */
  lemma PeakRangeMonotone(a: seq<nat>, b: seq<nat>, a2: seq<nat>, b2: seq<nat>, hi: nat)
    requires hi <= |a| && hi <= |b| && hi <= |a2| && hi <= |b2|
    requires forall k :: 0 <= k < hi ==> a[k] <= a2[k] && b[k] <= b2[k]
    ensures PeakRange(a, b, 0, hi) <= PeakRange(a2, b2, 0, hi)
  {
    PeakRangeBounds(a, b, 0, hi);
    PeakRangeBounds(a2, b2, 0, hi);
  }

  /** The reporter's loop over `timingsOk` and `timingsBad`. The scratch
      arrays have one entry per slice (`Window`) but are indexed by bucket,
      so more buckets than slices panic. */
  method Aggregate(ok: seq<seq<nat>>, bad: seq<seq<nat>>, buckets: nat) returns (r: Result<Totals>)
    requires Grid(ok, buckets) && Grid(bad, buckets)
    ensures r.Fail? <==> buckets > Window
    ensures r.Fail? ==> r.fault == Panic(IndexOutOfRange)
    ensures r.Ok? ==> |r.value.ok| == Window && |r.value.bad| == Window
    ensures r.Ok? ==> forall j :: 0 <= j < buckets ==>
      r.value.ok[j] == ColumnSum(ok, j, Window) && r.value.bad[j] == ColumnSum(bad, j, Window)
    ensures r.Ok? ==> forall j :: buckets <= j < Window ==> r.value.ok[j] == 0 && r.value.bad[j] == 0
    ensures r.Ok? ==> r.value.max == Max(1, PeakRange(r.value.ok, r.value.bad, 0, buckets))
  {
    var t := Totals(Zeros(Window), Zeros(Window), 1);
    PeakRangeBounds(t.ok, t.bad, 0, if buckets <= Window then buckets else Window);
    if buckets > Window {
      r := AddSlice(t, ok[0], bad[0], buckets);
      return;
    }
    var i := 0;
    while i < Window
      invariant 0 <= i <= Window
      invariant |t.ok| == Window && |t.bad| == Window
      invariant forall j :: 0 <= j < buckets ==> t.ok[j] == ColumnSum(ok, j, i) && t.bad[j] == ColumnSum(bad, j, i)
      invariant forall j :: buckets <= j < Window ==> t.ok[j] == 0 && t.bad[j] == 0
      invariant t.max == Max(1, PeakRange(t.ok, t.bad, 0, buckets))
    {
      var next := AddSlice(t, ok[i], bad[i], buckets);
      t := next.value;
      i := i + 1;
    }
    return Ok(t);
  }

  /** One pass of the outer loop: add slice `okRow`/`badRow` into the
      scratch arrays, column by column, raising the scale as totals grow.
      Panics when a bucket has no scratch entry. */
  method AddSlice(t: Totals, okRow: seq<nat>, badRow: seq<nat>, buckets: nat) returns (r: Result<Totals>)
    requires |t.ok| == Window && |t.bad| == Window && |okRow| == buckets && |badRow| == buckets
    requires buckets <= Window ==> t.max == Max(1, PeakRange(t.ok, t.bad, 0, buckets))
    requires buckets <= Window ==> forall j :: buckets <= j < Window ==> t.ok[j] == 0 && t.bad[j] == 0
    ensures r.Fail? <==> buckets > Window
    ensures r.Fail? ==> r.fault == Panic(IndexOutOfRange)
    ensures r.Ok? ==> |r.value.ok| == Window && |r.value.bad| == Window
    ensures r.Ok? ==> forall j :: 0 <= j < buckets ==>
      r.value.ok[j] == t.ok[j] + okRow[j] && r.value.bad[j] == t.bad[j] + badRow[j]
    ensures r.Ok? ==> forall j :: buckets <= j < Window ==> r.value.ok[j] == 0 && r.value.bad[j] == 0
    ensures r.Ok? ==> r.value.max == Max(1, PeakRange(r.value.ok, r.value.bad, 0, buckets))
  {
    var tOk, tBad, max := t.ok, t.bad, t.max;
    var lim := if buckets <= Window then buckets else Window;
    var j := 0;
    while j < buckets
      invariant 0 <= j <= lim
      invariant |tOk| == Window && |tBad| == Window
      invariant forall k :: 0 <= k < j ==> tOk[k] == t.ok[k] + okRow[k] && tBad[k] == t.bad[k] + badRow[k]
      invariant forall k :: j <= k < Window ==> tOk[k] == t.ok[k] && tBad[k] == t.bad[k]
      invariant buckets <= Window ==> max == Max(Max(1, PeakRange(t.ok, t.bad, 0, buckets)), PeakRange(tOk, tBad, 0, j))
    {
      if j >= |tOk| {
        return Fail(Panic(IndexOutOfRange));
      }
      PeakRangeSame(tOk, tBad, tOk[j := tOk[j] + okRow[j]], tBad[j := tBad[j] + badRow[j]], j);
      tOk := tOk[j := tOk[j] + okRow[j]];
      tBad := tBad[j := tBad[j] + badRow[j]];
      PeakRangeExtend(tOk, tBad, 0, j);
      var sum := tOk[j] + tBad[j];
      if sum > max {
        max := sum;
      }
      j := j + 1;
    }
    PeakRangeMonotone(t.ok, t.bad, tOk, tBad, buckets);
    return Ok(Totals(tOk, tBad, max));
  }

  /** Updating past `hi` does not change the peak below it. */
  lemma PeakRangeSame(a: seq<nat>, b: seq<nat>, a2: seq<nat>, b2: seq<nat>, hi: nat)
    requires hi <= |a| && hi <= |b| && hi <= |a2| && hi <= |b2|
    requires forall k :: 0 <= k < hi ==> a[k] == a2[k] && b[k] == b2[k]
    ensures PeakRange(a, b, 0, hi) == PeakRange(a2, b2, 0, hi)
  {
    PeakRangeMonotone(a, b, a2, b2, hi);
    PeakRangeMonotone(a2, b2, a, b, hi);
  }

  /** The scale is at least 1 and at least every bucket's total, and it is
      one of those totals when it is above 1. */
  lemma AggregateScale(t: Totals, buckets: nat)
    requires buckets <= |t.ok| && buckets <= |t.bad|
    requires t.max == Max(1, PeakRange(t.ok, t.bad, 0, buckets))
    ensures t.max >= 1
    ensures forall j :: 0 <= j < buckets ==> t.ok[j] + t.bad[j] <= t.max
    ensures t.max > 1 ==> exists j :: 0 <= j < buckets && t.max == t.ok[j] + t.bad[j]
  {
    PeakRangeBounds(t.ok, t.bad, 0, buckets);
  }
}
