/** The statistics the load generator keeps while it runs, as one immutable
    record changed by pure transition functions.

    Timings live in a ring of `Window` time slices of 100 ms each (ten
    seconds). Each slice holds, per latency bucket, how many responses were
    good (2xx) and how many were not. Bucket 0 is for responses faster than
    the plot's minimum, the last bucket for those slower than its maximum. */
module Metrics {
  import opened Faults
  import opened Targets
  import opened GoInts

  const MovingWindowSeconds: nat := 10
  const ScreenRefreshFrequency: nat := 10
  /** Number of slices in the ring: `movingWindowsSize * screenRefreshFrequency`. */
  const Window: nat := MovingWindowSeconds * ScreenRefreshFrequency
  /** Length of one slice in nanoseconds (`time.Second / screenRefreshFrequency`). */
  const SliceNanos: nat := 1_000_000_000 / ScreenRefreshFrequency
  /** Size of the per-status-code counter array. */
  const StatusSlots: nat := 1024

  /** The counters of the program. Counters only ever grow from zero, so
      they are `nat`; the 64-bit wrap-around is out of reach. */
  datatype Stats = Stats(
    sent: nat,                   // requests handed to the HTTP client
    received: nat,               // requests that came back, with or without error
    responses: seq<nat>,         // per status code; 0 stands for a transport error
    ok: seq<seq<nat>>,           // ok[slice][bucket]: 2xx responses
    bad: seq<seq<nat>>           // bad[slice][bucket]: every other outcome
  )

  /** A matrix of `Window` rows of `buckets` counters each. */
  predicate Grid(g: seq<seq<nat>>, buckets: nat) {
    |g| == Window && forall i :: 0 <= i < |g| ==> |g[i]| == buckets
  }

  /** The shape `initializeTimingsBucket` gives the counters. */
  predicate Shaped(s: Stats, buckets: nat) {
    |s.responses| == StatusSlots && Grid(s.ok, buckets) && Grid(s.bad, buckets)
  }

  predicate AllZero(xs: seq<nat>) {
    forall k :: 0 <= k < |xs| ==> xs[k] == 0
  }

  predicate GridZero(g: seq<seq<nat>>) {
    forall i :: 0 <= i < |g| ==> AllZero(g[i])
  }

  /** Every counter is zero. */
  predicate Zeroed(s: Stats) {
    s.sent == 0 && s.received == 0 && AllZero(s.responses) && GridZero(s.ok) && GridZero(s.bad)
  }

  function Zeros(n: nat): (z: seq<nat>)
    ensures |z| == n && AllZero(z)
  {
    seq(n, _ => 0)
  }

  /** A matrix of the same shape as `g`, all zero. */
  function ZeroGrid(g: seq<seq<nat>>): (z: seq<seq<nat>>)
    ensures |z| == |g| && GridZero(z)
    ensures forall i :: 0 <= i < |g| ==> |z[i]| == |g[i]|
  {
    seq(|g|, i requires 0 <= i < |g| => Zeros(|g[i]|))
  }

  /** The counters right after start-up. */
  function Init(buckets: nat): (s: Stats)
    ensures Shaped(s, buckets) && Zeroed(s)
  {
    var row := Zeros(buckets);
    var grid := seq(Window, _ => row);
    Stats(0, 0, Zeros(StatusSlots), grid, grid)
  }

  /** `resetStats`: every counter back to zero; the shapes stay. */
  function Reset(s: Stats): (r: Stats)
    ensures Zeroed(r)
    ensures |r.responses| == |s.responses| && |r.ok| == |s.ok| && |r.bad| == |s.bad|
    ensures forall i :: 0 <= i < |s.ok| ==> |r.ok[i]| == |s.ok[i]|
    ensures forall i :: 0 <= i < |s.bad| ==> |r.bad[i]| == |s.bad[i]|
  {
    Stats(0, 0, Zeros(|s.responses|), ZeroGrid(s.ok), ZeroGrid(s.bad))
  }

  /** Resetting keeps the shape and is the start-up state again. */
  lemma ResetIsInit(s: Stats, buckets: nat)
    requires Shaped(s, buckets)
    ensures Reset(s) == Init(buckets)
  {
    var r := Reset(s);
    var i := Init(buckets);
    assert r.responses == i.responses;
    assert r.ok == i.ok;
    assert r.bad == i.bad;
  }

  /** Resetting twice is resetting once. */
  lemma ResetIdempotent(s: Stats)
    ensures Reset(Reset(s)) == Reset(s)
  {
    var r := Reset(s);
    assert Reset(r).responses == r.responses;
    assert Reset(r).ok == r.ok;
    assert Reset(r).bad == r.bad;
  }

  // ---------------------------------------------------------------------
  // Latency buckets

  /** The clamp `attack` applies to `raw`, the logarithm of the latency
      already truncated to an integer: below zero to the first bucket, from
      `buckets - 1` on to the last, anything else one bucket up. */
  function BucketOf(raw: int, buckets: nat): (b: nat)
    requires buckets >= 1
    ensures b < buckets
  {
    if raw < 0 then 0
    else if raw >= buckets - 1 then buckets - 1
    else raw + 1
  }

  /** The three cases of the clamp, and `raw = buckets - 2` landing in the
      last bucket alongside everything slower. */
  lemma BucketCases(raw: int, buckets: nat)
    requires buckets >= 1
    ensures raw < 0 ==> BucketOf(raw, buckets) == 0
    ensures raw >= buckets - 1 ==> BucketOf(raw, buckets) == buckets - 1
    ensures 0 <= raw < buckets - 1 ==> BucketOf(raw, buckets) == raw + 1
    ensures buckets >= 2 ==> BucketOf(buckets - 2, buckets) == buckets - 1
  {
  }

  /** A slower response never lands in a lower bucket. */
  lemma BucketMonotone(raw1: int, raw2: int, buckets: nat)
    requires buckets >= 1 && raw1 <= raw2
    ensures BucketOf(raw1, buckets) <= BucketOf(raw2, buckets)
  {
  }

  // ---------------------------------------------------------------------
  // Time slices

  /** `getTimingsSlot`: the ring slice for the instant `nanos` (nanoseconds
      since the Unix epoch). Go's `/` and `%` truncate toward zero, so before
      the epoch the remainder can be negative, and then the slice index
      panics. */
  function TimingsSlot(nanos: int): (r: Result<nat>)
    ensures r.Ok? <==> GoRem(GoDiv(nanos, SliceNanos), Window) >= 0
    ensures r.Ok? ==> r.value < Window
    ensures r.Fail? ==> r.fault == Panic(IndexOutOfRange)
  {
    var n := GoDiv(nanos, SliceNanos);
    var slot := GoRem(n, Window);
    if slot < 0 then Fail(Panic(IndexOutOfRange)) else Ok(slot)
  }

  /** After the epoch, the slice is the number of whole 100 ms periods,
      modulo the ring size. */
  lemma TimingsSlotAfterEpoch(nanos: int)
    requires nanos >= 0
    ensures TimingsSlot(nanos) == Ok((nanos / SliceNanos) % Window)
  {
  }

  /** Before the epoch, the slice index panics exactly when the instant is
      at least 100 ms before it and its count of whole 100 ms periods is not
      a multiple of the ring size; every other such instant gets slice 0. */
  lemma TimingsSlotBeforeEpoch(nanos: int)
    requires nanos < 0
    ensures TimingsSlot(nanos).Fail? <==> nanos <= -(SliceNanos as int) && ((-nanos) / SliceNanos) % Window != 0
    ensures TimingsSlot(nanos).Ok? ==> TimingsSlot(nanos).value == 0
  {
    var q := (-nanos) / SliceNanos;
    assert GoDiv(nanos, SliceNanos) == -q;
    if nanos > -(SliceNanos as int) {
      assert q == 0;
    } else {
      assert q >= 1;
      assert GoRem(-q, Window) == -(q % Window);
    }
  }

  /** The slice 100 ms later is the next one around the ring. */
  lemma NextSlot(nanos: int)
    requires nanos >= 0
    ensures TimingsSlot(nanos + SliceNanos).Ok? && TimingsSlot(nanos).Ok?
    ensures TimingsSlot(nanos + SliceNanos).value == (TimingsSlot(nanos).value + 1) % Window
  {
    var q := nanos / SliceNanos;
    DivStep(nanos, SliceNanos);
    assert (nanos + SliceNanos) / SliceNanos == q + 1;
    ModStep(q, Window);
  }

  // ---------------------------------------------------------------------
  // One request of `attack`

  /** How a request ended: a transport error or a response with a status code. */
  datatype Outcome = TransportError | Response(code: int)

  /** The status `attack` records: the response's code, or 0 on error. */
  function StatusOf(o: Outcome): (status: int)
    ensures o.TransportError? ==> status == 0
    ensures o.Response? ==> status == o.code
  {
    match o
    case TransportError => 0
    case Response(code) => code
  }

  /** Counted as good: a 2xx status. */
  predicate IsOk(status: int) {
    200 <= status < 300
  }

  /** `xs` with one added at `k`. */
  function Bump(xs: seq<nat>, k: nat): (r: seq<nat>)
    requires k < |xs|
    ensures |r| == |xs| && r[k] == xs[k] + 1
    ensures forall i :: 0 <= i < |xs| && i != k ==> r[i] == xs[i]
  {
    xs[k := xs[k] + 1]
  }

  /** `g` with one added at row `i`, column `j`. */
  function BumpGrid(g: seq<seq<nat>>, i: nat, j: nat): (r: seq<seq<nat>>)
    requires i < |g| && j < |g[i]|
    ensures |r| == |g| && r[i] == Bump(g[i], j)
    ensures forall k :: 0 <= k < |g| && k != i ==> r[k] == g[k]
  {
    g[i := Bump(g[i], j)]
  }

  /** The bookkeeping after one response: one more received, one more for
      the status, and one more in the good or bad counter of the bucket in
      the current slice. A status outside the 1024 status counters panics. */
  function Record(s: Stats, buckets: nat, status: int, bucket: nat, slot: nat): (r: Result<Stats>)
    requires Shaped(s, buckets) && bucket < buckets && slot < Window
    ensures r.Fail? <==> !(0 <= status < StatusSlots)
    ensures r.Fail? ==> r.fault == Panic(IndexOutOfRange)
  {
    if !(0 <= status < StatusSlots) then Fail(Panic(IndexOutOfRange))
    else
      var s1 := s.(received := s.received + 1, responses := Bump(s.responses, status));
      if IsOk(status) then Ok(s1.(ok := BumpGrid(s.ok, slot, bucket)))
      else Ok(s1.(bad := BumpGrid(s.bad, slot, bucket)))
  }

  /** One turn of `attack`'s loop: when the corpus yields a request and
      `http.NewRequest` accepts it, count it as sent, then record how it
      ended. `builds` says which requests `http.NewRequest` accepts (it
      rejects, for one, a method that is not a valid token or a URL that does
      not parse); when it rejects the picked one, the cursor has moved on but
      nothing is counted. `raw` is the truncated logarithm of the latency and
      `nanos` the instant the request ended. When the corpus is empty nothing
      happens. */
  function AttackStep(s: Stats, t: Targeter, buckets: nat, builds: Request -> bool, o: Outcome, raw: int, nanos: int)
    : (r: Result<(Stats, Targeter)>)
    requires Shaped(s, buckets) && buckets >= 1
  {
    match NextRequest(t)
    case Fail(_) => Ok((s, t))
    case Ok((t1, req)) =>
      if !builds(req) then Ok((s, t1))
      else
        var s1 := s.(sent := s.sent + 1);
        var status := StatusOf(o);
        if !(0 <= status < StatusSlots) then Fail(Panic(IndexOutOfRange))
        else
          var slot :- TimingsSlot(nanos);
          var s2 :- Record(s1, buckets, status, BucketOf(raw, buckets), slot);
          Ok((s2, t1))
  }

  /** Sum of all counters of a matrix. */
  function GridTotal(g: seq<seq<nat>>): nat
    decreases |g|
  {
    if |g| == 0 then 0 else Total(g[0]) + GridTotal(g[1..])
  }

  function Total(xs: seq<nat>): nat
    decreases |xs|
  {
    if |xs| == 0 then 0 else xs[0] + Total(xs[1..])
  }

  /** Adding one to a counter adds one to the total. */
  lemma {:induction false} TotalBump(xs: seq<nat>, k: nat)
    requires k < |xs|
    ensures Total(Bump(xs, k)) == Total(xs) + 1
    decreases |xs|
  {
    if k > 0 {
      assert Bump(xs, k)[1..] == Bump(xs[1..], k - 1);
      TotalBump(xs[1..], k - 1);
    } else {
      assert Bump(xs, k)[1..] == xs[1..];
    }
  }

  /** Adding one to a matrix entry adds one to the matrix total. */
  lemma {:induction false} GridTotalBump(g: seq<seq<nat>>, i: nat, j: nat)
    requires i < |g| && j < |g[i]|
    ensures GridTotal(BumpGrid(g, i, j)) == GridTotal(g) + 1
    decreases |g|
  {
    if i > 0 {
      assert BumpGrid(g, i, j)[1..] == BumpGrid(g[1..], i - 1, j);
      GridTotalBump(g[1..], i - 1, j);
    } else {
      TotalBump(g[0], j);
      assert BumpGrid(g, i, j)[1..] == g[1..];
    }
  }

  /** Every recorded response is counted once as received, once under its
      status, and once as good or bad, in the right one of the two, and the
      shape is kept. */
  lemma RecordCounts(s: Stats, buckets: nat, status: int, bucket: nat, slot: nat)
    requires Shaped(s, buckets) && bucket < buckets && slot < Window && 0 <= status < StatusSlots
    ensures var r := Record(s, buckets, status, bucket, slot).value;
      && Shaped(r, buckets) && r.sent == s.sent && r.received == s.received + 1
      && Total(r.responses) == Total(s.responses) + 1
      && r.responses[status] == s.responses[status] + 1
      && (IsOk(status) ==> GridTotal(r.ok) == GridTotal(s.ok) + 1 && r.bad == s.bad
                           && r.ok[slot][bucket] == s.ok[slot][bucket] + 1)
      && (!IsOk(status) ==> GridTotal(r.bad) == GridTotal(s.bad) + 1 && r.ok == s.ok
                            && r.bad[slot][bucket] == s.bad[slot][bucket] + 1)
      && (forall k :: 0 <= k < StatusSlots && k != status ==> r.responses[k] == s.responses[k])
      && (forall i, j :: 0 <= i < Window && 0 <= j < buckets && (i != slot || j != bucket) ==>
            r.ok[i][j] == s.ok[i][j] && r.bad[i][j] == s.bad[i][j])
  {
    TotalBump(s.responses, status);
    if IsOk(status) {
      GridTotalBump(s.ok, slot, bucket);
    } else {
      GridTotalBump(s.bad, slot, bucket);
    }
  }

  /** The step of `attack` counts a request as sent exactly when the corpus
      is not empty and the picked request builds, and a transport error is
      recorded as status 0, a bad outcome. */
  lemma AttackStepCounts(s: Stats, t: Targeter, buckets: nat, builds: Request -> bool, o: Outcome, raw: int, nanos: int)
    requires Shaped(s, buckets) && buckets >= 1 && nanos >= 0
    requires o.TransportError? || 0 <= o.code < StatusSlots
    ensures var r := AttackStep(s, t, buckets, builds, o, raw, nanos);
      var built := |t.requests| > 0 && builds(NextRequest(t).value.1);
      && r.Ok?
      && (|t.requests| == 0 ==> r.value == (s, t))
      && (|t.requests| > 0 ==> r.value.1 == NextRequest(t).value.0)
      && (r.value.0.sent == s.sent + 1 <==> built)
      && (!built ==> r.value.0 == s)
      && (built ==> r.value.0.received == s.received + 1)
      && (built && o.TransportError? ==>
            && r.value.0.ok == s.ok && r.value.0.responses[0] == s.responses[0] + 1
            && GridTotal(r.value.0.bad) == GridTotal(s.bad) + 1)
      && (built && o.Response? && IsOk(o.code) ==>
            && r.value.0.bad == s.bad && r.value.0.responses[o.code] == s.responses[o.code] + 1
            && GridTotal(r.value.0.ok) == GridTotal(s.ok) + 1)
      && (built && o.Response? && !IsOk(o.code) ==>
            && r.value.0.ok == s.ok && r.value.0.responses[o.code] == s.responses[o.code] + 1
            && GridTotal(r.value.0.bad) == GridTotal(s.bad) + 1)
      && (built ==>
            var slot := (nanos / SliceNanos) % Window;
            var bucket := BucketOf(raw, buckets);
            if IsOk(StatusOf(o)) then r.value.0.ok[slot][bucket] == s.ok[slot][bucket] + 1
            else r.value.0.bad[slot][bucket] == s.bad[slot][bucket] + 1)
  {
    if |t.requests| > 0 && builds(NextRequest(t).value.1) {
      var status := StatusOf(o);
      TimingsSlotAfterEpoch(nanos);
      var slot := TimingsSlot(nanos).value;
      RecordCounts(s.(sent := s.sent + 1), buckets, status, BucketOf(raw, buckets), slot);
    }
  }

  // ---------------------------------------------------------------------
  // Expiry

  /** `g` with row `i` set to zero. */
  function ClearRow(g: seq<seq<nat>>, i: nat): (r: seq<seq<nat>>)
    requires i < |g|
    ensures |r| == |g| && AllZero(r[i]) && |r[i]| == |g[i]|
    ensures forall k :: 0 <= k < |g| && k != i ==> r[k] == g[k]
  {
    g[i := Zeros(|g[i]|)]
  }

  /** The clean-up every 100 ms: the slice the next tick will write to (the
      oldest of the ring) is zeroed, good and bad alike. */
  function Expire(s: Stats, nanos: int): (r: Result<Stats>)
    requires |s.ok| == Window && |s.bad| == Window
  {
    var slot :- TimingsSlot(nanos + SliceNanos);
    Ok(s.(ok := ClearRow(s.ok, slot), bad := ClearRow(s.bad, slot)))
  }

  /** Expiry clears exactly the slice after the current one, and so never
      the slice being written now. */
  lemma ExpireNext(s: Stats, buckets: nat, nanos: int)
    requires Shaped(s, buckets) && nanos >= 0
    ensures var cur := TimingsSlot(nanos).value; var next := (cur + 1) % Window;
      && Expire(s, nanos).Ok?
      && next != cur
      && Shaped(Expire(s, nanos).value, buckets)
      && AllZero(Expire(s, nanos).value.ok[next]) && AllZero(Expire(s, nanos).value.bad[next])
      && Expire(s, nanos).value.ok[cur] == s.ok[cur] && Expire(s, nanos).value.bad[cur] == s.bad[cur]
      && (forall k :: 0 <= k < Window && k != next ==> Expire(s, nanos).value.ok[k] == s.ok[k])
      && (forall k :: 0 <= k < Window && k != next ==> Expire(s, nanos).value.bad[k] == s.bad[k])
  {
    NextSlot(nanos);
  }
}
