/** The rate controller of `ticker`: the desired request rate per second and
    the ticker that paces the workers. The ticker exists only while the rate
    is positive; its period is one second divided by the rate, in whole
    nanoseconds. */
module RateControl {
  import opened Faults

  const NanosPerSecond: nat := 1_000_000_000
  /** Rate change sent by the `k` key. */
  const RateIncreaseStep: int := 100
  /** Rate change sent by the `j` key. */
  const RateDecreaseStep: int := -100

  /** The pacing ticker: stopped, or firing every `period` nanoseconds. */
  datatype Ticker = Stopped | Running(period: nat)

  datatype Controller = Controller(desired: int, ticker: Ticker)

  /** What the controller keeps true: a rate that is never negative, and a
      ticker that runs exactly when the rate is positive, at the period that
      rate gives. */
  predicate Valid(c: Controller) {
    && c.desired >= 0
    && (c.ticker.Running? <==> c.desired > 0)
    && (c.ticker.Running? ==> c.ticker.period == NanosPerSecond / c.desired && c.ticker.period > 0)
  }

  /** `time.NewTicker(time.Duration(1e9 / rate))` for a positive rate: a rate
      above one per nanosecond makes the period zero and `NewTicker` panics. */
  function NewTicker(rate: int): (r: Result<Ticker>)
    requires rate > 0
    ensures r.Ok? <==> rate <= NanosPerSecond
    ensures r.Ok? ==> r.value.Running? && r.value.period == NanosPerSecond / rate && r.value.period >= 1
    ensures r.Fail? ==> r.fault == Panic(NonPositiveTickerInterval)
  {
    var period := NanosPerSecond / rate;
    if period <= 0 then Fail(Panic(NonPositiveTickerInterval)) else Ok(Running(period))
  }

  /** The start of `ticker(rate)`: the rate from the command line becomes the
      desired rate. A rate of zero divides by zero. */
  function Start(rate: nat): (r: Result<Controller>)
    ensures r.Ok? <==> 0 < rate <= NanosPerSecond
    ensures rate == 0 ==> r == Fail(Panic(IntegerDivideByZero))
    ensures rate > NanosPerSecond ==> r == Fail(Panic(NonPositiveTickerInterval))
    ensures r.Ok? ==> Valid(r.value) && r.value.desired == rate
  {
    if rate == 0 then Fail(Panic(IntegerDivideByZero))
    else
      var t :- NewTicker(rate);
      Ok(Controller(rate, t))
  }

  /** A message on `rateChanger`: the old ticker stops, the desired rate
      moves by `delta`; when the result is positive a new ticker starts at
      the new period, otherwise the rate is set to zero and no ticker runs. */
  function ChangeRate(c: Controller, delta: int): (r: Result<Controller>)
  {
    var newRate := c.desired + delta;
    if newRate > 0 then
      var t :- NewTicker(newRate);
      Ok(Controller(newRate, t))
    else
      Ok(Controller(0, Stopped))
  }

  function MaxZero(n: int): nat {
    if n > 0 then n else 0
  }

  /** After a change the rate is the old rate plus the change, or zero when
      that is not positive; the controller stays valid; the only failure is
      a rate above one per nanosecond. */
  lemma ChangeRateSpec(c: Controller, delta: int)
    ensures ChangeRate(c, delta).Ok? <==> c.desired + delta <= NanosPerSecond
    ensures ChangeRate(c, delta).Fail? ==> ChangeRate(c, delta).fault == Panic(NonPositiveTickerInterval)
    ensures ChangeRate(c, delta).Ok? ==>
      && ChangeRate(c, delta).value.desired == MaxZero(c.desired + delta)
      && Valid(ChangeRate(c, delta).value)
  {
  }

  /** Pressing `k` then `j` comes back to the same controller while the
      rate stays positive. */
  lemma UpThenDown(c: Controller)
    requires Valid(c) && c.desired > 0 && c.desired + RateIncreaseStep <= NanosPerSecond
    ensures ChangeRate(c, RateIncreaseStep).Ok?
    ensures ChangeRate(ChangeRate(c, RateIncreaseStep).value, RateDecreaseStep) == Ok(c)
  {
  }

  /** Pressing `j` at a rate of at most 100 stops the ticker; pressing it
      again changes nothing, since the rate was reset to zero. */
  lemma DownToStop(c: Controller)
    requires Valid(c) && c.desired <= -RateDecreaseStep
    ensures ChangeRate(c, RateDecreaseStep) == Ok(Controller(0, Stopped))
    ensures ChangeRate(Controller(0, Stopped), RateDecreaseStep) == Ok(Controller(0, Stopped))
  {
  }

  /** From a stopped controller, `k` starts a ticker at 100 requests per
      second: a period of 10 ms. */
  lemma UpFromStopped()
    ensures ChangeRate(Controller(0, Stopped), RateIncreaseStep) == Ok(Controller(100, Running(10_000_000)))
  {
  }
}
