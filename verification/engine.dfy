/** The key-press listener: `q` and Ctrl-C stop the program, `r` resets the
    statistics, `k` and `j` raise and lower the desired rate by 100. The
    whole mutable state of the program is one record; each key is a pure
    transition on it. */
module Engine {
  import opened Faults
  import opened Metrics
  import opened RateControl

  datatype Key = CtrlC | Char(c: char)

  datatype State = State(stats: Stats, rate: Controller, running: bool)

  /** The effect of one key press. */
  function HandleKey(s: State, k: Key): (r: Result<State>)
  {
    match k
    case CtrlC => Ok(s.(running := false))
    case Char(c) =>
      if c == 'q' then Ok(s.(running := false))
      else if c == 'r' then Ok(s.(stats := Reset(s.stats)))
      else if c == 'k' then
        var rate :- ChangeRate(s.rate, RateIncreaseStep);
        Ok(s.(rate := rate))
      else if c == 'j' then
        var rate :- ChangeRate(s.rate, RateDecreaseStep);
        Ok(s.(rate := rate))
      else Ok(s)
  }

  /** `r` zeroes every counter, keeps the counters' shape, and leaves the
      desired rate and its ticker as they were. */
  lemma ResetKeepsRate(s: State, buckets: nat)
    requires Shaped(s.stats, buckets)
    ensures HandleKey(s, Char('r')) == Ok(State(Init(buckets), s.rate, s.running))
    ensures Zeroed(HandleKey(s, Char('r')).value.stats)
  {
    ResetIsInit(s.stats, buckets);
  }

  /** The rate keys move the desired rate by 100 (never below zero) and
      touch nothing else; a valid controller stays valid. */
  lemma RateKeysKeepStats(s: State, c: char)
    requires c == 'k' || c == 'j'
    requires s.rate.desired + (if c == 'k' then RateIncreaseStep else RateDecreaseStep) <= NanosPerSecond
    ensures HandleKey(s, Char(c)).Ok?
    ensures HandleKey(s, Char(c)).value.stats == s.stats && HandleKey(s, Char(c)).value.running == s.running
    ensures HandleKey(s, Char(c)).value.rate.desired
         == MaxZero(s.rate.desired + if c == 'k' then RateIncreaseStep else RateDecreaseStep)
    ensures Valid(HandleKey(s, Char(c)).value.rate)
  {
    ChangeRateSpec(s.rate, if c == 'k' then RateIncreaseStep else RateDecreaseStep);
  }

  /** Only `q` and Ctrl-C stop the program; any other key leaves it running. */
  lemma OnlyQuitStops(s: State, k: Key)
    requires s.running && HandleKey(s, k).Ok?
    ensures !HandleKey(s, k).value.running <==> (k == CtrlC || k == Char('q'))
  {
  }

  /** A key the listener does not know changes nothing. */
  lemma OtherKeysIgnored(s: State, c: char)
    requires c !in {'q', 'r', 'k', 'j'}
    ensures HandleKey(s, Char(c)) == Ok(s)
  {
  }
}
