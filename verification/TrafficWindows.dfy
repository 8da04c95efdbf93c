/** The traffic scheduler: phases come in windows that last exactly as long as they were drawn for. */
module TrafficWindows {
  import opened Wrappers
  import opened Events

  datatype Rates = Rates(slow: nat, normal: nat, burst: nat)

  datatype ProfileConfig = ProfileConfig(rates: Rates, minPhaseSeconds: nat, maxPhaseSeconds: nat)

  datatype Draw = Draw(phase: TrafficPhase, durationSeconds: nat)

  datatype Window = Window(phase: TrafficPhase, durationSeconds: nat, eventCapacity: nat)

  function RateOf(rates: Rates, phase: TrafficPhase): nat {
    match phase
    case Slow => rates.slow
    case Normal => rates.normal
    case Burst => rates.burst
  }

  predicate IsConfig(c: ProfileConfig) {
    && c.rates.slow >= 1 && c.rates.normal >= 1 && c.rates.burst >= 1
    && 1 <= c.minPhaseSeconds <= c.maxPhaseSeconds
  }

  /** The random source: draw number `k`, always within the configured durations. */
  ghost predicate IsSource(c: ProfileConfig, draws: nat -> Draw) {
    forall k :: c.minPhaseSeconds <= draws(k).durationSeconds <= c.maxPhaseSeconds
  }

  function WindowOf(c: ProfileConfig, d: Draw): Window {
    Window(d.phase, d.durationSeconds, d.durationSeconds * RateOf(c.rates, d.phase))
  }

  function Repeated(phase: TrafficPhase, count: nat): seq<TrafficPhase> {
    seq(count, i => phase)
  }

  /** The phases of the first `k` windows, each window repeated for its full capacity. */
  function Schedule(c: ProfileConfig, draws: nat -> Draw, k: nat): seq<TrafficPhase> {
    if k == 0 then []
    else
      var w := WindowOf(c, draws(k - 1));
      Schedule(c, draws, k - 1) + Repeated(w.phase, w.eventCapacity)
  }

  function Seconds(draws: nat -> Draw, k: nat): nat {
    if k == 0 then 0 else Seconds(draws, k - 1) + draws(k - 1).durationSeconds
  }

  /** Seconds between events of a phase, over the reals. */
  function Delay(c: ProfileConfig, phase: TrafficPhase): real
    requires IsConfig(c)
  {
    1.0 / (RateOf(c.rates, phase) as real)
  }

  function TotalDelay(delay: TrafficPhase -> real, phases: seq<TrafficPhase>): real {
    if phases == [] then 0.0
    else TotalDelay(delay, phases[..|phases| - 1]) + delay(phases[|phases| - 1])
  }

  function DelayOf(c: ProfileConfig): TrafficPhase -> real
    requires IsConfig(c)
  {
    phase => Delay(c, phase)
  }

  lemma CapacityPositive(duration: nat, rate: nat)
    requires duration >= 1 && rate >= 1
    ensures duration * rate >= 1
  {
    assert duration * rate == (duration - 1) * rate + rate;
  }

  function DelayOfMany(delay: real, count: nat): real {
    if count == 0 then 0.0 else DelayOfMany(delay, count - 1) + delay
  }

  lemma Distributes(a: real, b: real, c: real)
    ensures (a + b) * c == a * c + b * c
  {
  }

  lemma {:induction false} ManyIsProduct(delay: real, count: nat)
    ensures DelayOfMany(delay, count) == (count as real) * delay
  {
    if count == 0 {
    } else {
      ManyIsProduct(delay, count - 1);
      var fewer := (count - 1) as real;
      assert count as real == fewer + 1.0;
      Distributes(fewer, 1.0, delay);
    }
  }

  lemma {:induction false} DelayOfRepeated(
    delay: TrafficPhase -> real, before: seq<TrafficPhase>, phase: TrafficPhase, count: nat)
    ensures TotalDelay(delay, before + Repeated(phase, count)) ==
            TotalDelay(delay, before) + DelayOfMany(delay(phase), count)
  {
    var all := before + Repeated(phase, count);
    if count == 0 {
      assert all == before;
    } else {
      DelayOfRepeated(delay, before, phase, count - 1);
      assert all[..|all| - 1] == before + Repeated(phase, count - 1);
    }
  }

  lemma FullWindowLasts(duration: nat, rate: nat)
    requires rate >= 1
    ensures ((duration * rate) as real) * (1.0 / (rate as real)) == duration as real
  {
    assert (duration * rate) as real == (duration as real) * (rate as real);
    assert (rate as real) * (1.0 / (rate as real)) == 1.0;
  }

  lemma WindowLasts(c: ProfileConfig, d: Draw)
    requires IsConfig(c)
    ensures DelayOfMany(Delay(c, d.phase), WindowOf(c, d).eventCapacity) == d.durationSeconds as real
  {
    ManyIsProduct(Delay(c, d.phase), WindowOf(c, d).eventCapacity);
    FullWindowLasts(d.durationSeconds, RateOf(c.rates, d.phase));
  }

  lemma {:induction false} WindowsAddUp(c: ProfileConfig, draws: nat -> Draw, k: nat, delay: TrafficPhase -> real)
    requires forall d: Draw :: DelayOfMany(delay(d.phase), WindowOf(c, d).eventCapacity) == d.durationSeconds as real
    ensures TotalDelay(delay, Schedule(c, draws, k)) == Seconds(draws, k) as real
  {
    if k == 0 {
    } else {
      var w := WindowOf(c, draws(k - 1));
      WindowsAddUp(c, draws, k - 1, delay);
      DelayOfRepeated(delay, Schedule(c, draws, k - 1), w.phase, w.eventCapacity);
    }
  }

  /** The delays of any number of full windows add up to exactly the seconds drawn for them. */
  lemma WindowsLastTheirDuration(c: ProfileConfig, draws: nat -> Draw, k: nat)
    requires IsConfig(c)
    ensures TotalDelay(DelayOf(c), Schedule(c, draws, k)) == Seconds(draws, k) as real
  {
    forall d: Draw ensures DelayOfMany(DelayOf(c)(d.phase), WindowOf(c, d).eventCapacity) == d.durationSeconds as real {
      WindowLasts(c, d);
    }
    WindowsAddUp(c, draws, k, DelayOf(c));
  }

  /** Which rate governs which phase: how many events a window holds, and how far apart they are. */
  lemma PhaseRates(c: ProfileConfig, d: Draw)
    requires IsConfig(c)
    ensures d.phase == Slow ==>
              WindowOf(c, d).eventCapacity == d.durationSeconds * c.rates.slow
              && Delay(c, Slow) == 1.0 / c.rates.slow as real
    ensures d.phase == Normal ==>
              WindowOf(c, d).eventCapacity == d.durationSeconds * c.rates.normal
              && Delay(c, Normal) == 1.0 / c.rates.normal as real
    ensures d.phase == Burst ==>
              WindowOf(c, d).eventCapacity == d.durationSeconds * c.rates.burst
              && Delay(c, Burst) == 1.0 / c.rates.burst as real
    ensures WindowOf(c, d).phase == d.phase && WindowOf(c, d).durationSeconds == d.durationSeconds
  {
  }

  /** How many events the first `k` windows hold together. */
  function EventsBefore(c: ProfileConfig, draws: nat -> Draw, k: nat): nat {
    if k == 0 then 0 else EventsBefore(c, draws, k - 1) + WindowOf(c, draws(k - 1)).eventCapacity
  }

  lemma {:induction false} ScheduleLength(c: ProfileConfig, draws: nat -> Draw, k: nat)
    ensures |Schedule(c, draws, k)| == EventsBefore(c, draws, k)
  {
    if k == 0 {
    } else {
      ScheduleLength(c, draws, k - 1);
    }
  }

  /** The phase of each event in the schedule is that of the window its number falls into. */
  lemma {:induction false} ScheduleMeaning(c: ProfileConfig, draws: nat -> Draw, k: nat, w: nat, i: nat)
    requires w < k && EventsBefore(c, draws, w) <= i < EventsBefore(c, draws, w + 1)
    ensures i < |Schedule(c, draws, k)| && Schedule(c, draws, k)[i] == draws(w).phase
  {
    ScheduleLength(c, draws, k - 1);
    if w < k - 1 {
      ScheduleMeaning(c, draws, k - 1, w, i);
    }
  }

  class TrafficProfile {
    const config: ProfileConfig
    const draws: nat -> Draw
    var drawn: nat
    var currentWindow: Option<Window>
    var remainingEvents: int
    ghost var emitted: seq<TrafficPhase>

    /** What was emitted, completed by the rest of the current window, is a whole number of windows. */
    ghost predicate Valid()
      reads this
    {
      && IsConfig(config) && IsSource(config, draws)
      && remainingEvents >= 0
      && (remainingEvents > 0 ==> currentWindow.Some?)
      && (currentWindow.Some? <==> drawn > 0)
      && (currentWindow.Some? ==> currentWindow.value == WindowOf(config, draws(drawn - 1)))
      && (currentWindow.Some? ==> remainingEvents < currentWindow.value.eventCapacity)
      && emitted + (if currentWindow.Some? then Repeated(currentWindow.value.phase, remainingEvents) else []) ==
         Schedule(config, draws, drawn)
    }

    constructor (config: ProfileConfig, draws: nat -> Draw)
      requires IsConfig(config) && IsSource(config, draws)
      ensures Valid() && this.config == config && this.draws == draws && drawn == 0 && emitted == []
    {
      this.config, this.draws := config, draws;
      drawn, currentWindow, remainingEvents, emitted := 0, None, 0, [];
    }

    /** Never the uninitialised-window error; a new window is drawn only when the last one is used up. */
    method NextPhase() returns (r: Result<TrafficPhase, ()>)
      requires Valid()
      modifies this
      ensures Valid() && r.Ok? && emitted == old(emitted) + [r.value]
      ensures drawn == old(drawn) + if old(remainingEvents) == 0 then 1 else 0
      ensures old(remainingEvents) == 0 <==> old(emitted) == Schedule(config, draws, old(drawn))
    {
      if remainingEvents <= 0 {
        var draw := draws(drawn);
        assert config.minPhaseSeconds <= draw.durationSeconds;
        CapacityPositive(draw.durationSeconds, RateOf(config.rates, draw.phase));
        assert emitted == Schedule(config, draws, drawn);
        drawn := drawn + 1;
        currentWindow := Some(WindowOf(config, draw));
        remainingEvents := currentWindow.value.eventCapacity;
      }
      assert emitted + Repeated(currentWindow.value.phase, remainingEvents) == Schedule(config, draws, drawn);
      ghost var phase := currentWindow.value.phase;
      assert Repeated(phase, remainingEvents) == [phase] + Repeated(phase, remainingEvents - 1);
      remainingEvents := remainingEvents - 1;
      if currentWindow.None? {
        return Err(());
      }
      emitted := emitted + [currentWindow.value.phase];
      r := Ok(currentWindow.value.phase);
    }

    /** Any run is a prefix of the schedule, and all its windows but the last are complete. */
    method Run(count: nat) returns (phases: seq<TrafficPhase>)
      requires Valid() && emitted == [] && drawn == 0
      modifies this
      ensures Valid() && |phases| == count && emitted == phases
      ensures phases <= Schedule(config, draws, drawn)
      ensures drawn > 0 ==> |Schedule(config, draws, drawn - 1)| < count
    {
      phases := [];
      for n := 0 to count
        invariant Valid() && emitted == phases && |phases| == n
        invariant drawn > 0 ==> |Schedule(config, draws, drawn - 1)| < n
      {
        var r := NextPhase();
        phases := phases + [r.value];
      }
    }
  }
}
