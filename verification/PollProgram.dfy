/**
  The control flow of `poll_once` and `run_forever` over the step machine: which command
  each phase awaits, and what one loop iteration does for given answers of the outside world.
*/
module PollProgram {
  import opened StreamProtocol

  /** What happens while one command is awaited: outside steps first, then the command. */
  datatype Await = Await(before: seq<EnvStep>, outcome: Outcome)

  datatype PollScript = PollScript(
    readPending: Await, readNew: Await, ackInvalid: Await, store: Await, ackValid: Await)

  datatype Iteration = Iteration(ensureGroup: Await, poll: PollScript)

  const CALM := Await([], Done)
  const CALM_POLL := PollScript(CALM, CALM, CALM, CALM, CALM)
  const CALM_ITERATION := Iteration(CALM, CALM_POLL)

  function EnvRun(b: Broker, steps: seq<EnvStep>): Broker {
    if steps == [] then b
    else EnvApply(EnvRun(b, steps[..|steps| - 1]), steps[|steps| - 1])
  }

  /** How many commands may still follow in the current poll. */
  function Rank(phase: Phase): nat {
    match phase
    case ReadPending => 5
    case ReadNew => 4
    case AckInvalid(_) => 3
    case Store(_) => 2
    case AckValid(_) => 1
    case _ => 0
  }

  function AwaitOf(phase: Phase, f: PollScript): Await {
    match phase
    case ReadPending => f.readPending
    case ReadNew => f.readNew
    case AckInvalid(_) => f.ackInvalid
    case Store(_) => f.store
    case _ => f.ackValid
  }

  function OneCommand(c: Config, s: State, a: Await): State {
    CommandApply(c, s.(broker := EnvRun(s.broker, a.before)), a.outcome)
  }

  /** Finish the poll that is under way. */
  function Continue(c: Config, s: State, f: PollScript): State
    decreases Rank(s.phase)
  {
    if Rank(s.phase) == 0 then s else Continue(c, OneCommand(c, s, AwaitOf(s.phase, f)), f)
  }

  /** One iteration of `run_forever`, from one loop top to the next. */
  function Iterate(c: Config, s: State, it: Iteration): State {
    if s.phase == LoopTop(false) then
      var b := EnvRun(s.broker, it.ensureGroup.before);
      Continue(c, Apply(c, s.(broker := b), EnsureGroup(it.ensureGroup.outcome)), it.poll)
    else Continue(c, Apply(c, s, BeginPoll), it.poll)
  }

  function RunScript(c: Config, s: State, script: seq<Iteration>): State {
    if script == [] then s
    else Iterate(c, RunScript(c, s, script[..|script| - 1]), script[|script| - 1])
  }

  // ---------------------------------------------------------------- the program is a run of the machine

  lemma {:induction false} RunAppends(c: Config, s: State, xs: seq<Step>, ys: seq<Step>)
    ensures Run(c, Run(c, s, xs), ys) == Run(c, s, xs + ys)
  {
    if ys == [] {
      assert xs + ys == xs;
    } else {
      RunAppends(c, s, xs, ys[..|ys| - 1]);
      assert (xs + ys)[..|xs + ys| - 1] == xs + ys[..|ys| - 1];
    }
  }

  lemma {:induction false} EnvRunIsRun(c: Config, s: State, env: seq<EnvStep>) returns (steps: seq<Step>)
    ensures Run(c, s, steps) == s.(broker := EnvRun(s.broker, env))
  {
    steps := [];
    if env == [] {
    } else {
      var init := EnvRunIsRun(c, s, env[..|env| - 1]);
      steps := init + [Env(env[|env| - 1])];
      assert steps[..|steps| - 1] == init;
    }
  }

  lemma AwaitIsRun(c: Config, s: State, env: seq<EnvStep>, step: Step) returns (steps: seq<Step>)
    ensures Run(c, s, steps) == Apply(c, s.(broker := EnvRun(s.broker, env)), step)
  {
    var init := EnvRunIsRun(c, s, env);
    steps := init + [step];
    assert steps[..|steps| - 1] == init;
  }

  lemma {:induction false} ContinueIsRun(c: Config, s: State, f: PollScript) returns (steps: seq<Step>)
    ensures Run(c, s, steps) == Continue(c, s, f)
    decreases Rank(s.phase)
  {
    if Rank(s.phase) == 0 {
      steps := [];
    } else {
      var a := AwaitOf(s.phase, f);
      var one := AwaitIsRun(c, s, a.before, Command(a.outcome));
      var rest := ContinueIsRun(c, OneCommand(c, s, a), f);
      RunAppends(c, s, one, rest);
      steps := one + rest;
    }
  }

  lemma IterateIsRun(c: Config, s: State, it: Iteration) returns (steps: seq<Step>)
    ensures Run(c, s, steps) == Iterate(c, s, it)
  {
    var one;
    if s.phase == LoopTop(false) {
      one := AwaitIsRun(c, s, it.ensureGroup.before, EnsureGroup(it.ensureGroup.outcome));
    } else {
      one := AwaitIsRun(c, s, [], BeginPoll);
    }
    var rest := ContinueIsRun(c, Run(c, s, one), it.poll);
    RunAppends(c, s, one, rest);
    steps := one + rest;
  }

  /** Every execution of the retry loop is a run of the step machine. */
  lemma {:induction false} ScriptIsRun(c: Config, s: State, script: seq<Iteration>) returns (steps: seq<Step>)
    ensures Run(c, s, steps) == RunScript(c, s, script)
  {
    steps := [];
    if script == [] {
    } else {
      var n := |script| - 1;
      var init := ScriptIsRun(c, s, script[..n]);
      var last := IterateIsRun(c, RunScript(c, s, script[..n]), script[n]);
      RunAppends(c, s, init, last);
      steps := init + last;
    }
  }

  /** The loop body always comes back to the loop top. */
  lemma {:induction false} ContinueEndsAtLoopTop(c: Config, s: State, f: PollScript)
    ensures Rank(Continue(c, s, f).phase) == 0
    ensures s.phase != Down ==> Continue(c, s, f).phase.LoopTop?
    decreases Rank(s.phase)
  {
    if Rank(s.phase) == 0 {
    } else {
      ContinueEndsAtLoopTop(c, OneCommand(c, s, AwaitOf(s.phase, f)), f);
    }
  }

  lemma {:induction false} EnvRunOnlyAppends(b: Broker, steps: seq<EnvStep>)
    ensures b.entries <= EnvRun(b, steps).entries
  {
    if steps == [] {
    } else {
      EnvRunOnlyAppends(b, steps[..|steps| - 1]);
    }
  }

  lemma IterateKeepsInv(c: Config, s: State, it: Iteration, p: nat) returns (q: nat)
    requires Inv(c, s, p)
    ensures p <= q && Inv(c, Iterate(c, s, it), q)
  {
    var steps := IterateIsRun(c, s, it);
    q := RunKeepsInv(c, s, steps, p);
  }
}
