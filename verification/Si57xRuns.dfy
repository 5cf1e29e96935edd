/**
 Whole runs of an oscillator controller: any sequence of public calls (`modules/si57x_ctrl.cc`).
 */
module Si57xRuns {
  import opened Words
  import opened Si57xProtocol
  import Q = Si57xSearch
  import X = Si57xController

  type Frequency = f: real | 0.0 <= f witness 0.0

  /** A public call; `Configure` stands for any edit of the divider registers by name. */
  datatype Call =
    | Configure(cfg: Word, lsb: Word)
    | SetFreq(freq: Frequency)
    | WriteParams
    | ApplyConfig
    | ReadStartupRegs

  /** What the calls leave behind: the log, the shadow registers and the crystal frequency. */
  datatype State = State(log: Log, image: Image, fxtal: Q.Double) {
    ghost predicate Valid() { image[CTL] == 0 && 0 < log.looks && (fxtal.Finite? ==> 0.0 <= fxtal.value) }
  }

  ghost function StateOf(c: X.Controller): State
    requires c.Valid()
    reads c, c.regs
  {
    State(c.log, c.regs[..], c.fxtal)
  }

  /** The state of a controller just attached */
  function Initial(m: Masks, d: Device): State
    requires MasksOk(m)
  {
    State(Look(m, d, Log([], 0)), [0, 0, 0, 0, 0, 0], Q.Finite(0.0))
  }

  /** What a call does, given what the device answers, and how it ends. */
  ghost predicate Next(m: Masks, d: Device, fstartup: real, s: State, call: Call, outcome: Outcome, s': State)
    requires MasksOk(m) && s.Valid()
  {
    match call
    case Configure(cfg, lsb) => outcome == Done && s' == s.(image := s.image[CFG := cfg][LSB := lsb])
    case SetFreq(freq) => s' == s.(image := s'.image) && FreqSet(m, s.image, s.fxtal, freq, outcome, s'.image)
    case WriteParams =>
      && s' == s.(log := Send(m, d, s.log, s.image))
      && outcome == if Busy(m, d, s.log.looks) then Thrown else Done
    case ApplyConfig => s' == s.(log := s'.log) && Step(s'.log, outcome) == Apply(m, d, s.log, s.image)
    case ReadStartupRegs =>
      && Step(s'.log, outcome) == Startup(m, d, s.log, s.image, fstartup) && 0 < s'.log.looks
      && s'.image == s.image
      && s'.fxtal == if outcome == Done then StartupCrystal(m, d(s'.log.looks - 1), fstartup) else s.fxtal
  }

  /** The states before and after every call of a run, and how the calls ended */
  ghost predicate IsRun(m: Masks, d: Device, fstartup: real, calls: seq<Call>, outcomes: seq<Outcome>,
      states: seq<State>)
    requires MasksOk(m)
  {
    && |outcomes| == |calls| && |states| == |calls| + 1
    && (forall i :: 0 <= i < |states| ==> states[i].Valid())
    && states[0] == Initial(m, d)
    && forall i :: 0 <= i < |calls| ==> Next(m, d, fstartup, states[i], calls[i], outcomes[i], states[i + 1])
  }

  /** How many calls applied the configuration, that is, did not throw. */
  function Applied(calls: seq<Call>, outcomes: seq<Outcome>): nat
    requires |calls| == |outcomes|
  {
    if calls == [] then 0
    else
      var last := |calls| - 1;
      Applied(calls[..last], outcomes[..last]) + if calls[last].ApplyConfig? && outcomes[last] != Thrown then 1 else 0
  }

  /** How many calls of `read_startup_regs` found something to ask for. */
  function Asked(m: Masks, d: Device, fstartup: real, calls: seq<Call>, states: seq<State>): nat
    requires MasksOk(m) && |states| == |calls| + 1
  {
    if calls == [] then 0
    else
      var last := |calls| - 1;
      Asked(m, d, fstartup, calls[..last], states[..last + 1])
      + if calls[last].ReadStartupRegs? && Asks(m, d, fstartup, states[last].log) then 1 else 0
  }

  /** One call keeps the log safe, and sends its own action only. */
  lemma NextKeeps(m: Masks, d: Device, fstartup: real, s: State, call: Call, outcome: Outcome, s': State)
    requires MasksOk(m) && s.Valid() && Next(m, d, fstartup, s, call, outcome, s') && Safe(m, d, s.log)
    ensures Safe(m, d, s'.log)
    ensures Sent(s'.log.trace, m.applyCfg)
            == Sent(s.log.trace, m.applyCfg) + if call.ApplyConfig? && outcome != Thrown then 1 else 0
    ensures Sent(s'.log.trace, m.readStrp)
            == Sent(s.log.trace, m.readStrp) + if call.ReadStartupRegs? && Asks(m, d, fstartup, s.log) then 1 else 0
  {
    match call
    case WriteParams =>
      AskingHas(m, s.image, m.applyCfg);
      SendKeeps(m, d, s.log, s.image);
    case ApplyConfig => ApplyKeeps(m, d, s.log, s.image);
    case ReadStartupRegs => StartupKeeps(m, d, s.log, s.image, fstartup);
    case _ =>
  }

  lemma InitialIsSafe(m: Masks, d: Device)
    requires MasksOk(m)
    ensures var log := Initial(m, d).log;
            Safe(m, d, log) && Sent(log.trace, m.applyCfg) == 0 && Sent(log.trace, m.readStrp) == 0
  {
    assert Safe(m, d, Log([], 0));
    LookKeeps(m, d, Log([], 0));
  }

  /**
   In every run, whatever the device answers: each write directly follows a read of the device that was not
   busy, the apply bit only follows the same configuration without it, it is sent exactly once for each
   `apply_config` that does not throw, and the other action exactly once for each call that finds it needed.
   */
  lemma {:induction false} RunsAreSafe(
      m: Masks, d: Device, fstartup: real, calls: seq<Call>, outcomes: seq<Outcome>, states: seq<State>)
    requires MasksOk(m) && IsRun(m, d, fstartup, calls, outcomes, states)
    ensures var log := states[|calls|].log;
            && Safe(m, d, log)
            && Sent(log.trace, m.applyCfg) == Applied(calls, outcomes)
            && Sent(log.trace, m.readStrp) == Asked(m, d, fstartup, calls, states)
    decreases |calls|
  {
    if calls == [] {
      InitialIsSafe(m, d);
    } else {
      var last := |calls| - 1;
      RunPrefix(m, d, fstartup, calls, outcomes, states);
      RunsAreSafe(m, d, fstartup, calls[..last], outcomes[..last], states[..last + 1]);
      NextKeeps(m, d, fstartup, states[last], calls[last], outcomes[last], states[last + 1]);
    }
  }

  lemma RunPrefix(
      m: Masks, d: Device, fstartup: real, calls: seq<Call>, outcomes: seq<Outcome>, states: seq<State>)
    requires MasksOk(m) && IsRun(m, d, fstartup, calls, outcomes, states) && calls != []
    ensures var last := |calls| - 1; IsRun(m, d, fstartup, calls[..last], outcomes[..last], states[..last + 1])
  {
  }

  /** Makes the calls one after the other on a new controller. */
  method Run(c: X.Controller, calls: seq<Call>) returns (outcomes: seq<Outcome>, ghost states: seq<State>)
    requires c.Valid() && StateOf(c) == Initial(c.m, c.device)
    modifies c, c.regs
    ensures c.Valid() && IsRun(c.m, c.device, c.fstartup, calls, outcomes, states) && StateOf(c) == states[|calls|]
    ensures Safe(c.m, c.device, c.log)
    ensures Sent(c.log.trace, c.m.applyCfg) == Applied(calls, outcomes)
    ensures Sent(c.log.trace, c.m.readStrp) == Asked(c.m, c.device, c.fstartup, calls, states)
  {
    outcomes, states := [], [StateOf(c)];
    for i := 0 to |calls|
      invariant c.Valid() && IsRun(c.m, c.device, c.fstartup, calls[..i], outcomes, states) && StateOf(c) == states[i]
    {
      var outcome := Make(c, calls[i]);
      RunGrows(c.m, c.device, c.fstartup, calls, i, outcomes, states, outcome, StateOf(c));
      outcomes, states := outcomes + [outcome], states + [StateOf(c)];
    }
    assert calls[..|calls|] == calls;
    RunsAreSafe(c.m, c.device, c.fstartup, calls, outcomes, states);
  }

  lemma RunGrows(m: Masks, d: Device, fstartup: real, calls: seq<Call>, i: nat, outcomes: seq<Outcome>,
      states: seq<State>, outcome: Outcome, s': State)
    requires MasksOk(m) && i < |calls| && IsRun(m, d, fstartup, calls[..i], outcomes, states)
    requires s'.Valid() && Next(m, d, fstartup, states[i], calls[i], outcome, s')
    ensures IsRun(m, d, fstartup, calls[..i + 1], outcomes + [outcome], states + [s'])
  {
    var calls', outcomes', states' := calls[..i + 1], outcomes + [outcome], states + [s'];
    forall k | 0 <= k < |calls'| ensures Next(m, d, fstartup, states'[k], calls'[k], outcomes'[k], states'[k + 1]) {
      if k < i {
        assert Next(m, d, fstartup, states[k], calls[..i][k], outcomes[k], states[k + 1]);
      }
    }
  }

  /** One call */
  method Make(c: X.Controller, call: Call) returns (outcome: Outcome)
    requires c.Valid()
    modifies c, c.regs
    ensures c.Valid() && old(StateOf(c)).Valid()
    ensures Next(c.m, c.device, c.fstartup, old(StateOf(c)), call, outcome, StateOf(c))
  {
    outcome := Done;
    match call {
      case Configure(cfg, lsb) =>
        c.regs[CFG], c.regs[LSB] := cfg, lsb;
      case SetFreq(freq) =>
        outcome := MakeSetFreq(c, freq);
      case WriteParams =>
        var ok := c.WriteParams();
        outcome := if ok then Done else Thrown;
      case ApplyConfig =>
        outcome := c.ApplyConfig();
      case ReadStartupRegs =>
        outcome := c.ReadStartupRegs();
    }
  }

  method MakeSetFreq(c: X.Controller, freq: Frequency) returns (outcome: Outcome)
    requires c.Valid()
    modifies c, c.regs
    ensures c.Valid() && old(StateOf(c)).Valid()
    ensures Next(c.m, c.device, c.fstartup, old(StateOf(c)), SetFreq(freq), outcome, StateOf(c))
  {
    outcome := c.SetFreq(freq);
  }
}
