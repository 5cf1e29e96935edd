/**
 Whole runs of acquisition controllers (`modules/acq.cc`): any sequence of public calls on one of them,
 and several of them on one board.
 */
module AcqRuns {
  import opened Words
  import Bits
  import A = AcqController
  import D = AcqReadout
  import M = RamAllocator
  import P = AcqParams
  import R = AcqRing
  import S = Sdram

  /**
   A public call, with what the device's registers read during it; `Configure` stands for any edit of
   the settings.
   */
  datatype Call =
    | Configure(config: A.Config)
    | Start(desc: Word, atomDesc: Word)
    | Stop
    | Status(sta: Word)
    | Get(triggerPos: Word, destAddr: nat)

  /** What a call answers. */
  datatype Answer = Nothing | Start(result: A.StartResult) | Status(status: A.Status) | Get(outcome: D.Outcome)

  /** What the calls leave behind: the controller's fields, the writes to the core and the history. */
  datatype State = State(step: A.Step, latched: A.Latched, config: A.Config, writes: seq<A.DeviceWrite>,
      log: seq<A.Event>)

  ghost function StateOf(c: A.Controller): State
    reads c
  {
    State(c.step, c.latched, c.config, c.writes, c.log)
  }

  /** What a call answers and does. */
  ghost predicate Next(c: A.Controller, s: State, call: Call, answer: Answer, s': State)
    requires A.BitMasksOk(c.m) && A.FieldMasksOk(c.m) && D.Region(c.ramStart)
  {
    match call
    case Configure(config) => answer == Nothing && s' == s.(config := config)
    case Start(desc, atomDesc) =>
      answer.Start? && StartsOk(c, s, desc, atomDesc, answer.result, s')
    case Stop =>
      && answer == Nothing && s' == s.(step := A.StepStop, writes := s'.writes, log := s.log + [A.Stopped])
      && exists ctl: Word ::
           ctl % 4 == 2 && s'.writes == s.writes + [A.Control(ctl)]
    case Status(sta) =>
      var done := A.IsComplete(sta);
      && s' == (if s.step != A.StepStarted then s
                else s.(step := if done then A.StepDone else A.StepStarted, log := s.log + [A.Polled(done)]))
      && answer == Answer.Status(match s'.step
                          case StepStop => A.Idle
                          case StepStarted => A.InProgress
                          case StepDone => A.Finished)
    case Get(triggerPos, destAddr) =>
      answer.Get? && GetsOk(c, s, triggerPos, destAddr, answer.outcome, s')
  }

  /** A start answers by its step and settings alone; it latches the settings and launches, or leaves the core alone. */
  ghost predicate StartsOk(c: A.Controller, s: State, desc: Word, atomDesc: Word, result: A.StartResult, s': State)
    requires A.BitMasksOk(c.m) && A.FieldMasksOk(c.m) && D.Region(c.ramStart)
  {
    && result == (if s.step != A.StepStop then A.Thrown
                  else match A.StartError(s.config, desc, atomDesc) case None => A.Success case Some(e) => e)
    && if result == A.Success then
         && 0 < P.SampleSize(desc)
         && var latched := A.LatchOf(s.config, desc, atomDesc);
            && s' == State(A.StepStarted, latched, s.config, s'.writes, s.log + [A.Started(latched)])
            && A.Latches(latched, s.config, desc, atomDesc)
            && A.Launched(s.writes, s'.writes, s.config, latched.sampleSize, c.ramStart)
       else
         && s' == s.(latched := s'.latched, log := s.log + [A.Refused])
         && (s.step != A.StepStop ==> s'.latched == s.latched)
  }

  /** A fetch answers by its step, the latched parameters and the trigger position, and ends the acquisition. */
  ghost predicate GetsOk(
      c: A.Controller, s: State, triggerPos: Word, destAddr: nat, outcome: D.Outcome, s': State)
    requires D.Region(c.ramStart)
  {
    if s.step != A.StepDone then outcome == D.WrongStep && s' == s.(log := s.log + [A.Rejected])
    else
      && s' == s.(step := A.StepStop, log := s.log + [if outcome.Data? then A.Returned(s.latched) else A.Lost])
      && A.LatchedOk(s.latched)
      && match c.FetchError(s.latched, triggerPos, destAddr)
         case Some(e) => outcome == e
         case None => outcome.Data? && c.Answers(outcome.words, s.latched, triggerPos)
  }

  /** The states before and after every call of a run, and the answers */
  ghost predicate IsRun(c: A.Controller, calls: seq<Call>, answers: seq<Answer>, states: seq<State>)
    requires A.BitMasksOk(c.m) && A.FieldMasksOk(c.m) && D.Region(c.ramStart)
  {
    && |answers| == |calls| && |states| == |calls| + 1
    && forall i :: 0 <= i < |calls| ==> Next(c, states[i], calls[i], answers[i], states[i + 1])
  }

  /** How many answers are successful starts, and how many are results. */
  function Starts(answers: seq<Answer>): nat {
    if answers == [] then 0
    else Starts(answers[..|answers| - 1]) + if answers[|answers| - 1] == Answer.Start(A.Success) then 1 else 0
  }

  function Results(answers: seq<Answer>): nat {
    if answers == [] then 0
    else
      var last := answers[|answers| - 1];
      Results(answers[..|answers| - 1]) + if last.Get? && last.outcome.Data? then 1 else 0
  }

  /**
   Makes the calls one after the other on a new controller.  There are at most as many results as
   successful starts, which are as many as device writes with the start bit.
   */
  method Run(c: A.Controller, calls: seq<Call>) returns (answers: seq<Answer>, ghost states: seq<State>)
    requires c.Valid() && c.log == [] && c.writes == []
    modifies c, c.regs, c.bars`sdramPage
    ensures c.Valid() && A.Proper(c.log)
    ensures IsRun(c, calls, answers, states) && states[0] == old(StateOf(c)) && states[|calls|] == StateOf(c)
    ensures Results(answers) == A.Count(c.log, true) && Starts(answers) == A.Count(c.log, false)
    ensures Results(answers) <= Starts(answers) == A.StartWrites(c.m, c.writes)
  {
    answers, states := [], [StateOf(c)];
    for i := 0 to |calls|
      invariant c.Valid() && IsRun(c, calls[..i], answers, states)
      invariant states[0] == old(StateOf(c)) && states[i] == StateOf(c)
      invariant Results(answers) == A.Count(c.log, true) && Starts(answers) == A.Count(c.log, false)
    {
      ghost var s := StateOf(c);
      var answer := Make(c, calls[i]);
      RunGrows(c, calls, i, answers, states, answer, StateOf(c));
      CountsGrow(c, s, calls[i], answer, StateOf(c), answers);
      answers, states := answers + [answer], states + [StateOf(c)];
    }
    assert calls[..|calls|] == calls;
    A.ResultsNeedStarts(c.log);
  }

  lemma RunGrows(c: A.Controller, calls: seq<Call>, i: nat, answers: seq<Answer>, states: seq<State>,
      answer: Answer, s': State)
    requires A.BitMasksOk(c.m) && A.FieldMasksOk(c.m) && D.Region(c.ramStart)
    requires i < |calls| && IsRun(c, calls[..i], answers, states) && Next(c, states[i], calls[i], answer, s')
    ensures IsRun(c, calls[..i + 1], answers + [answer], states + [s'])
  {
    var calls', answers', states' := calls[..i + 1], answers + [answer], states + [s'];
    forall k | 0 <= k < |calls'| ensures Next(c, states'[k], calls'[k], answers'[k], states'[k + 1]) {
      if k < i {
        assert Next(c, states[k], calls[..i][k], answers[k], states[k + 1]);
      }
    }
  }

  /** One call adds to the history what its answer says. */
  lemma CountsGrow(c: A.Controller, s: State, call: Call, answer: Answer, s': State, answers: seq<Answer>)
    requires A.BitMasksOk(c.m) && A.FieldMasksOk(c.m) && D.Region(c.ramStart) && Next(c, s, call, answer, s')
    ensures A.Count(s'.log, false) == A.Count(s.log, false) + (Starts(answers + [answer]) - Starts(answers))
    ensures A.Count(s'.log, true) == A.Count(s.log, true) + (Results(answers + [answer]) - Results(answers))
  {
    AnswersStep(answers, answer);
    match call
    case Configure(_) =>
    case Start(_, _) => Counted(s.log, if answer.result == A.Success then A.Started(s'.latched) else A.Refused);
    case Stop => Counted(s.log, A.Stopped);
    case Status(sta) => Counted(s.log, A.Polled(A.IsComplete(sta)));
    case Get(_, _) =>
      Counted(s.log, A.Rejected);
      Counted(s.log, if answer.outcome.Data? then A.Returned(s.latched) else A.Lost);
  }

  lemma AnswersStep(answers: seq<Answer>, answer: Answer)
    ensures Starts(answers + [answer]) == Starts(answers) + if answer == Answer.Start(A.Success) then 1 else 0
    ensures Results(answers + [answer]) == Results(answers) + if answer.Get? && answer.outcome.Data? then 1 else 0
  {
    assert (answers + [answer])[..|answers|] == answers;
  }

  /** One call */
  method Make(c: A.Controller, call: Call) returns (answer: Answer)
    requires c.Valid()
    modifies c, c.regs, c.bars`sdramPage
    ensures c.Valid() && Next(c, old(StateOf(c)), call, answer, StateOf(c))
  {
    match call {
      case Configure(config) =>
        c.config := config;
        answer := Nothing;
      case Start(desc, atomDesc) =>
        var result := MakeStart(c, desc, atomDesc);
        answer := Answer.Start(result);
      case Stop =>
        MakeStop(c);
        answer := Nothing;
      case Status(sta) =>
        answer := MakeStatus(c, call);
      case Get(triggerPos, destAddr) =>
        var outcome := MakeGet(c, triggerPos, destAddr);
        answer := Answer.Get(outcome);
    }
  }

  method MakeStart(c: A.Controller, desc: Word, atomDesc: Word) returns (result: A.StartResult)
    requires c.Valid()
    modifies c, c.regs
    ensures c.Valid() && StartsOk(c, old(StateOf(c)), desc, atomDesc, result, StateOf(c))
  {
    result := c.StartAcquisition(desc, atomDesc);
  }

  method MakeStop(c: A.Controller)
    requires c.Valid()
    modifies c, c.regs
    ensures c.Valid() && Next(c, old(StateOf(c)), Stop, Nothing, StateOf(c))
  {
    c.StopAcquisition();
  }

  method MakeStatus(c: A.Controller, call: Call) returns (answer: Answer)
    requires c.Valid() && call.Status?
    modifies c, c.regs
    ensures c.Valid() && Next(c, old(StateOf(c)), call, answer, StateOf(c))
  {
    ghost var log := c.log;
    var status := c.GetAcqStatus(call.sta);
    assert log + [] == log;
    answer := Answer.Status(status);
  }

  method MakeGet(c: A.Controller, triggerPos: Word, destAddr: nat) returns (outcome: D.Outcome)
    requires c.Valid()
    modifies c, c.bars`sdramPage
    ensures c.Valid() && GetsOk(c, old(StateOf(c)), triggerPos, destAddr, outcome, StateOf(c))
  {
    outcome := c.GetResult(triggerPos, destAddr);
  }

  lemma Counted(log: seq<A.Event>, e: A.Event)
    ensures A.Count(log + [e], false) == A.Count(log, false) + if e.Started? then 1 else 0
    ensures A.Count(log + [e], true) == A.Count(log, true) + if e.Returned? then 1 else 0
  {
    A.CountStep(log, e, false);
    A.CountStep(log, e, true);
  }

  /** A controller for the next free region of the board; None stands for the exception of the allocator. */
  method Attach(alloc: M.MemoryAllocator, board: M.Board, m: A.Masks, bars: S.PcieBars, config: A.Config)
    returns (c: Option<A.Controller>)
    requires alloc.Valid() && A.BitMasksOk(m) && A.FieldMasksOk(m)
    modifies alloc
    ensures alloc.Valid() && alloc.history == old(alloc.history) + [board]
    ensures c.Some? <==> M.Answer(old(alloc.history), board).Some?
    ensures c.Some? ==>
              && fresh(c.value) && c.value.Valid() && c.value.log == [] && c.value.writes == []
              && c.value.bars == bars && c.value.ramStart == M.Answer(old(alloc.history), board).value.start
  {
    var range := alloc.GetRange(board);
    if range.None? {
      return None;
    }
    RangeIsRegion(old(alloc.history), board);
    var controller := new A.Controller(m, range.value.start, bars, config);
    return Some(controller);
  }

  lemma RangeIsRegion(history: seq<M.Board>, board: M.Board)
    requires M.Answer(history, board).Some?
    ensures D.Region(M.Answer(history, board).value.start)
  {
    DivModUnique(M.Answer(history, board).value.start, M.ACQ_RAM_PER_CORE, M.Calls(history, board), 0);
  }

  /** The windows of two controllers of one board share no SDRAM word. */
  lemma CoresShareNoWord(history: seq<M.Board>, j: nat, k: nat, q: R.Request, q': R.Request, b: nat, b': nat)
    requires j < k < |history| && history[j] == history[k]
    requires M.AnswerAt(history, j).Some? && M.AnswerAt(history, k).Some? && D.Fills(q) && D.Fills(q')
    ensures D.WindowWord(M.AnswerAt(history, j).value.start, q, b)
         != D.WindowWord(M.AnswerAt(history, k).value.start, q', b')
  {
    M.RangesDisjoint(history, j, k);
    RangeIsRegion(history[..j], history[j]);
    RangeIsRegion(history[..k], history[k]);
    D.RegionsShareNoWord(M.AnswerAt(history, j).value.start, M.AnswerAt(history, k).value.start, q, q', b, b');
  }
}
