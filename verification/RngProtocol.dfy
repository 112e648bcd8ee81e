/**
 The lock protocol around liboqs's process-global random number generator, as a
 transition system: any number of threads, each working through its own list of
 calls, one mutex, one generator mode and one system tape. Every draw inside a
 library call is a step of its own, so threads interleave at every point where
 the code lets them.
 */
module RngProtocol {
  import opened Bytes
  import opened Liboqs

  datatype Binding = C | Python

  /**
   `restoreMayFail`: the call that switches the generator back may report an
   error and leave it as it was (the C binding ignores its status, the Python
   package raises). `interruptible`: an asynchronous Python exception may be
   raised after the zero filler is installed and before the `try` is entered.
   */
  datatype Config = Config(
    lib: Library,
    tape: Tape,
    binding: Binding,
    restoreMayFail: bool,
    interruptible: bool,
    programs: seq<seq<Call>>)

  /** Where a thread stands in the call it is making. */
  datatype Pc =
    | Idle
    | Preparing(call: Call)   // argument checks; in C also OQS_*_new and malloc
    | Waiting(call: Call)     // at the lock
    | Entered(call: Call)     // owns the lock, nothing done yet
    | Switched(call: Call)    // deterministic sign: the zero filler is installed
    | Inside(call: Call, start: nat, drawn: seq<seq<byte>>)
    | Restoring(call: Call, start: nat, drawn: seq<seq<byte>>, outcome: Outcome)
    | Leaving(call: Call, start: nat, drawn: seq<seq<byte>>, outcome: Outcome)
    | Computing(call: Call)   // verify and decapsulate: no lock, no draw

  datatype Answer = Answer(call: Call, outcome: Outcome, locked: bool)

  datatype Thread = Thread(todo: seq<Call>, pc: Pc, answers: seq<Answer>)

  /** A critical section that is over: who, which of its calls, which bytes it drew from where, and the mode it left. */
  datatype Entry = Entry(tid: nat, nth: nat, call: Call, start: nat, drawn: seq<seq<byte>>, outcome: Outcome, left: Mode)

  /** `acquired` and `log` are history: the acquisitions and the finished sections, in order. */
  datatype State = State(
    threads: seq<Thread>,
    owner: Option<nat>,
    mode: Mode,
    pos: nat,
    acquired: seq<(nat, Call)>,
    log: seq<Entry>)

  datatype Event =
    | Begin | Accept | Reject
    | Lock | Install | Start | Raise | Interrupt
    | DrawBytes | Finish | Fault
    | Restore | RestoreFails
    | Unlock

  function Init(cfg: Config): State {
    State(seq(|cfg.programs|, t requires 0 <= t < |cfg.programs| => Thread(cfg.programs[t], Idle, [])),
          None, System, 0, [], [])
  }

  /** A call that the argument checks or an allocation turn away; verify never raises in Python. */
  function Rejected(cfg: Config, c: Call): Outcome {
    if cfg.binding.Python? && c.Verify? then Done([0]) else Failed
  }

  /** A call without lock whose library call fails: an invalid signature, or an error. */
  function Broken(c: Call): Outcome {
    if c.Verify? then Done([0]) else Failed
  }

  predicate Enabled(cfg: Config, s: State, t: nat, e: Event) {
    t < |s.threads| &&
    var th := s.threads[t];
    match th.pc
    case Idle => e.Begin? && th.todo != []
    case Preparing(c) =>
      || (e.Accept? && cfg.lib.accepts(c))
      || (e.Reject? && (!cfg.lib.accepts(c) || cfg.binding.C?))
    case Waiting(c) => e.Lock? && s.owner.None?
    case Entered(c) =>
      || (e.Install? && c.SignDeterministic?)
      || (e.Start? && !c.SignDeterministic?)
      || (e.Raise? && cfg.binding.Python?)
    case Switched(c) =>
      || e.Start?
      || (e.Raise? && cfg.binding.Python?)
      || (e.Interrupt? && cfg.binding.Python? && cfg.interruptible)
    case Inside(c, start, drawn) =>
      || (e.DrawBytes? && cfg.lib.Act(c, drawn).Draw?)
      || (e.Finish? && cfg.lib.Act(c, drawn).Return?)
      || e.Fault?
    case Restoring(c, start, drawn, o) =>
      || e.Restore?
      || (e.RestoreFails? && cfg.restoreMayFail)
    case Leaving(c, start, drawn, o) => e.Unlock?
    case Computing(c) => e.Finish? || e.Fault?
  }

  function Goto(s: State, t: nat, pc: Pc): State
    requires t < |s.threads|
  {
    s.(threads := s.threads[t := s.threads[t].(pc := pc)])
  }

  function Reply(s: State, t: nat, c: Call, o: Outcome, locked: bool): State
    requires t < |s.threads|
  {
    var th := s.threads[t];
    s.(threads := s.threads[t := Thread(th.todo, Idle, th.answers + [Answer(c, o, locked)])])
  }

  /** A deterministic sign leaves liboqs through its restore step, every other call directly. */
  function AfterLibrary(c: Call, start: nat, drawn: seq<seq<byte>>, o: Outcome): Pc {
    if c.SignDeterministic? then Restoring(c, start, drawn, o) else Leaving(c, start, drawn, o)
  }

  /** The bytes liboqs hands out: the installed generator decides, not the caller. */
  function Supply(cfg: Config, s: State, n: nat): seq<byte> {
    if s.mode.Zero? then Zeros(n) else Slice(cfg.tape, s.pos, n)
  }

  function Next(cfg: Config, s: State, t: nat, e: Event): State
    requires Enabled(cfg, s, t, e)
  {
    var th := s.threads[t];
    match th.pc
    case Idle =>
      s.(threads := s.threads[t := Thread(th.todo[1..], Preparing(th.todo[0]), th.answers)])
    case Preparing(c) =>
      if e.Accept? then Goto(s, t, if TakesLock(c) then Waiting(c) else Computing(c))
      else Reply(s, t, c, Rejected(cfg, c), false)
    case Waiting(c) =>
      Goto(s, t, Entered(c)).(owner := Some(t), acquired := s.acquired + [(t, c)])
    case Entered(c) =>
      if e.Install? then Goto(s, t, Switched(c)).(mode := Zero)
      else if e.Start? then Goto(s, t, Inside(c, s.pos, []))
      else Goto(s, t, Leaving(c, s.pos, [], Failed))
    case Switched(c) =>
      if e.Start? then Goto(s, t, Inside(c, s.pos, []))
      else if e.Raise? then Goto(s, t, Restoring(c, s.pos, [], Failed))
      else Goto(s, t, Leaving(c, s.pos, [], Failed))
    case Inside(c, start, drawn) =>
      if e.DrawBytes? then
        var n := cfg.lib.Act(c, drawn).n;
        Goto(s, t, Inside(c, start, drawn + [Supply(cfg, s, n)]))
          .(pos := if s.mode.Zero? then s.pos else s.pos + n)
      else if e.Finish? then Goto(s, t, AfterLibrary(c, start, drawn, cfg.lib.Act(c, drawn).outcome))
      else Goto(s, t, AfterLibrary(c, start, drawn, Failed))
    case Restoring(c, start, drawn, o) =>
      if e.Restore? then Goto(s, t, Leaving(c, start, drawn, o)).(mode := System)
      else Goto(s, t, Leaving(c, start, drawn, if cfg.binding.C? then o else Failed))
    case Leaving(c, start, drawn, o) =>
      Reply(s, t, c, o, true).(owner := None, log := s.log + [Entry(t, |th.answers|, c, start, drawn, o, s.mode)])
    case Computing(c) =>
      Reply(s, t, c, if e.Finish? then cfg.lib.last(c, []) else Broken(c), false)
  }

  /** When each event of a call that goes well can happen. */
  lemma StepsExactly(cfg: Config, s: State, t: nat)
    requires t < |s.threads|
    ensures var th, pc := s.threads[t], s.threads[t].pc;
      && (Enabled(cfg, s, t, Begin) <==> pc.Idle? && th.todo != [])
      && (Enabled(cfg, s, t, Accept) <==> pc.Preparing? && cfg.lib.accepts(pc.call))
      && (Enabled(cfg, s, t, Lock) <==> pc.Waiting? && s.owner == None)
      && (Enabled(cfg, s, t, Install) <==> pc.Entered? && pc.call.SignDeterministic?)
      && (Enabled(cfg, s, t, Start) <==> pc.Switched? || (pc.Entered? && !pc.call.SignDeterministic?))
      && (Enabled(cfg, s, t, DrawBytes) <==> pc.Inside? && cfg.lib.Act(pc.call, pc.drawn).Draw?)
      && (Enabled(cfg, s, t, Finish) <==> pc.Computing? || (pc.Inside? && cfg.lib.Act(pc.call, pc.drawn).Return?))
      && (Enabled(cfg, s, t, Restore) <==> pc.Restoring?)
      && (Enabled(cfg, s, t, Unlock) <==> pc.Leaving?)
  {
  }

  /** The library can fail anywhere in it; exceptions are Python's, allocations C's; switching back fails where it may. */
  lemma FaultsExactly(cfg: Config, s: State, t: nat)
    requires t < |s.threads|
    ensures var pc := s.threads[t].pc;
      && (Enabled(cfg, s, t, Reject) <==> pc.Preparing? && (cfg.binding == C || !cfg.lib.accepts(pc.call)))
      && (Enabled(cfg, s, t, Raise) <==> cfg.binding == Python && (pc.Entered? || pc.Switched?))
      && (Enabled(cfg, s, t, Interrupt) <==> cfg.binding == Python && cfg.interruptible && pc.Switched?)
      && (Enabled(cfg, s, t, Fault) <==> pc.Computing? || pc.Inside?)
      && (Enabled(cfg, s, t, RestoreFails) <==> cfg.restoreMayFail && pc.Restoring?)
  {
  }

  type Trace = seq<(nat, Event)>

  /** Every step of the trace can be taken when its turn comes. */
  predicate Runs(cfg: Config, s: State, tr: Trace)
    decreases |tr|
  {
    tr == [] || (Enabled(cfg, s, tr[0].0, tr[0].1) && Runs(cfg, Next(cfg, s, tr[0].0, tr[0].1), tr[1..]))
  }

  function Exec(cfg: Config, s: State, tr: Trace): State
    requires Runs(cfg, s, tr)
    decreases |tr|
  {
    if tr == [] then s else Exec(cfg, Next(cfg, s, tr[0].0, tr[0].1), tr[1..])
  }

  // ---- What every reachable state satisfies ----

  /** Between lock and unlock. */
  predicate Critical(pc: Pc) {
    pc.Entered? || pc.Switched? || pc.Inside? || pc.Restoring? || pc.Leaving?
  }

  /** Between the installation of the zero filler and its removal. */
  predicate InWindow(pc: Pc) {
    pc.Switched? || ((pc.Inside? || pc.Restoring?) && pc.call.SignDeterministic?)
  }

  predicate PcShape(cfg: Config, pc: Pc) {
    && (!pc.Idle? && !pc.Preparing? ==> cfg.lib.accepts(pc.call))
    && (pc.Waiting? || Critical(pc) ==> TakesLock(pc.call))
    && (pc.Switched? || pc.Restoring? ==> pc.call.SignDeterministic?)
    && (pc.Computing? ==> !TakesLock(pc.call))
  }

  /** The lock is held by the one thread that is between lock and unlock, if any. */
  ghost predicate LockInv(cfg: Config, s: State) {
    && |s.threads| == |cfg.programs|
    && (s.owner.Some? ==> s.owner.value < |s.threads|)
    && (forall t :: 0 <= t < |s.threads| ==> PcShape(cfg, s.threads[t].pc))
    && (forall t :: 0 <= t < |s.threads| ==> (Critical(s.threads[t].pc) <==> s.owner == Some(t)))
  }

  /** The generator fills zeros exactly while the owner is a deterministic sign inside its window. */
  ghost predicate ModeInv(s: State) {
    s.mode.Zero? <==>
      (s.owner.Some? && s.owner.value < |s.threads| && InWindow(s.threads[s.owner.value].pc))
  }

  function Calls(answers: seq<Answer>): seq<Call> {
    if answers == [] then [] else Calls(answers[..|answers| - 1]) + [answers[|answers| - 1].call]
  }

  function Current(pc: Pc): seq<Call> {
    if pc.Idle? then [] else [pc.call]
  }

  /** No call is lost, repeated or reordered within its thread. */
  ghost predicate ProgramInv(cfg: Config, s: State) {
    && |s.threads| == |cfg.programs|
    && forall t :: 0 <= t < |s.threads| ==>
         Calls(s.threads[t].answers) + Current(s.threads[t].pc) + s.threads[t].todo == cfg.programs[t]
  }

  /** The mode the sections so far have left. */
  function Found(log: seq<Entry>): Mode {
    if log == [] then System else log[|log| - 1].left
  }

  /** Where the last finished section stopped reading the system tape. */
  function EndOf(log: seq<Entry>): nat {
    if log == [] then 0
    else var e := log[|log| - 1]; e.start + Consumed(e.call, Found(log[..|log| - 1]), e.drawn)
  }

  /** The generator is switched back whenever it was switched. */
  predicate Dependable(cfg: Config) {
    !cfg.restoreMayFail && !(cfg.binding.Python? && cfg.interruptible)
  }

  /** Only a deterministic sign changes the mode, and to zeros only by a fault. */
  predicate Leaves(cfg: Config, c: Call, found: Mode, left: Mode) {
    && (!c.SignDeterministic? ==> left == found)
    && (found.System? && left.Zero? ==> !Dependable(cfg))
  }

  predicate EntryOk(cfg: Config, found: Mode, e: Entry) {
    && e.tid < |cfg.programs|
    && TakesLock(e.call) && cfg.lib.accepts(e.call)
    && Legit(cfg.lib, e.call, Source(e.call, found, cfg.tape), e.start, e.drawn)
    && Plausible(cfg.lib, e.call, e.drawn, e.outcome)
    && Leaves(cfg, e.call, found, e.left)
  }

  /** Every section reads on where the one before it stopped, from the generator that one left. */
  predicate LogOk(cfg: Config, log: seq<Entry>) {
    log == [] ||
    var before, e := log[..|log| - 1], log[|log| - 1];
    LogOk(cfg, before) && EntryOk(cfg, Found(before), e) && e.start == EndOf(before)
  }

  /** The section in progress agrees with the reference so far. */
  predicate SoFar(cfg: Config, s: State, c: Call, start: nat, drawn: seq<seq<byte>>) {
    && start == EndOf(s.log)
    && s.pos == start + Consumed(c, Found(s.log), drawn)
    && Legit(cfg.lib, c, Source(c, Found(s.log), cfg.tape), start, drawn)
  }

  predicate OwnerData(cfg: Config, s: State, pc: Pc) {
    match pc
    case Entered(c) => s.mode == Found(s.log) && s.pos == EndOf(s.log)
    case Switched(c) => s.mode == Zero && s.pos == EndOf(s.log)
    case Inside(c, start, drawn) =>
      && s.mode == (if c.SignDeterministic? then Zero else Found(s.log))
      && SoFar(cfg, s, c, start, drawn)
    case Restoring(c, start, drawn, o) =>
      && s.mode == Zero
      && SoFar(cfg, s, c, start, drawn) && Plausible(cfg.lib, c, drawn, o)
    case Leaving(c, start, drawn, o) =>
      && Leaves(cfg, c, Found(s.log), s.mode)
      && SoFar(cfg, s, c, start, drawn) && Plausible(cfg.lib, c, drawn, o)
    case _ => true
  }

  ghost predicate DataInv(cfg: Config, s: State) {
    && LogOk(cfg, s.log)
    && (s.owner.None? ==> s.mode == Found(s.log) && s.pos == EndOf(s.log))
    && (s.owner.Some? && s.owner.value < |s.threads| ==> OwnerData(cfg, s, s.threads[s.owner.value].pc))
  }

  function Pairs(log: seq<Entry>): seq<(nat, Call)> {
    if log == [] then [] else Pairs(log[..|log| - 1]) + [(log[|log| - 1].tid, log[|log| - 1].call)]
  }

  /** The answers a thread got under the lock, as call and outcome. */
  function Locked(answers: seq<Answer>): seq<(Call, Outcome)> {
    if answers == [] then []
    else
      var a := answers[|answers| - 1];
      Locked(answers[..|answers| - 1]) + (if a.locked then [(a.call, a.outcome)] else [])
  }

  /** What the log holds for a thread. */
  function Sections(log: seq<Entry>, t: nat): seq<(Call, Outcome)> {
    if log == [] then []
    else
      var e := log[|log| - 1];
      Sections(log[..|log| - 1], t) + (if e.tid == t then [(e.call, e.outcome)] else [])
  }

  /** An answer given without the lock depends on nothing but the call. */
  predicate Unlocked(cfg: Config, a: Answer) {
    a.locked ||
    (a.outcome == Rejected(cfg, a.call) && (!cfg.lib.accepts(a.call) || cfg.binding.C?)) ||
    (!TakesLock(a.call) && cfg.lib.accepts(a.call) && (a.outcome == cfg.lib.last(a.call, []) || a.outcome == Broken(a.call)))
  }

  /** The section in progress. */
  function Pending(s: State): seq<(nat, Call)> {
    if s.owner.Some? && s.owner.value < |s.threads| && !s.threads[s.owner.value].pc.Idle?
    then [(s.owner.value, s.threads[s.owner.value].pc.call)] else []
  }

  /** Acquisition order is log order, and each thread sees its own sections of the log, in order. */
  ghost predicate HistoryInv(cfg: Config, s: State) {
    && s.acquired == Pairs(s.log) + Pending(s)
    && (forall t :: 0 <= t < |s.threads| ==> Locked(s.threads[t].answers) == Sections(s.log, t))
    && (forall t, i :: 0 <= t < |s.threads| && 0 <= i < |s.threads[t].answers| ==>
          Unlocked(cfg, s.threads[t].answers[i]))
  }

  /** A deterministic sign that gets past its argument checks. */
  ghost predicate SwitchesSomewhere(cfg: Config) {
    exists t, i :: 0 <= t < |cfg.programs| && 0 <= i < |cfg.programs[t]| && Switches(cfg, cfg.programs[t][i])
  }

  predicate Switches(cfg: Config, c: Call) {
    c.SignDeterministic? && cfg.lib.accepts(c)
  }

  ghost predicate Sound(cfg: Config) {
    Dependable(cfg) || !SwitchesSomewhere(cfg)
  }

  /** What every reachable state of every configuration satisfies, faults included. */
  ghost predicate Inv(cfg: Config, s: State) {
    LockInv(cfg, s) && ProgramInv(cfg, s) && HistoryInv(cfg, s) && DataInv(cfg, s)
  }

  // ---- One step keeps it ----

  lemma ShapeStep(cfg: Config, s: State, t: nat, e: Event)
    requires Enabled(cfg, s, t, e) && PcShape(cfg, s.threads[t].pc)
    ensures |Next(cfg, s, t, e).threads| == |s.threads|
    ensures PcShape(cfg, Next(cfg, s, t, e).threads[t].pc)
    ensures forall u :: 0 <= u < |s.threads| && u != t ==> Next(cfg, s, t, e).threads[u] == s.threads[u]
  {
  }

  lemma OwnerStep(cfg: Config, s: State, t: nat, e: Event)
    requires Enabled(cfg, s, t, e) && PcShape(cfg, s.threads[t].pc)
    requires Critical(s.threads[t].pc) <==> s.owner == Some(t)
    ensures var s' := Next(cfg, s, t, e);
      && (Critical(s'.threads[t].pc) <==> s'.owner == Some(t))
      && (s'.owner == s.owner || (s.owner == None && s'.owner == Some(t)) || (s.owner == Some(t) && s'.owner == None))
  {
  }

  lemma LockStep(cfg: Config, s: State, t: nat, e: Event)
    requires LockInv(cfg, s) && Enabled(cfg, s, t, e)
    ensures LockInv(cfg, Next(cfg, s, t, e))
  {
    ShapeStep(cfg, s, t, e);
    OwnerStep(cfg, s, t, e);
  }

  /** What a step does to the thread that takes it, and that it does nothing to the others. */
  lemma ThreadEffect(cfg: Config, s: State, t: nat, e: Event) returns (th: Thread, th': Thread)
    requires Enabled(cfg, s, t, e)
    ensures th == s.threads[t]
    ensures Next(cfg, s, t, e).threads == s.threads[t := th']
    ensures Moves(cfg, th, th') || (Replies(cfg, th, th') && (th'.answers[|th.answers|].locked <==> e.Unlock?))
    ensures e.Unlock? ==> th.pc.Leaving? && Replies(cfg, th, th') && th'.answers[|th.answers|] == Answer(th.pc.call, th.pc.outcome, true)
  {
    th, th' := s.threads[t], Next(cfg, s, t, e).threads[t];
  }

  predicate Moves(cfg: Config, th: Thread, th': Thread) {
    && !th'.pc.Idle?
    && th'.answers == th.answers
    && Current(th.pc) + th.todo == Current(th'.pc) + th'.todo
  }

  predicate Replies(cfg: Config, th: Thread, th': Thread) {
    && !th.pc.Idle? && th'.pc.Idle?
    && th'.todo == th.todo
    && |th'.answers| == |th.answers| + 1
    && var a := th'.answers[|th.answers|];
    && th'.answers == th.answers + [a]
    && a.call == th.pc.call
    && (PcShape(cfg, th.pc) ==> Unlocked(cfg, a))
  }

  lemma LastAnswer(answers: seq<Answer>, a: Answer)
    ensures Calls(answers + [a]) == Calls(answers) + [a.call]
    ensures Locked(answers + [a]) == Locked(answers) + (if a.locked then [(a.call, a.outcome)] else [])
  {
    assert (answers + [a])[..|answers|] == answers;
  }

  lemma SameSplit<T>(done: seq<T>, now: seq<T>, todo: seq<T>, now': seq<T>, todo': seq<T>)
    requires now + todo == now' + todo'
    ensures done + now + todo == done + now' + todo'
  {
    Assoc(done, now, todo);
    Assoc(done, now', todo');
  }

  lemma ProgramKept(cfg: Config, th: Thread, th': Thread)
    requires Moves(cfg, th, th') || Replies(cfg, th, th')
    ensures Calls(th'.answers) + Current(th'.pc) + th'.todo == Calls(th.answers) + Current(th.pc) + th.todo
  {
    if Moves(cfg, th, th') {
      SameSplit(Calls(th.answers), Current(th.pc), th.todo, Current(th'.pc), th'.todo);
    } else {
      LastAnswer(th.answers, th'.answers[|th.answers|]);
      var calls := Calls(th'.answers);
      assert calls == Calls(th.answers) + Current(th.pc);
      assert calls + [] == calls;
    }
  }

  lemma {:induction false} ProgramStep(cfg: Config, s: State, t: nat, e: Event)
    requires ProgramInv(cfg, s) && Enabled(cfg, s, t, e)
    ensures ProgramInv(cfg, Next(cfg, s, t, e))
  {
    var th, th' := ThreadEffect(cfg, s, t, e);
    ProgramKept(cfg, th, th');
  }

  lemma UnlockedKept(cfg: Config, th: Thread, th': Thread)
    requires PcShape(cfg, th.pc) && (Moves(cfg, th, th') || Replies(cfg, th, th'))
    requires forall i :: 0 <= i < |th.answers| ==> Unlocked(cfg, th.answers[i])
    ensures forall i :: 0 <= i < |th'.answers| ==> Unlocked(cfg, th'.answers[i])
  {
  }

  lemma LastEntry(log: seq<Entry>, e: Entry, t: nat)
    ensures Pairs(log + [e]) == Pairs(log) + [(e.tid, e.call)]
    ensures Sections(log + [e], t) == Sections(log, t) + (if e.tid == t then [(e.call, e.outcome)] else [])
  {
    assert (log + [e])[..|log|] == log;
  }

  /** What a step does to the history: nothing, an acquisition, or a finished section. */
  lemma HistoryEffect(cfg: Config, s: State, t: nat, e: Event)
    requires Enabled(cfg, s, t, e) && PcShape(cfg, s.threads[t].pc)
    requires Critical(s.threads[t].pc) <==> s.owner == Some(t)
    ensures var s', pc := Next(cfg, s, t, e), s.threads[t].pc;
      if e.Unlock? then
        pc.Leaving? && Pending(s) == [(t, pc.call)] && Pending(s') == [] && s'.acquired == s.acquired && s'.log == s.log + [Entry(t, |s.threads[t].answers|, pc.call, pc.start, pc.drawn, pc.outcome, s.mode)]
      else if e.Lock? then
        pc.Waiting? && Pending(s) == [] && Pending(s') == [(t, pc.call)] && s'.acquired == s.acquired + [(t, pc.call)] && s'.log == s.log
      else
        s'.acquired == s.acquired && s'.log == s.log && Pending(s') == Pending(s)
  {
  }

  lemma AcquiredStep(cfg: Config, s: State, t: nat, e: Event)
    requires LockInv(cfg, s) && s.acquired == Pairs(s.log) + Pending(s) && Enabled(cfg, s, t, e)
    ensures Next(cfg, s, t, e).acquired == Pairs(Next(cfg, s, t, e).log) + Pending(Next(cfg, s, t, e))
  {
    HistoryEffect(cfg, s, t, e);
    var pc := s.threads[t].pc;
    if e.Unlock? {
      LastEntry(s.log, Entry(t, |s.threads[t].answers|, pc.call, pc.start, pc.drawn, pc.outcome, s.mode), t);
      assert Pairs(s.log) + [(t, pc.call)] + [] == Pairs(s.log) + [(t, pc.call)];
    } else if e.Lock? {
      assert Pairs(s.log) + [] + [(t, pc.call)] == Pairs(s.log) + [(t, pc.call)];
    }
  }

  lemma SectionsStep(cfg: Config, s: State, t: nat, e: Event, u: nat)
    requires LockInv(cfg, s) && Enabled(cfg, s, t, e) && u < |s.threads|
    requires Locked(s.threads[u].answers) == Sections(s.log, u)
    ensures |Next(cfg, s, t, e).threads| == |s.threads|
    ensures Locked(Next(cfg, s, t, e).threads[u].answers) == Sections(Next(cfg, s, t, e).log, u)
  {
    HistoryEffect(cfg, s, t, e);
    var th, th' := ThreadEffect(cfg, s, t, e);
    if Replies(cfg, th, th') {
      LastAnswer(th.answers, th'.answers[|th.answers|]);
    }
    if e.Unlock? {
      LastEntry(s.log, Entry(t, |th.answers|, th.pc.call, th.pc.start, th.pc.drawn, th.pc.outcome, s.mode), u);
    }
  }

  lemma AllSectionsStep(cfg: Config, s: State, t: nat, e: Event)
    requires LockInv(cfg, s) && HistoryInv(cfg, s) && Enabled(cfg, s, t, e)
    ensures var s' := Next(cfg, s, t, e);
      forall u :: 0 <= u < |s'.threads| ==> Locked(s'.threads[u].answers) == Sections(s'.log, u)
  {
    var s' := Next(cfg, s, t, e);
    var _, _ := ThreadEffect(cfg, s, t, e);
    forall u | 0 <= u < |s'.threads| ensures Locked(s'.threads[u].answers) == Sections(s'.log, u) {
      SectionsStep(cfg, s, t, e, u);
    }
  }

  lemma AnswersStep(cfg: Config, s: State, t: nat, e: Event)
    requires LockInv(cfg, s) && HistoryInv(cfg, s) && Enabled(cfg, s, t, e)
    ensures var s' := Next(cfg, s, t, e);
      forall u, i :: 0 <= u < |s'.threads| && 0 <= i < |s'.threads[u].answers| ==> Unlocked(cfg, s'.threads[u].answers[i])
  {
    var th, th' := ThreadEffect(cfg, s, t, e);
    UnlockedKept(cfg, th, th');
  }

  lemma {:induction false} HistoryStep(cfg: Config, s: State, t: nat, e: Event)
    requires LockInv(cfg, s) && HistoryInv(cfg, s) && Enabled(cfg, s, t, e)
    ensures HistoryInv(cfg, Next(cfg, s, t, e))
  {
    AcquiredStep(cfg, s, t, e);
    AllSectionsStep(cfg, s, t, e);
    AnswersStep(cfg, s, t, e);
  }

  lemma LogGrows(cfg: Config, log: seq<Entry>, e: Entry)
    requires LogOk(cfg, log) && EntryOk(cfg, Found(log), e) && e.start == EndOf(log)
    ensures LogOk(cfg, log + [e]) && Found(log + [e]) == e.left
    ensures EndOf(log + [e]) == e.start + Consumed(e.call, Found(log), e.drawn)
  {
    assert (log + [e])[..|log|] == log;
  }

  /** The chunk the installed generator supplies is the one the caller's reference run reads. */
  lemma DrawExtends(cfg: Config, s: State, c: Call, start: nat, drawn: seq<seq<byte>>, chunk: seq<byte>)
    requires s.mode == if c.SignDeterministic? then Zero else Found(s.log)
    requires SoFar(cfg, s, c, start, drawn)
    requires cfg.lib.Act(c, drawn) == Draw(|chunk|) && chunk == Supply(cfg, s, |chunk|)
    ensures Legit(cfg.lib, c, Source(c, Found(s.log), cfg.tape), start, drawn + [chunk])
    ensures Consumed(c, Found(s.log), drawn + [chunk])
         == Consumed(c, Found(s.log), drawn) + if s.mode.Zero? then 0 else |chunk|
  {
    ZeroSlice(start + Len(drawn), |chunk|);
    OneMoreChunk(cfg.lib, c, Source(c, Found(s.log), cfg.tape), start, drawn, chunk);
  }

  lemma InsideStep(cfg: Config, s: State, t: nat, e: Event)
    requires LockInv(cfg, s) && DataInv(cfg, s)
    requires Enabled(cfg, s, t, e) && s.threads[t].pc.Inside?
    ensures DataInv(cfg, Next(cfg, s, t, e))
  {
    var Inside(c, start, drawn) := s.threads[t].pc;
    if e.DrawBytes? {
      DrawExtends(cfg, s, c, start, drawn, Supply(cfg, s, cfg.lib.Act(c, drawn).n));
    }
  }

  lemma UnlockStep(cfg: Config, s: State, t: nat)
    requires LockInv(cfg, s) && DataInv(cfg, s)
    requires Enabled(cfg, s, t, Unlock)
    ensures DataInv(cfg, Next(cfg, s, t, Unlock))
  {
    var Leaving(c, start, drawn, o) := s.threads[t].pc;
    LogGrows(cfg, s.log, Entry(t, |s.threads[t].answers|, c, start, drawn, o, s.mode));
    assert s.owner == Some(t);
  }

  /** Outside the library call the owner moves without drawing. */
  lemma OwnerMoves(cfg: Config, s: State, t: nat, e: Event)
    requires LockInv(cfg, s) && DataInv(cfg, s) && Enabled(cfg, s, t, e)
    requires s.owner == Some(t) && !s.threads[t].pc.Inside? && !s.threads[t].pc.Leaving?
    ensures DataInv(cfg, Next(cfg, s, t, e))
  {
  }

  /** The other threads do not touch what the owner relies on. */
  lemma OthersStep(cfg: Config, s: State, t: nat, e: Event)
    requires LockInv(cfg, s) && DataInv(cfg, s) && Enabled(cfg, s, t, e)
    requires s.owner != Some(t)
    ensures DataInv(cfg, Next(cfg, s, t, e))
  {
    assert !Critical(s.threads[t].pc);
    HistoryEffect(cfg, s, t, e);
  }

  lemma {:induction false} DataStep(cfg: Config, s: State, t: nat, e: Event)
    requires LockInv(cfg, s) && DataInv(cfg, s)
    requires Enabled(cfg, s, t, e)
    ensures DataInv(cfg, Next(cfg, s, t, e))
  {
    if s.owner != Some(t) {
      OthersStep(cfg, s, t, e);
    } else if s.threads[t].pc.Inside? {
      InsideStep(cfg, s, t, e);
    } else if s.threads[t].pc.Leaving? {
      UnlockStep(cfg, s, t);
    } else {
      OwnerMoves(cfg, s, t, e);
    }
  }

  lemma InvInit(cfg: Config)
    ensures Inv(cfg, Init(cfg))
  {
  }

  lemma {:induction false} InvStep(cfg: Config, s: State, t: nat, e: Event)
    requires Inv(cfg, s) && Enabled(cfg, s, t, e)
    ensures Inv(cfg, Next(cfg, s, t, e))
  {
    LockStep(cfg, s, t, e);
    ProgramStep(cfg, s, t, e);
    HistoryStep(cfg, s, t, e);
    DataStep(cfg, s, t, e);
  }

  lemma {:induction false} InvExec(cfg: Config, s: State, tr: Trace)
    requires Inv(cfg, s) && Runs(cfg, s, tr)
    ensures Inv(cfg, Exec(cfg, s, tr))
    decreases |tr|
  {
    if tr != [] {
      InvStep(cfg, s, tr[0].0, tr[0].1);
      InvExec(cfg, Next(cfg, s, tr[0].0, tr[0].1), tr[1..]);
    }
  }

  /** The reachable states of a configuration. */
  ghost predicate Reachable(cfg: Config, s: State) {
    exists tr: Trace :: Runs(cfg, Init(cfg), tr) && Exec(cfg, Init(cfg), tr) == s
  }

  lemma ReachableInv(cfg: Config, s: State)
    requires Reachable(cfg, s)
    ensures Inv(cfg, s)
  {
    InvInit(cfg);
    var tr: Trace :| Runs(cfg, Init(cfg), tr) && Exec(cfg, Init(cfg), tr) == s;
    InvExec(cfg, Init(cfg), tr);
  }
}
