/**
 What the lock protocol guarantees, over every interleaving of any number of
 threads: the generator mode, serialisability, determinism of deterministic
 signing, and completion.
 */
module RngTheorems {
  import opened Bytes
  import opened Liboqs
  import opened RngProtocol

  // ---- Who switched, when the generator is found at zeros ----

  lemma {:induction false} LogAt(cfg: Config, log: seq<Entry>, i: nat)
    requires LogOk(cfg, log) && i < |log|
    ensures LogOk(cfg, log[..i]) && EntryOk(cfg, Found(log[..i]), log[i]) && log[i].start == EndOf(log[..i])
    decreases |log|
  {
    var before := log[..|log| - 1];
    if i < |log| - 1 {
      LogAt(cfg, before, i);
      assert before[..i] == log[..i];
    }
  }

  /** Zeros can only be found behind a deterministic sign that found the system generator and left zeros. */
  lemma {:induction false} FirstSpoiler(cfg: Config, log: seq<Entry>) returns (k: nat)
    requires LogOk(cfg, log) && Found(log) == Zero
    ensures k < |log| && log[k].call.SignDeterministic? && !Dependable(cfg)
  {
    var before := log[..|log| - 1];
    if Found(before) == Zero {
      k := FirstSpoiler(cfg, before);
    } else {
      k := |log| - 1;
    }
  }

  lemma {:induction false} CallsAt(answers: seq<Answer>, i: nat)
    requires i < |answers|
    ensures |Calls(answers)| == |answers| && Calls(answers)[i] == answers[i].call
  {
    if i < |answers| - 1 {
      CallsAt(answers[..|answers| - 1], i);
    } else if |answers| > 1 {
      CallsAt(answers[..|answers| - 1], 0);
    }
  }

  lemma {:induction false} InSectionsOf(log: seq<Entry>, k: nat)
    requires k < |log|
    ensures (log[k].call, log[k].outcome) in Sections(log, log[k].tid)
  {
    if k < |log| - 1 {
      InSectionsOf(log[..|log| - 1], k);
    }
  }

  lemma {:induction false} AmongAnswers(answers: seq<Answer>, p: (Call, Outcome)) returns (i: nat)
    requires p in Locked(answers)
    ensures i < |answers| && answers[i].call == p.0
  {
    var a := answers[|answers| - 1];
    if a.locked && p == (a.call, a.outcome) {
      i := |answers| - 1;
    } else {
      i := AmongAnswers(answers[..|answers| - 1], p);
    }
  }

  /** A finished section is an accepted call of its thread's program, already answered. */
  lemma EntryInProgram(cfg: Config, s: State, k: nat) returns (t: nat, i: nat)
    requires Inv(cfg, s) && k < |s.log|
    ensures t < |s.threads| == |cfg.programs| && i < |Calls(s.threads[t].answers)| && i < |cfg.programs[t]|
    ensures cfg.programs[t][i] == s.log[k].call && cfg.lib.accepts(s.log[k].call)
  {
    LogAt(cfg, s.log, k);
    t := s.log[k].tid;
    InSectionsOf(s.log, k);
    var th := s.threads[t];
    i := AmongAnswers(th.answers, (s.log[k].call, s.log[k].outcome));
    CallsAt(th.answers, i);
    AtFront(Calls(th.answers), Current(th.pc), th.todo, i);
  }

  lemma AtFront<T>(a: seq<T>, b: seq<T>, c: seq<T>, i: nat)
    requires i < |a|
    ensures (a + b + c)[i] == a[i]
  {
  }

  lemma AtMiddle<T>(a: seq<T>, x: T, c: seq<T>)
    ensures (a + [x] + c)[|a|] == x
  {
  }

  /** So a sound configuration never finds zeros. */
  lemma FoundSystem(cfg: Config, s: State, i: nat)
    requires Sound(cfg) && Inv(cfg, s) && i <= |s.log|
    ensures Found(s.log[..i]) == System
  {
    if Found(s.log[..i]) == Zero {
      PrefixOk(cfg, s.log, i);
      var k := FirstSpoiler(cfg, s.log[..i]);
      assert s.log[..i][k] == s.log[k];
      var t, j := EntryInProgram(cfg, s, k);
      assert Switches(cfg, cfg.programs[t][j]);
    }
  }

  lemma PrefixOk(cfg: Config, log: seq<Entry>, i: nat)
    requires LogOk(cfg, log) && i <= |log|
    ensures LogOk(cfg, log[..i])
  {
    if i < |log| {
      LogAt(cfg, log, i);
    } else {
      assert log[..i] == log;
    }
  }

  // ---- Generator mode ----

  /** Zeros reach deterministic signs only, and reach them always. */
  ghost predicate DrawsRight(cfg: Config, s: State) {
    forall t, n :: 0 <= t < |s.threads| && s.threads[t].pc.Inside? ==>
      Supply(cfg, s, n) ==
        if s.threads[t].pc.call.SignDeterministic? then Zeros(n) else Slice(cfg.tape, s.pos, n)
  }

  /** The call a thread is making stands in its program behind the answered ones. */
  lemma CurrentInProgram(cfg: Config, s: State, t: nat)
    requires Inv(cfg, s) && t < |s.threads| && !s.threads[t].pc.Idle?
    ensures |Calls(s.threads[t].answers)| < |cfg.programs[t]|
    ensures cfg.programs[t][|Calls(s.threads[t].answers)|] == s.threads[t].pc.call
  {
    var th := s.threads[t];
    AtMiddle(Calls(th.answers), th.pc.call, th.todo);
  }

  lemma ModeSafety(cfg: Config, s: State)
    requires Sound(cfg) && Reachable(cfg, s)
    ensures ModeInv(s) && DrawsRight(cfg, s)
    ensures s.owner.None? ==> s.mode == System
  {
    ReachableInv(cfg, s);
    FoundSystem(cfg, s, |s.log|);
    assert s.log[..|s.log|] == s.log;
    if s.owner.Some? && s.threads[s.owner.value].pc.Leaving? && s.threads[s.owner.value].pc.call.SignDeterministic? {
      var t := s.owner.value;
      CurrentInProgram(cfg, s, t);
      assert Switches(cfg, cfg.programs[t][|Calls(s.threads[t].answers)|]);
    }
  }

  // ---- The lock, in every configuration ----

  /** Two threads are never in the section together, and the thread in it holds the lock. */
  lemma MutualExclusion(cfg: Config, s: State)
    requires Reachable(cfg, s)
    ensures forall t :: 0 <= t < |s.threads| ==> (Critical(s.threads[t].pc) <==> s.owner == Some(t))
    ensures forall t, u :: 0 <= t < u < |s.threads| ==> !(Critical(s.threads[t].pc) && Critical(s.threads[u].pc))
  {
    ReachableInv(cfg, s);
  }

  /** Only the thread that holds the lock gives it up, by unlocking, and an idle thread never holds it. */
  lemma LockDiscipline(cfg: Config, s: State, t: nat, e: Event)
    requires Reachable(cfg, s) && Enabled(cfg, s, t, e)
    ensures var s' := Next(cfg, s, t, e);
      && (s.owner.Some? && s'.owner != s.owner ==> s.owner == Some(t) && e == Unlock && s'.owner == None)
      && (s'.owner.Some? && s'.owner != s.owner ==> s.owner == None && s'.owner == Some(t) && e == Lock)
      && (s'.threads[t].pc.Idle? ==> s'.owner != Some(t))
      && (e == Reject ==> s.owner != Some(t))
  {
    ReachableInv(cfg, s);
    OwnerStep(cfg, s, t, e);
  }

  /** Where the generator is always switched back, it is back before the lock is given up. */
  lemma UnlocksWithSystem(cfg: Config, s: State, t: nat)
    requires Sound(cfg) && Reachable(cfg, s) && Enabled(cfg, s, t, Unlock)
    ensures s.mode == System && Next(cfg, s, t, Unlock).mode == System
  {
    ReachableInv(cfg, s);
    ModeSafety(cfg, s);
  }

  // ---- Serialisability ----

  /** The jobs executed one after the other by a process with one thread. */
  function Replay(lib: Library, tape: Tape, jobs: seq<Job>): (seq<Outcome>, Generator)
  {
    if jobs == [] then ([], Generator(System, 0))
    else
      var (outs, g) := Replay(lib, tape, jobs[..|jobs| - 1]);
      var (o, g') := Serial(lib, tape, g, jobs[|jobs| - 1]);
      (outs + [o], g')
  }

  function JobOf(e: Entry): Job {
    Job(e.call, CutFor(e.drawn, e.outcome), e.left)
  }

  function Jobs(log: seq<Entry>): seq<Job> {
    if log == [] then [] else Jobs(log[..|log| - 1]) + [JobOf(log[|log| - 1])]
  }

  function Outcomes(log: seq<Entry>): seq<Outcome> {
    if log == [] then [] else Outcomes(log[..|log| - 1]) + [log[|log| - 1].outcome]
  }

  lemma ReplayLast(lib: Library, tape: Tape, jobs: seq<Job>, j: Job)
    ensures var (outs, g) := Replay(lib, tape, jobs);
      Replay(lib, tape, jobs + [j]) == (outs + [Serial(lib, tape, g, j).0], Serial(lib, tape, g, j).1)
  {
    assert (jobs + [j])[..|jobs|] == jobs;
  }

  lemma {:induction false} LogReplays(cfg: Config, log: seq<Entry>)
    requires LogOk(cfg, log)
    ensures Replay(cfg.lib, cfg.tape, Jobs(log)) == (Outcomes(log), Generator(Found(log), EndOf(log)))
  {
    if log != [] {
      var before, e := log[..|log| - 1], log[|log| - 1];
      LogReplays(cfg, before);
      LegitIsSerial(cfg.lib, cfg.tape, Generator(Found(before), EndOf(before)), e.call, e.drawn, e.outcome, e.left);
      ReplayLast(cfg.lib, cfg.tape, Jobs(before), JobOf(e));
    }
  }

  /** The faults of the replay are those of the run: a deterministic sign leaves zeros only where it can. */
  lemma FaultsAreReal(cfg: Config, log: seq<Entry>, i: nat)
    requires LogOk(cfg, log) && i < |log| && Found(log[..i]) == System && log[i].left == Zero
    ensures log[i].call.SignDeterministic? && !Dependable(cfg)
  {
    LogAt(cfg, log, i);
  }

  /**
   In every configuration, every interleaving gives every call what a one-thread
   process gives it that makes the locked calls in the order the lock was acquired,
   with the same faults: it starts from the generator that the calls before have
   left, reads zeros where zeros are installed, and a deterministic sign leaves
   zeros behind only where a switch can fail.
   */
  lemma Serialisable(cfg: Config, s: State)
    requires Reachable(cfg, s)
    ensures Replay(cfg.lib, cfg.tape, Jobs(s.log)).0 == Outcomes(s.log)
    ensures s.owner == None ==> Generator(s.mode, s.pos) == Replay(cfg.lib, cfg.tape, Jobs(s.log)).1
    ensures s.acquired == Pairs(s.log) + Pending(s)
    ensures forall t :: 0 <= t < |s.threads| ==> Locked(s.threads[t].answers) == Sections(s.log, t)
    ensures forall i :: 0 <= i < |s.log| && Found(s.log[..i]) == System && s.log[i].left == Zero ==>
              s.log[i].call.SignDeterministic? && !Dependable(cfg)
  {
    ReachableInv(cfg, s);
    LogReplays(cfg, s.log);
    forall i | 0 <= i < |s.log| && Found(s.log[..i]) == System && s.log[i].left == Zero
      ensures s.log[i].call.SignDeterministic? && !Dependable(cfg)
    {
      FaultsAreReal(cfg, s.log, i);
    }
  }

  lemma {:induction false} JobsAt(log: seq<Entry>, i: nat)
    requires i < |log|
    ensures |Jobs(log)| == |log| && Jobs(log)[i] == JobOf(log[i])
  {
    if i < |log| - 1 {
      JobsAt(log[..|log| - 1], i);
    } else if |log| > 1 {
      JobsAt(log[..|log| - 1], 0);
    }
  }

  lemma LeftSystem(cfg: Config, s: State, i: nat)
    requires Sound(cfg) && Inv(cfg, s) && i < |s.log|
    ensures s.log[i].left == System
  {
    FoundSystem(cfg, s, i + 1);
    assert s.log[..i + 1][i] == s.log[i];
  }

  lemma {:induction false} AllJobsLeave(log: seq<Entry>, m: Mode)
    requires forall i :: 0 <= i < |log| ==> log[i].left == m
    ensures |Jobs(log)| == |log|
    ensures forall j <- Jobs(log) :: j.left == m
  {
    if log != [] {
      AllJobsLeave(log[..|log| - 1], m);
    }
  }

  /** Where every switch is undone, so it is in the replay: it leaves the system generator after every call. */
  lemma ReplayIsUndisturbed(cfg: Config, s: State)
    requires Sound(cfg) && Reachable(cfg, s)
    ensures |Jobs(s.log)| == |s.log|
    ensures forall j <- Jobs(s.log) :: j.left == System
    ensures Replay(cfg.lib, cfg.tape, Jobs(s.log)).1.mode == System
  {
    ReachableInv(cfg, s);
    LogReplays(cfg, s.log);
    forall i | 0 <= i < |s.log| ensures s.log[i].left == System {
      LeftSystem(cfg, s, i);
    }
    AllJobsLeave(s.log, System);
  }

  /** The order of the sections needs no assumption: log order is acquisition order, thread by thread too. */
  lemma AcquisitionOrder(cfg: Config, s: State)
    requires Reachable(cfg, s)
    ensures s.acquired == Pairs(s.log) + Pending(s)
    ensures forall t :: 0 <= t < |s.threads| ==> Locked(s.threads[t].answers) == Sections(s.log, t)
    ensures |s.threads| == |cfg.programs|
    ensures forall t :: 0 <= t < |s.threads| ==>
              Calls(s.threads[t].answers) + Current(s.threads[t].pc) + s.threads[t].todo == cfg.programs[t]
  {
    ReachableInv(cfg, s);
  }

  /**
   Without the lock: an accepted verify or decapsulate reports the library's result
   or a failure, a rejected call a failure, and in Python verify reports "invalid"
   in place of every failure of its own.
   */
  lemma UnlockedAnswers(cfg: Config, s: State, t: nat, i: nat)
    requires Reachable(cfg, s)
    requires t < |s.threads| && i < |s.threads[t].answers| && !s.threads[t].answers[i].locked
    ensures var a := s.threads[t].answers[i];
      && (a.call.Keygen? || a.call.SignDeterministic? || a.call.SignHedged? || a.call.Encapsulate? ==> a.outcome == Failed)
      && (a.call.Decapsulate? ==> a.outcome == Failed || (cfg.lib.accepts(a.call) && a.outcome == cfg.lib.last(a.call, [])))
      && (a.call.Verify? ==>
            || (cfg.lib.accepts(a.call) && (a.outcome == cfg.lib.last(a.call, []) || a.outcome == Done([0])))
            || a.outcome == if cfg.binding.Python? then Done([0]) else Failed)
  {
    ReachableInv(cfg, s);
    assert Unlocked(cfg, s.threads[t].answers[i]);
  }

  lemma {:induction false} LegitIsBlock(lib: Library, c: Call, src: Tape, start: nat, drawn: seq<seq<byte>>)
    requires Legit(lib, c, src, start, drawn)
    ensures Flat(drawn) == Slice(src, start, Len(drawn))
  {
    if drawn != [] {
      var before, chunk := drawn[..|drawn| - 1], drawn[|drawn| - 1];
      LegitIsBlock(lib, c, src, start, before);
      FlatAppend(before, chunk);
      assert drawn == before + [chunk];
    }
  }

  lemma {:induction false} EndsGrow(cfg: Config, log: seq<Entry>, i: nat, j: nat)
    requires LogOk(cfg, log) && i <= j <= |log|
    ensures EndOf(log[..i]) <= EndOf(log[..j])
    decreases j - i
  {
    if i < j {
      EndsGrow(cfg, log, i, j - 1);
      LogAt(cfg, log, j - 1);
      EndOfPrefix(log, j - 1);
    }
  }

  /** Where the section at i stopped. */
  function BlockEnd(log: seq<Entry>, i: nat): nat
    requires i < |log|
  {
    log[i].start + Consumed(log[i].call, Found(log[..i]), log[i].drawn)
  }

  lemma EndOfPrefix(log: seq<Entry>, k: nat)
    requires k < |log|
    ensures EndOf(log[..k + 1]) == BlockEnd(log, k)
  {
    var p := log[..k + 1];
    assert p[k] == log[k] && p[..k] == log[..k];
  }

  lemma LaterBlock(cfg: Config, log: seq<Entry>, i: nat, j: nat)
    requires LogOk(cfg, log) && i < j <= |log|
    ensures BlockEnd(log, i) <= EndOf(log[..j])
  {
    EndOfPrefix(log, i);
    EndsGrow(cfg, log, i + 1, j);
  }

  lemma BlocksFollow(cfg: Config, log: seq<Entry>, i: nat)
    requires LogOk(cfg, log) && i < |log|
    ensures log[i].start == if i == 0 then 0 else BlockEnd(log, i - 1)
    ensures forall j :: i < j < |log| ==> BlockEnd(log, i) <= log[j].start
    ensures BlockEnd(log, i) <= EndOf(log)
  {
    LogAt(cfg, log, i);
    if i > 0 {
      EndOfPrefix(log, i - 1);
    }
    forall j | i < j < |log| ensures BlockEnd(log, i) <= log[j].start {
      LogAt(cfg, log, j);
      LaterBlock(cfg, log, i, j);
    }
    LaterBlock(cfg, log, i, |log|);
    assert log[..|log|] == log;
  }

  lemma EntryBlock(cfg: Config, found: Mode, e: Entry)
    requires EntryOk(cfg, found, e)
    ensures ReadsZeros(e.call, found) ==> Flat(e.drawn) == Zeros(Len(e.drawn))
    ensures !ReadsZeros(e.call, found) ==> Flat(e.drawn) == Slice(cfg.tape, e.start, Len(e.drawn))
  {
    LegitIsBlock(cfg.lib, e.call, Source(e.call, found, cfg.tape), e.start, e.drawn);
    ZeroSlice(e.start, Len(e.drawn));
  }

  /**
   In every configuration the system bytes handed out are cut into consecutive
   blocks, one per section: each section starts where its predecessor ended, later
   blocks never reach back into earlier ones. A deterministic sign takes none and
   saw only zeros; so did a call that found zeros left behind. Byte k of any other
   section is byte k of the tape from where the section starts.
   */
  lemma SystemBytesAreTiled(cfg: Config, s: State, i: nat)
    requires Reachable(cfg, s) && i < |s.log|
    ensures s.log[i].start == if i == 0 then 0 else BlockEnd(s.log, i - 1)
    ensures forall j :: i < j < |s.log| ==> BlockEnd(s.log, i) <= s.log[j].start
    ensures BlockEnd(s.log, i) <= s.pos
    ensures var e, zeros := s.log[i], s.log[i].call.SignDeterministic? || Found(s.log[..i]) == Zero;
      && BlockEnd(s.log, i) == e.start + (if zeros then 0 else |Flat(e.drawn)|)
      && forall k :: 0 <= k < |Flat(e.drawn)| ==> Flat(e.drawn)[k] == if zeros then 0 else cfg.tape(e.start + k)
    ensures Sound(cfg) ==> Found(s.log[..i]) == System
  {
    ReachableInv(cfg, s);
    BlocksFollow(cfg, s.log, i);
    LogAt(cfg, s.log, i);
    EntryBlock(cfg, Found(s.log[..i]), s.log[i]);
    TapeBeyondLog(cfg, s);
    if Sound(cfg) {
      FoundSystem(cfg, s, i);
    }
  }

  lemma {:induction false} ChunkAt(lib: Library, c: Call, src: Tape, start: nat, drawn: seq<seq<byte>>, d: nat)
    requires Legit(lib, c, src, start, drawn) && d < |drawn|
    ensures lib.Act(c, drawn[..d]) == Draw(|drawn[d]|)
    ensures drawn[d] == Slice(src, start + |Flat(drawn[..d])|, |drawn[d]|)
  {
    var before := drawn[..|drawn| - 1];
    if d < |before| {
      ChunkAt(lib, c, src, start, before, d);
      assert before[..d] == drawn[..d];
    } else {
      LegitIsBlock(lib, c, src, start, before);
    }
  }

  /** Chunk d is as long as the library asked for, and holds the next bytes of the tape, or zeros. */
  ghost predicate ChunkRead(cfg: Config, e: Entry, zeros: bool, d: nat)
    requires d < |e.drawn|
  {
    && d < cfg.lib.budget(e.call) && cfg.lib.next(e.call, e.drawn[..d]) == Draw(|e.drawn[d]|)
    && forall k :: 0 <= k < |e.drawn[d]| ==>
         e.drawn[d][k] == if zeros then 0 else cfg.tape(e.start + |Flat(e.drawn[..d])| + k)
  }

  lemma EntryChunk(cfg: Config, found: Mode, e: Entry, d: nat)
    requires EntryOk(cfg, found, e) && d < |e.drawn|
    ensures ChunkRead(cfg, e, e.call.SignDeterministic? || found == Zero, d)
  {
    ChunkAt(cfg.lib, e.call, Source(e.call, found, cfg.tape), e.start, e.drawn, d);
    ZeroSlice(e.start + |Flat(e.drawn[..d])|, |e.drawn[d]|);
  }

  /** A finished section is the library's own conversation with the generator, chunk after chunk. */
  lemma SectionIsConversation(cfg: Config, s: State, i: nat, d: nat)
    requires Reachable(cfg, s) && i < |s.log| && d < |s.log[i].drawn|
    ensures ChunkRead(cfg, s.log[i], s.log[i].call.SignDeterministic? || Found(s.log[..i]) == Zero, d)
  {
    ReachableInv(cfg, s);
    LogAt(cfg, s.log, i);
    EntryChunk(cfg, Found(s.log[..i]), s.log[i], d);
  }

  lemma TapeBeyondLog(cfg: Config, s: State)
    requires Inv(cfg, s)
    ensures EndOf(s.log) <= s.pos
  {
    if s.owner.Some? {
      assert Critical(s.threads[s.owner.value].pc);
    }
  }

  // ---- Determinism across runs ----

  /** What the library returns for a deterministic sign alone, fed zeros. */
  function Signature(lib: Library, c: Call): Outcome {
    Run(lib, c, ZERO_TAPE, 0, [], None).0
  }

  lemma {:induction false} ZeroRunIgnoresPosition(lib: Library, c: Call, at: nat, at': nat, drawn: seq<seq<byte>>, cut: Option<nat>)
    ensures Run(lib, c, ZERO_TAPE, at, drawn, cut).0 == Run(lib, c, ZERO_TAPE, at', drawn, cut).0
    decreases lib.budget(c) - |drawn|
  {
    if cut != Some(0) && lib.Act(c, drawn).Draw? {
      var n := lib.Act(c, drawn).n;
      ZeroSlice(at, n);
      ZeroSlice(at', n);
      ZeroRunIgnoresPosition(lib, c, at + n, at' + n, drawn + [Zeros(n)], if cut.Some? then Some(cut.value - 1) else None);
    }
  }

  lemma {:induction false} LockedAnswerIsLogged(log: seq<Entry>, answers: seq<Answer>, t: nat, i: nat) returns (k: nat)
    requires Locked(answers) == Sections(log, t)
    requires i < |answers| && answers[i].locked
    ensures k < |log| && log[k].call == answers[i].call && log[k].outcome == answers[i].outcome
  {
    InLocked(answers, i);
    k := InSections(log, t, (answers[i].call, answers[i].outcome));
  }

  lemma {:induction false} InLocked(answers: seq<Answer>, i: nat)
    requires i < |answers| && answers[i].locked
    ensures (answers[i].call, answers[i].outcome) in Locked(answers)
  {
    if i < |answers| - 1 {
      InLocked(answers[..|answers| - 1], i);
    }
  }

  lemma {:induction false} InSections(log: seq<Entry>, t: nat, p: (Call, Outcome)) returns (k: nat)
    requires p in Sections(log, t)
    ensures k < |log| && (log[k].call, log[k].outcome) == p
  {
    var e := log[|log| - 1];
    if e.tid == t && p == (e.call, e.outcome) {
      k := |log| - 1;
    } else {
      k := InSections(log[..|log| - 1], t, p);
    }
  }

  /** In every configuration a deterministic sign that succeeds returns the library's signature over zeros. */
  lemma SignIsSignature(cfg: Config, s: State, t: nat, i: nat)
    requires Reachable(cfg, s)
    requires t < |s.threads| && i < |s.threads[t].answers|
    requires s.threads[t].answers[i].call.SignDeterministic? && s.threads[t].answers[i].outcome != Failed
    ensures s.threads[t].answers[i].outcome == Signature(cfg.lib, s.threads[t].answers[i].call)
  {
    ReachableInv(cfg, s);
    var a := s.threads[t].answers[i];
    assert Unlocked(cfg, a);
    var k := LockedAnswerIsLogged(s.log, s.threads[t].answers, t, i);
    var e := s.log[k];
    LogAt(cfg, s.log, k);
    LegitIsSerial(cfg.lib, cfg.tape, Generator(Found(s.log[..k]), e.start), e.call, e.drawn, e.outcome, e.left);
    ZeroRunIgnoresPosition(cfg.lib, e.call, e.start, 0, [], None);
  }

  /**
   Two runs of either binding over the same library, with any tapes, programs,
   interleavings and faults: equal deterministic signs that succeed return equal bytes.
   */
  lemma DeterministicAcrossRuns(cfg: Config, cfg': Config, s: State, s': State, t: nat, t': nat, i: nat, i': nat)
    requires cfg.lib == cfg'.lib
    requires Reachable(cfg, s) && Reachable(cfg', s')
    requires t < |s.threads| && i < |s.threads[t].answers|
    requires t' < |s'.threads| && i' < |s'.threads[t'].answers|
    requires s.threads[t].answers[i].call == s'.threads[t'].answers[i'].call
    requires s.threads[t].answers[i].call.SignDeterministic?
    requires s.threads[t].answers[i].outcome != Failed && s'.threads[t'].answers[i'].outcome != Failed
    ensures s.threads[t].answers[i].outcome == s'.threads[t'].answers[i'].outcome
  {
    SignIsSignature(cfg, s, t, i);
    SignIsSignature(cfg', s', t', i');
  }

  /** For a library that signs with one 32-byte `rnd` (FIPS 204), that is the signature for rnd = 32 zero bytes. */
  lemma SignatureUsesZeroRnd(lib: Library, c: Call)
    requires c.SignDeterministic? && lib.budget(c) == 1 && lib.next(c, []) == Draw(32)
    ensures Signature(lib, c) == lib.last(c, [Zeros(32)])
  {
    ZeroSlice(0, 32);
    assert [] + [Zeros(32)] == [Zeros(32)];
    assert Run(lib, c, ZERO_TAPE, 32, [Zeros(32)], None).0 == lib.last(c, [Zeros(32)]);
  }

  // ---- Completion ----

  predicate ThreadDone(th: Thread) {
    th.pc.Idle? && th.todo == []
  }

  ghost predicate Finished(s: State) {
    forall t :: 0 <= t < |s.threads| ==> ThreadDone(s.threads[t])
  }

  function Queue(lib: Library, todo: seq<Call>): nat {
    if todo == [] then 0 else 10 + lib.budget(todo[0]) + Queue(lib, todo[1..])
  }

  /** An upper bound on the steps left in the current call. */
  function Left(lib: Library, pc: Pc): nat {
    match pc
    case Idle => 0
    case Preparing(c) => 9 + lib.budget(c)
    case Waiting(c) => 8 + lib.budget(c)
    case Entered(c) => 7 + lib.budget(c)
    case Switched(c) => 6 + lib.budget(c)
    case Inside(c, start, drawn) => 3 + if |drawn| < lib.budget(c) then lib.budget(c) - |drawn| else 0
    case Restoring(c, start, drawn, o) => 2
    case Leaving(c, start, drawn, o) => 1
    case Computing(c) => 1
  }

  function Measure(lib: Library, threads: seq<Thread>): nat {
    if threads == [] then 0
    else Queue(lib, threads[0].todo) + Left(lib, threads[0].pc) + Measure(lib, threads[1..])
  }

  lemma {:induction false} MeasureUpdate(lib: Library, threads: seq<Thread>, t: nat, th: Thread)
    requires t < |threads|
    ensures Measure(lib, threads[t := th]) + Queue(lib, threads[t].todo) + Left(lib, threads[t].pc)
         == Measure(lib, threads) + Queue(lib, th.todo) + Left(lib, th.pc)
  {
    if t > 0 {
      assert threads[t := th][1..] == threads[1..][t - 1 := th];
      MeasureUpdate(lib, threads[1..], t - 1, th);
    } else {
      assert threads[t := th][1..] == threads[1..];
    }
  }

  lemma LeftDrops(cfg: Config, s: State, t: nat, e: Event) returns (th': Thread)
    requires Enabled(cfg, s, t, e)
    ensures Next(cfg, s, t, e).threads == s.threads[t := th']
    ensures Queue(cfg.lib, th'.todo) + Left(cfg.lib, th'.pc)
          < Queue(cfg.lib, s.threads[t].todo) + Left(cfg.lib, s.threads[t].pc)
  {
    th' := Next(cfg, s, t, e).threads[t];
  }

  lemma StepDecreases(cfg: Config, s: State, t: nat, e: Event)
    requires Enabled(cfg, s, t, e)
    ensures Measure(cfg.lib, Next(cfg, s, t, e).threads) < Measure(cfg.lib, s.threads)
  {
    var th' := LeftDrops(cfg, s, t, e);
    MeasureUpdate(cfg.lib, s.threads, t, th');
  }

  /** No run is longer than the measure of the state it starts in. */
  lemma {:induction false} RunsAreBounded(cfg: Config, s: State, tr: Trace)
    requires Runs(cfg, s, tr)
    ensures |tr| + Measure(cfg.lib, Exec(cfg, s, tr).threads) <= Measure(cfg.lib, s.threads)
    decreases |tr|
  {
    if tr != [] {
      StepDecreases(cfg, s, tr[0].0, tr[0].1);
      RunsAreBounded(cfg, Next(cfg, s, tr[0].0, tr[0].1), tr[1..]);
    }
  }

  /** A step a thread can take, when it is not stopped at the lock. */
  function Choice(cfg: Config, s: State, t: nat): Event
    requires t < |s.threads|
  {
    match s.threads[t].pc
    case Idle => Begin
    case Preparing(c) => if cfg.lib.accepts(c) then Accept else Reject
    case Waiting(c) => Lock
    case Entered(c) => if c.SignDeterministic? then Install else Start
    case Switched(c) => Start
    case Inside(c, start, drawn) => if cfg.lib.Act(c, drawn).Draw? then DrawBytes else Finish
    case Restoring(c, start, drawn, o) => Restore
    case Leaving(c, start, drawn, o) => Unlock
    case Computing(c) => Finish
  }

  /**
   While a call is unfinished some thread can step: no reachable deadlock, not even
   when switching back fails or an exception lands before the `try`.
   */
  lemma NoDeadlock(cfg: Config, s: State) returns (t: nat, e: Event)
    requires Reachable(cfg, s) && !Finished(s)
    ensures Enabled(cfg, s, t, e) && e == Choice(cfg, s, t)
  {
    ReachableInv(cfg, s);
    if s.owner.Some? {
      t := s.owner.value;
      assert Critical(s.threads[t].pc);
    } else {
      t :| t < |s.threads| && !ThreadDone(s.threads[t]);
    }
    e := Choice(cfg, s, t);
  }

  /**
   A run that cannot go on has answered every call of every program, in order, with
   the lock free; and with the generator back and the tape read as by a serial
   process, where the generator is always switched back.
   */
  lemma StuckIsComplete(cfg: Config, s: State)
    requires Reachable(cfg, s)
    requires forall t, e :: !Enabled(cfg, s, t, e)
    ensures s.owner == None && |s.threads| == |cfg.programs|
    ensures forall t :: 0 <= t < |s.threads| ==> Calls(s.threads[t].answers) == cfg.programs[t]
    ensures s.acquired == Pairs(s.log)
    ensures Generator(s.mode, s.pos) == Replay(cfg.lib, cfg.tape, Jobs(s.log)).1
    ensures Sound(cfg) ==> s.mode == System
  {
    if !Finished(s) {
      var t, e := NoDeadlock(cfg, s);
      assert false;
    }
    ReachableInv(cfg, s);
    FinishedIsComplete(cfg, s);
    Serialisable(cfg, s);
    if Sound(cfg) {
      ModeSafety(cfg, s);
    }
  }

  lemma FinishedIsComplete(cfg: Config, s: State)
    requires Inv(cfg, s) && Finished(s)
    ensures s.owner == None && |s.threads| == |cfg.programs|
    ensures forall t :: 0 <= t < |s.threads| ==> Calls(s.threads[t].answers) == cfg.programs[t]
    ensures s.acquired == Pairs(s.log)
  {
    if s.owner.Some? {
      assert false;
    }
    assert Pairs(s.log) + [] == Pairs(s.log);
    forall t | 0 <= t < |s.threads| ensures Calls(s.threads[t].answers) == cfg.programs[t] {
      assert ThreadDone(s.threads[t]);
      NothingBehind(Calls(s.threads[t].answers));
    }
  }

  lemma NothingBehind(calls: seq<Call>)
    ensures calls + [] + [] == calls
  {
  }

  // ---- Exactly when the guarantee holds ----

  lemma {:induction false} RunsOn(cfg: Config, s: State, tr: Trace, t: nat, e: Event)
    requires Runs(cfg, s, tr) && Enabled(cfg, Exec(cfg, s, tr), t, e)
    ensures Runs(cfg, s, tr + [(t, e)])
    ensures Exec(cfg, s, tr + [(t, e)]) == Next(cfg, Exec(cfg, s, tr), t, e)
    decreases |tr|
  {
    if tr == [] {
      assert tr + [(t, e)] == [(t, e)];
    } else {
      RunsOn(cfg, Next(cfg, s, tr[0].0, tr[0].1), tr[1..], t, e);
      assert (tr + [(t, e)])[1..] == tr[1..] + [(t, e)];
    }
  }

  lemma StepReachable(cfg: Config, s: State, t: nat, e: Event)
    requires Reachable(cfg, s) && Enabled(cfg, s, t, e)
    ensures Reachable(cfg, Next(cfg, s, t, e))
  {
    var tr: Trace :| Runs(cfg, Init(cfg), tr) && Exec(cfg, Init(cfg), tr) == s;
    RunsOn(cfg, Init(cfg), tr, t, e);
    assert Exec(cfg, Init(cfg), tr + [(t, e)]) == Next(cfg, s, t, e);
  }

  lemma Take(cfg: Config, s: State, t: nat, e: Event) returns (s': State)
    requires Reachable(cfg, s) && Enabled(cfg, s, t, e)
    ensures s' == Next(cfg, s, t, e) && Reachable(cfg, s')
  {
    StepReachable(cfg, s, t, e);
    s' := Next(cfg, s, t, e);
  }

  lemma InitReachable(cfg: Config)
    ensures Reachable(cfg, Init(cfg))
  {
    var none: Trace := [];
    assert Runs(cfg, Init(cfg), none) && Exec(cfg, Init(cfg), none) == Init(cfg);
  }

  /** The lock is free, the generator is in this mode and thread t is about to make these calls. */
  predicate Poised(s: State, t: nat, todo: seq<Call>, m: Mode) {
    && s.owner == None && s.mode == m
    && t < |s.threads| && s.threads[t].pc == Idle && s.threads[t].todo == todo
  }

  /** The other threads have not moved. */
  predicate OthersStay(s: State, s': State, t: nat) {
    && |s'.threads| == |s.threads|
    && forall u :: 0 <= u < |s.threads| && u != t ==> s'.threads[u] == s.threads[u]
  }

  /** A call can always keep the mode; where switching back can fail, a deterministic sign can also leave zeros. */
  predicate CanLeave(cfg: Config, c: Call, found: Mode, left: Mode) {
    (left == found && (left.Zero? ==> !Dependable(cfg))) || (left.Zero? && !Dependable(cfg) && Switches(cfg, c))
  }

  /** A thread can get past a call alone, the library failing in it, and leave such a mode. */
  lemma PassCall(cfg: Config, s: State, t: nat, c: Call, rest: seq<Call>, m: Mode) returns (s': State)
    requires Reachable(cfg, s) && Poised(s, t, [c] + rest, s.mode) && CanLeave(cfg, c, s.mode, m)
    ensures Reachable(cfg, s') && Poised(s', t, rest, m) && OthersStay(s, s', t)
  {
    s' := Take(cfg, s, t, Begin);
    if !cfg.lib.accepts(c) {
      s' := Take(cfg, s', t, Reject);
    } else if !TakesLock(c) {
      s' := Take(cfg, s', t, Accept);
      s' := Take(cfg, s', t, Fault);
    } else {
      s' := PassSection(cfg, s', t, m);
    }
  }

  lemma PassSection(cfg: Config, s: State, t: nat, m: Mode) returns (s': State)
    requires Reachable(cfg, s) && s.owner == None
    requires t < |s.threads| && s.threads[t].pc.Preparing?
    requires cfg.lib.accepts(s.threads[t].pc.call) && TakesLock(s.threads[t].pc.call)
    requires CanLeave(cfg, s.threads[t].pc.call, s.mode, m)
    ensures Reachable(cfg, s') && Poised(s', t, s.threads[t].todo, m) && OthersStay(s, s', t)
  {
    s' := EnterSection(cfg, s, t);
    if s.threads[t].pc.call.SignDeterministic? {
      s' := Take(cfg, s', t, Install);
      s' := PassWindow(cfg, s', t, m);
    } else {
      s' := Take(cfg, s', t, Start);
      s' := Take(cfg, s', t, Fault);
    }
    s' := Take(cfg, s', t, Unlock);
  }

  lemma EnterSection(cfg: Config, s: State, t: nat) returns (s': State)
    requires Reachable(cfg, s) && s.owner == None
    requires t < |s.threads| && s.threads[t].pc.Preparing?
    requires cfg.lib.accepts(s.threads[t].pc.call) && TakesLock(s.threads[t].pc.call)
    ensures Reachable(cfg, s') && s'.owner == Some(t) && s'.mode == s.mode && OthersStay(s, s', t)
    ensures s'.threads[t] == s.threads[t].(pc := Entered(s.threads[t].pc.call))
  {
    s' := Take(cfg, s, t, Accept);
    s' := Take(cfg, s', t, Lock);
  }

  /** From the installation of the zero filler to the unlock, with or without switching back. */
  lemma PassWindow(cfg: Config, s: State, t: nat, m: Mode) returns (s': State)
    requires Reachable(cfg, s) && t < |s.threads| && s.threads[t].pc.Switched? && s.threads[t].pc.call.SignDeterministic?
    requires s.mode == Zero && (m == Zero ==> !Dependable(cfg))
    ensures Reachable(cfg, s') && s'.mode == m && s'.owner == s.owner && OthersStay(s, s', t)
    ensures s'.threads[t].pc.Leaving? && s'.threads[t].todo == s.threads[t].todo
  {
    if m == Zero && !cfg.restoreMayFail {
      s' := Take(cfg, s, t, Interrupt);
    } else {
      s' := Take(cfg, s, t, Start);
      s' := Take(cfg, s', t, Fault);
      s' := Take(cfg, s', t, if m == System then Restore else RestoreFails);
    }
  }

  /** Calls one after the other, keeping the mode. */
  lemma {:induction false} PassTo(cfg: Config, s: State, t: nat, todo: seq<Call>, i: nat) returns (s': State)
    requires Reachable(cfg, s) && Poised(s, t, todo, s.mode) && i <= |todo|
    requires s.mode == Zero ==> !Dependable(cfg)
    ensures Reachable(cfg, s') && Poised(s', t, todo[i..], s.mode) && OthersStay(s, s', t)
    decreases i
  {
    s' := s;
    if i > 0 {
      assert todo == [todo[0]] + todo[1..];
      var s1 := PassCall(cfg, s, t, todo[0], todo[1..], s.mode);
      s' := PassTo(cfg, s1, t, todo[1..], i - 1);
      assert todo[1..][i - 1..] == todo[i..];
    }
  }

  /** The call at i, leaving zeros. */
  lemma Spoil(cfg: Config, s: State, t: nat, todo: seq<Call>) returns (s': State)
    requires Reachable(cfg, s) && Poised(s, t, todo, System) && todo != []
    requires !Dependable(cfg) && Switches(cfg, todo[0])
    ensures Reachable(cfg, s') && Poised(s', t, todo[1..], Zero) && OthersStay(s, s', t)
  {
    assert todo == [todo[0]] + todo[1..];
    s' := PassCall(cfg, s, t, todo[0], todo[1..], Zero);
  }

  /** Without a dependable switch, a deterministic sign can leave zeros behind with the lock free. */
  lemma LeavesZeros(cfg: Config, t: nat, i: nat) returns (s: State)
    requires !Dependable(cfg)
    requires t < |cfg.programs| && i < |cfg.programs[t]| && Switches(cfg, cfg.programs[t][i])
    ensures Reachable(cfg, s) && s.owner == None && s.mode == Zero
  {
    InitReachable(cfg);
    s := PassTo(cfg, Init(cfg), t, cfg.programs[t], i);
    s := Spoil(cfg, s, t, cfg.programs[t][i..]);
  }

  /** A key generation, encapsulation or hedged sign that gets past its argument checks. */
  predicate NeedsRandomness(cfg: Config, c: Call) {
    (c.Keygen? || c.SignHedged? || c.Encapsulate?) && cfg.lib.accepts(c)
  }

  /** Such a call is inside liboqs, drawing from the zero filler. */
  ghost predicate Harmed(s: State) {
    exists t :: 0 <= t < |s.threads| && HarmedIn(s, t)
  }

  predicate HarmedIn(s: State, t: nat)
    requires t < |s.threads|
  {
    s.threads[t].pc.Inside? && !s.threads[t].pc.call.SignDeterministic? && s.mode.Zero?
  }

  /** The deterministic sign at i of thread t can come before the call at j of thread u. */
  predicate Exposes(cfg: Config, t: nat, i: nat, u: nat, j: nat) {
    && t < |cfg.programs| && i < |cfg.programs[t]| && Switches(cfg, cfg.programs[t][i])
    && u < |cfg.programs| && j < |cfg.programs[u]| && NeedsRandomness(cfg, cfg.programs[u][j])
    && (t == u ==> i < j)
  }

  ghost predicate Exposed(cfg: Config) {
    exists t: nat, i: nat, u: nat, j: nat :: Exposes(cfg, t, i, u, j)
  }

  /** Up to the call at j of thread u, behind the sign at i of thread t, which leaves zeros. */
  lemma ReachesBehind(cfg: Config, t: nat, i: nat, u: nat, j: nat) returns (s: State)
    requires !Dependable(cfg) && Exposes(cfg, t, i, u, j)
    ensures Reachable(cfg, s) && Poised(s, u, cfg.programs[u][j..], Zero)
  {
    InitReachable(cfg);
    s := PassTo(cfg, Init(cfg), t, cfg.programs[t], i);
    if t == u {
      s := Spoil(cfg, s, t, cfg.programs[t][i..]);
      var todo := cfg.programs[t][i..][1..];
      s := PassTo(cfg, s, t, todo, j - i - 1);
      assert todo[j - i - 1..] == cfg.programs[u][j..];
    } else {
      s := PassTo(cfg, s, u, cfg.programs[u], j);
      s := Spoil(cfg, s, t, cfg.programs[t][i..]);
    }
  }

  lemma EntersWithZeros(cfg: Config, s: State, u: nat, todo: seq<Call>) returns (s': State)
    requires Reachable(cfg, s) && Poised(s, u, todo, Zero) && todo != [] && NeedsRandomness(cfg, todo[0])
    ensures Reachable(cfg, s') && Harmed(s')
  {
    s' := Take(cfg, s, u, Begin);
    s' := Take(cfg, s', u, Accept);
    s' := Take(cfg, s', u, Lock);
    s' := Take(cfg, s', u, Start);
    assert HarmedIn(s', u);
  }

  /** A call that draws zeros it should not comes behind a deterministic sign that was not undone. */
  lemma HarmIsExposed(cfg: Config, s: State, u: nat) returns (t: nat, i: nat, j: nat)
    requires Reachable(cfg, s) && u < |s.threads| && HarmedIn(s, u)
    ensures !Dependable(cfg) && Exposes(cfg, t, i, u, j)
  {
    ReachableInv(cfg, s);
    assert s.owner == Some(u);
    var k := FirstSpoiler(cfg, s.log);
    t, i := EntryInProgram(cfg, s, k);
    CurrentInProgram(cfg, s, u);
    j := |Calls(s.threads[u].answers)|;
  }

  /**
   What the lock is for fails in some run exactly when a switch may not be undone and
   an accepted deterministic sign can come before an accepted call that needs
   randomness: in another thread, or earlier in the same one.
   */
  lemma ZerosReachOthersExactly(cfg: Config)
    ensures (exists s :: Reachable(cfg, s) && Harmed(s)) <==>
      !Dependable(cfg) && Exposed(cfg)
  {
    forall s | Reachable(cfg, s) && Harmed(s)
      ensures !Dependable(cfg) && Exposed(cfg)
    {
      var u :| 0 <= u < |s.threads| && HarmedIn(s, u);
      var t, i, j := HarmIsExposed(cfg, s, u);
    }
    if !Dependable(cfg) && Exposed(cfg) {
      var t: nat, i: nat, u: nat, j: nat :| Exposes(cfg, t, i, u, j);
      var s := ReachesBehind(cfg, t, i, u, j);
      var s' := EntersWithZeros(cfg, s, u, cfg.programs[u][j..]);
    }
  }

  /**
   The generator mode is right in every reachable state exactly when every switch
   is undone, or no accepted deterministic sign is ever asked for.
   */
  lemma ModeSafetyExactly(cfg: Config)
    ensures (forall s :: Reachable(cfg, s) ==> ModeInv(s)) <==> Sound(cfg)
  {
    if Sound(cfg) {
      forall s | Reachable(cfg, s) ensures ModeInv(s) {
        ModeSafety(cfg, s);
      }
    } else {
      var t, i :| 0 <= t < |cfg.programs| && 0 <= i < |cfg.programs[t]| && Switches(cfg, cfg.programs[t][i]);
      var s := LeavesZeros(cfg, t, i);
      assert Reachable(cfg, s) && !ModeInv(s);
    }
  }
}
