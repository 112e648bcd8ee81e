/**
 What every call is answered, told by the events of the run: the library's own
 answer, unless something went wrong during that very call, and then what the
 binding reports for it.
 */
module RngAnswers {
  import opened Bytes
  import opened Liboqs
  import opened RngProtocol
  import opened RngTheorems

  // ---- Events by call ----

  /** How many calls thread t has begun. */
  function Begins(tr: Trace, t: nat): nat {
    if tr == [] then 0
    else Begins(tr[..|tr| - 1], t) + (if tr[|tr| - 1] == (t, Begin) then 1 else 0)
  }

  /** Thread t did this while it was making its call number k, counted from 0. */
  predicate During(tr: Trace, t: nat, k: nat, e: Event) {
    tr != [] &&
    var before := tr[..|tr| - 1];
    During(before, t, k, e) || (tr[|tr| - 1] == (t, e) && Begins(before, t) == k + 1)
  }

  /** The argument checks, or in C an allocation, turned the call away. */
  predicate Refused(tr: Trace, t: nat, k: nat) {
    During(tr, t, k, Reject)
  }

  /** The library failed in the call, or in Python something around it raised; C ignores a switch-back that fails. */
  predicate Hit(cfg: Config, tr: Trace, t: nat, k: nat) {
    || During(tr, t, k, Fault)
    || (cfg.binding.Python? && (During(tr, t, k, Raise) || During(tr, t, k, Interrupt) || During(tr, t, k, RestoreFails)))
  }

  predicate Hits(cfg: Config, e: Event) {
    e.Fault? || (cfg.binding.Python? && (e.Raise? || e.Interrupt? || e.RestoreFails?))
  }

  lemma BeginsStep(tr: Trace, t: nat, e: Event, u: nat)
    ensures Begins(tr + [(t, e)], u) == Begins(tr, u) + if u == t && e == Begin then 1 else 0
  {
    assert (tr + [(t, e)])[..|tr|] == tr;
  }

  lemma DuringStep(tr: Trace, t: nat, e: Event, u: nat, k: nat, x: Event)
    ensures During(tr + [(t, e)], u, k, x) <==> During(tr, u, k, x) || (u == t && x == e && Begins(tr, t) == k + 1)
  {
    assert (tr + [(t, e)])[..|tr|] == tr;
  }

  lemma {:induction false} NotBegun(tr: Trace, t: nat, k: nat, x: Event)
    requires Begins(tr, t) <= k
    ensures !During(tr, t, k, x)
  {
    if tr != [] {
      NotBegun(tr[..|tr| - 1], t, k, x);
    }
  }

  /** What an event changes for the calls: only the one its thread is making. */
  lemma EventStep(cfg: Config, tr: Trace, t: nat, e: Event, u: nat, k: nat)
    ensures var tr', now := tr + [(t, e)], u == t && Begins(tr, t) == k + 1;
      && (Refused(tr', u, k) <==> Refused(tr, u, k) || (now && e == Reject))
      && (Hit(cfg, tr', u, k) <==> Hit(cfg, tr, u, k) || (now && Hits(cfg, e)))
      && (During(tr', u, k, Fault) <==> During(tr, u, k, Fault) || (now && e == Fault))
  {
    DuringStep(tr, t, e, u, k, Reject);
    DuringStep(tr, t, e, u, k, Fault);
    DuringStep(tr, t, e, u, k, Raise);
    DuringStep(tr, t, e, u, k, Interrupt);
    DuringStep(tr, t, e, u, k, RestoreFails);
  }

  lemma FreshCall(cfg: Config, tr: Trace, t: nat, k: nat)
    requires Begins(tr, t) <= k
    ensures !Refused(tr, t, k) && !Hit(cfg, tr, t, k) && !During(tr, t, k, Fault)
  {
    NotBegun(tr, t, k, Reject);
    NotBegun(tr, t, k, Fault);
    NotBegun(tr, t, k, Raise);
    NotBegun(tr, t, k, Interrupt);
    NotBegun(tr, t, k, RestoreFails);
  }

  // ---- The invariant of runs ----

  /** A section fails when it is hit, and only then in the library's stead. */
  predicate Told(cfg: Config, hit: bool, c: Call, drawn: seq<seq<byte>>, o: Outcome) {
    if hit then o == Failed else cfg.lib.Act(c, drawn) == Return(o)
  }

  predicate PcTold(cfg: Config, tr: Trace, t: nat, k: nat, pc: Pc) {
    pc.Idle? ||
    (!Refused(tr, t, k) &&
     match pc
     case Restoring(c, start, drawn, o) => Told(cfg, Hit(cfg, tr, t, k), c, drawn, o)
     case Leaving(c, start, drawn, o) => Told(cfg, Hit(cfg, tr, t, k), c, drawn, o)
     case _ => !Hit(cfg, tr, t, k))
  }

  ghost predicate InLog(log: seq<Entry>, t: nat, k: nat, a: Answer) {
    exists j :: 0 <= j < |log| && log[j].tid == t && log[j].nth == k && log[j].call == a.call && log[j].outcome == a.outcome
  }

  ghost predicate AnswerTold(cfg: Config, tr: Trace, log: seq<Entry>, t: nat, k: nat, a: Answer) {
    if Refused(tr, t, k) then
      && !a.locked && (!cfg.lib.accepts(a.call) || cfg.binding.C?)
      && a.outcome == if a.call.Verify? && cfg.binding.Python? then Done([0]) else Failed
    else if a.call.Verify? || a.call.Decapsulate? then
      && !a.locked && cfg.lib.accepts(a.call)
      && a.outcome ==
           if !During(tr, t, k, Fault) then cfg.lib.last(a.call, [])
           else if a.call.Verify? then Done([0]) else Failed
    else
      a.locked && cfg.lib.accepts(a.call) && InLog(log, t, k, a)
  }

  ghost predicate EntryTold(cfg: Config, tr: Trace, threads: seq<Thread>, e: Entry) {
    && e.tid < |threads| && e.nth < |threads[e.tid].answers|
    && threads[e.tid].answers[e.nth] == Answer(e.call, e.outcome, true)
    && Told(cfg, Hit(cfg, tr, e.tid, e.nth), e.call, e.drawn, e.outcome)
  }

  ghost predicate ThreadTold(cfg: Config, tr: Trace, log: seq<Entry>, t: nat, th: Thread) {
    && Begins(tr, t) == |th.answers| + |Current(th.pc)|
    && PcTold(cfg, tr, t, |th.answers|, th.pc)
    && forall k :: 0 <= k < |th.answers| ==> AnswerTold(cfg, tr, log, t, k, th.answers[k])
  }

  ghost predicate RunInv(cfg: Config, tr: Trace, s: State) {
    && (forall t :: 0 <= t < |s.threads| ==> ThreadTold(cfg, tr, s.log, t, s.threads[t]))
    && (forall j :: 0 <= j < |s.log| ==> EntryTold(cfg, tr, s.threads, s.log[j]))
  }

  // ---- One step keeps it ----

  /** An answer given stays told. */
  lemma AnswerKept(cfg: Config, tr: Trace, t: nat, e: Event, log: seq<Entry>, log': seq<Entry>, u: nat, k: nat, a: Answer)
    requires AnswerTold(cfg, tr, log, u, k, a) && log <= log'
    requires u == t ==> e == Begin || Begins(tr, t) != k + 1
    ensures AnswerTold(cfg, tr + [(t, e)], log', u, k, a)
  {
    EventStep(cfg, tr, t, e, u, k);
    if InLog(log, u, k, a) {
      var j :| 0 <= j < |log| && log[j].tid == u && log[j].nth == k && log[j].call == a.call && log[j].outcome == a.outcome;
      assert log'[j] == log[j];
    }
  }

  lemma OtherTold(cfg: Config, tr: Trace, t: nat, e: Event, log: seq<Entry>, log': seq<Entry>, u: nat, th: Thread)
    requires ThreadTold(cfg, tr, log, u, th) && log <= log' && u != t
    ensures ThreadTold(cfg, tr + [(t, e)], log', u, th)
  {
    BeginsStep(tr, t, e, u);
    EventStep(cfg, tr, t, e, u, |th.answers|);
    forall k | 0 <= k < |th.answers| ensures AnswerTold(cfg, tr + [(t, e)], log', u, k, th.answers[k]) {
      AnswerKept(cfg, tr, t, e, log, log', u, k, th.answers[k]);
    }
  }

  /** Within a call. */
  lemma MoveTold(cfg: Config, tr: Trace, s: State, t: nat, e: Event, th': Thread)
    requires Enabled(cfg, s, t, e) && PcShape(cfg, s.threads[t].pc) && th' == Next(cfg, s, t, e).threads[t]
    requires ThreadTold(cfg, tr, s.log, t, s.threads[t]) && !th'.pc.Idle?
    ensures Begins(tr + [(t, e)], t) == |th'.answers| + |Current(th'.pc)|
    ensures th'.answers == s.threads[t].answers
    ensures PcTold(cfg, tr + [(t, e)], t, |th'.answers|, th'.pc)
  {
    var k := |s.threads[t].answers|;
    BeginsStep(tr, t, e, t);
    EventStep(cfg, tr, t, e, t, k);
    if s.threads[t].pc.Idle? {
      FreshCall(cfg, tr, t, k);
    }
  }

  /** The answer that ends a call. */
  lemma ReplyTold(cfg: Config, tr: Trace, s: State, t: nat, e: Event, th': Thread)
    requires Enabled(cfg, s, t, e) && PcShape(cfg, s.threads[t].pc) && th' == Next(cfg, s, t, e).threads[t]
    requires ThreadTold(cfg, tr, s.log, t, s.threads[t]) && th'.pc.Idle?
    ensures Begins(tr + [(t, e)], t) == |th'.answers| == |s.threads[t].answers| + 1
    ensures th'.answers[..|s.threads[t].answers|] == s.threads[t].answers
    ensures AnswerTold(cfg, tr + [(t, e)], Next(cfg, s, t, e).log, t, |s.threads[t].answers|, th'.answers[|s.threads[t].answers|])
  {
    var k, log' := |s.threads[t].answers|, Next(cfg, s, t, e).log;
    BeginsStep(tr, t, e, t);
    EventStep(cfg, tr, t, e, t, k);
    if s.threads[t].pc.Leaving? {
      assert log'[|s.log|].nth == k;
    }
  }

  lemma SelfTold(cfg: Config, tr: Trace, s: State, t: nat, e: Event, th': Thread)
    requires Enabled(cfg, s, t, e) && PcShape(cfg, s.threads[t].pc) && th' == Next(cfg, s, t, e).threads[t]
    requires ThreadTold(cfg, tr, s.log, t, s.threads[t]) && s.log <= Next(cfg, s, t, e).log
    ensures ThreadTold(cfg, tr + [(t, e)], Next(cfg, s, t, e).log, t, th')
  {
    var th, log' := s.threads[t], Next(cfg, s, t, e).log;
    if th'.pc.Idle? {
      ReplyTold(cfg, tr, s, t, e, th');
    } else {
      MoveTold(cfg, tr, s, t, e, th');
    }
    forall k | 0 <= k < |th.answers| ensures AnswerTold(cfg, tr + [(t, e)], log', t, k, th'.answers[k]) {
      assert th'.answers[k] == th.answers[k];
      AnswerKept(cfg, tr, t, e, s.log, log', t, k, th.answers[k]);
    }
  }

  /** An entry stays told, and the entry an unlock adds is. */
  lemma EntryKept(cfg: Config, tr: Trace, s: State, t: nat, e: Event, th': Thread, x: Entry)
    requires Enabled(cfg, s, t, e) && ThreadTold(cfg, tr, s.log, t, s.threads[t])
    requires Next(cfg, s, t, e).threads == s.threads[t := th'] && s.threads[t].answers <= th'.answers
    requires EntryTold(cfg, tr, s.threads, x)
    ensures EntryTold(cfg, tr + [(t, e)], Next(cfg, s, t, e).threads, x)
  {
    EventStep(cfg, tr, t, e, x.tid, x.nth);
  }

  lemma EntryAdded(cfg: Config, tr: Trace, s: State, t: nat)
    requires Enabled(cfg, s, t, Unlock) && ThreadTold(cfg, tr, s.log, t, s.threads[t])
    ensures var s' := Next(cfg, s, t, Unlock);
      |s'.log| == |s.log| + 1 && EntryTold(cfg, tr + [(t, Unlock)], s'.threads, s'.log[|s.log|])
  {
    EventStep(cfg, tr, t, Unlock, t, |s.threads[t].answers|);
  }

  lemma LogEffect(cfg: Config, s: State, t: nat, e: Event) returns (th': Thread)
    requires LockInv(cfg, s) && Enabled(cfg, s, t, e)
    ensures th' == Next(cfg, s, t, e).threads[t] && Next(cfg, s, t, e).threads == s.threads[t := th']
    ensures s.threads[t].answers <= th'.answers
    ensures s.log <= Next(cfg, s, t, e).log
    ensures e != Unlock ==> Next(cfg, s, t, e).log == s.log
    ensures e == Unlock ==> |Next(cfg, s, t, e).log| == |s.log| + 1
  {
    var th;
    th, th' := ThreadEffect(cfg, s, t, e);
    HistoryEffect(cfg, s, t, e);
  }

  lemma RunInvStep(cfg: Config, tr: Trace, s: State, t: nat, e: Event)
    requires Inv(cfg, s) && RunInv(cfg, tr, s) && Enabled(cfg, s, t, e)
    ensures RunInv(cfg, tr + [(t, e)], Next(cfg, s, t, e))
  {
    var th' := LogEffect(cfg, s, t, e);
    var s', tr' := Next(cfg, s, t, e), tr + [(t, e)];
    forall u | 0 <= u < |s'.threads| ensures ThreadTold(cfg, tr', s'.log, u, s'.threads[u]) {
      if u == t {
        SelfTold(cfg, tr, s, t, e, th');
      } else {
        OtherTold(cfg, tr, t, e, s.log, s'.log, u, s.threads[u]);
      }
    }
    forall j | 0 <= j < |s'.log| ensures EntryTold(cfg, tr', s'.threads, s'.log[j]) {
      if j < |s.log| {
        assert s'.log[j] == s.log[j];
        EntryKept(cfg, tr, s, t, e, th', s.log[j]);
      } else {
        EntryAdded(cfg, tr, s, t);
      }
    }
  }

  lemma {:induction false} RunInvExec(cfg: Config, past: Trace, s: State, tr: Trace)
    requires Inv(cfg, s) && RunInv(cfg, past, s) && Runs(cfg, s, tr)
    ensures RunInv(cfg, past + tr, Exec(cfg, s, tr))
    decreases |tr|
  {
    if tr == [] {
      assert past + tr == past;
    } else {
      var (t, e) := tr[0];
      BothStep(cfg, past, s, t, e);
      RunInvExec(cfg, past + [(t, e)], Next(cfg, s, t, e), tr[1..]);
      MovesOver(past, (t, e), tr);
    }
  }

  lemma BothStep(cfg: Config, past: Trace, s: State, t: nat, e: Event)
    requires Inv(cfg, s) && RunInv(cfg, past, s) && Enabled(cfg, s, t, e)
    ensures Inv(cfg, Next(cfg, s, t, e)) && RunInv(cfg, past + [(t, e)], Next(cfg, s, t, e))
  {
    InvStep(cfg, s, t, e);
    RunInvStep(cfg, past, s, t, e);
  }

  lemma MovesOver<T>(past: seq<T>, x: T, todo: seq<T>)
    requires todo != [] && todo[0] == x
    ensures past + [x] + todo[1..] == past + todo
  {
  }

  lemma RunInvHolds(cfg: Config, tr: Trace)
    requires Runs(cfg, Init(cfg), tr)
    ensures RunInv(cfg, tr, Exec(cfg, Init(cfg), tr)) && Inv(cfg, Exec(cfg, Init(cfg), tr))
  {
    InvInit(cfg);
    RunInvExec(cfg, [], Init(cfg), tr);
    InvExec(cfg, Init(cfg), tr);
    assert [] + tr == tr;
  }

  // ---- What every call is answered ----

  /** The generator the section at j reads from, spelled out. */
  function Feed(cfg: Config, log: seq<Entry>, j: nat): Tape
    requires j < |log|
  {
    if log[j].call.SignDeterministic? || Found(log[..j]) == Zero then ZERO_TAPE else cfg.tape
  }

  /**
   In every run of every configuration: a finished section that was hit failed, and
   any other returned what the library computes when it runs alone to its end from
   where the section starts; and its thread was answered just that.
   */
  lemma SectionsExactly(cfg: Config, tr: Trace, j: nat)
    requires Runs(cfg, Init(cfg), tr) && j < |Exec(cfg, Init(cfg), tr).log|
    ensures var s := Exec(cfg, Init(cfg), tr); var e := s.log[j];
      && e.tid < |s.threads| && e.nth < |s.threads[e.tid].answers|
      && s.threads[e.tid].answers[e.nth] == Answer(e.call, e.outcome, true)
      && e.outcome ==
           if Hit(cfg, tr, e.tid, e.nth) then Failed
           else Run(cfg.lib, e.call, Feed(cfg, s.log, j), e.start, [], None).0
  {
    RunInvHolds(cfg, tr);
    var s := Exec(cfg, Init(cfg), tr);
    var e := s.log[j];
    assert EntryTold(cfg, tr, s.threads, e);
    LogAt(cfg, s.log, j);
    if !Hit(cfg, tr, e.tid, e.nth) {
      RunAlone(cfg.lib, e.call, Feed(cfg, s.log, j), e.start, e.drawn, e.outcome);
    }
  }

  /** The finished sections as jobs that are cut where they were hit, and nowhere else. */
  function JobsOfRun(cfg: Config, tr: Trace, log: seq<Entry>): seq<Job> {
    if log == [] then []
    else
      var e := log[|log| - 1];
      JobsOfRun(cfg, tr, log[..|log| - 1])
      + [Job(e.call, if Hit(cfg, tr, e.tid, e.nth) then Some(|e.drawn|) else None, e.left)]
  }

  lemma {:induction false} RunReplays(cfg: Config, tr: Trace, log: seq<Entry>)
    requires LogOk(cfg, log)
    requires forall j :: 0 <= j < |log| ==> Told(cfg, Hit(cfg, tr, log[j].tid, log[j].nth), log[j].call, log[j].drawn, log[j].outcome)
    ensures Replay(cfg.lib, cfg.tape, JobsOfRun(cfg, tr, log)) == (Outcomes(log), Generator(Found(log), EndOf(log)))
  {
    if log != [] {
      var before, e := log[..|log| - 1], log[|log| - 1];
      RunReplays(cfg, tr, before);
      var g, hit := Generator(Found(before), EndOf(before)), Hit(cfg, tr, e.tid, e.nth);
      if hit {
        LegitIsSerial(cfg.lib, cfg.tape, g, e.call, e.drawn, e.outcome, e.left);
      } else {
        ReturnIsSerial(cfg.lib, cfg.tape, g, e.call, e.drawn, e.outcome, e.left);
      }
      ReplayLast(cfg.lib, cfg.tape, JobsOfRun(cfg, tr, before), Job(e.call, if hit then Some(|e.drawn|) else None, e.left));
    }
  }

  /**
   Every run is the serial run of its sections in which a call is cut only where the
   run hit it, and every other call runs to its own end.
   */
  lemma SerialisableExactly(cfg: Config, tr: Trace)
    requires Runs(cfg, Init(cfg), tr)
    ensures var s := Exec(cfg, Init(cfg), tr);
      && Replay(cfg.lib, cfg.tape, JobsOfRun(cfg, tr, s.log)).0 == Outcomes(s.log)
      && (s.owner == None ==> Replay(cfg.lib, cfg.tape, JobsOfRun(cfg, tr, s.log)).1 == Generator(s.mode, s.pos))
  {
    RunInvHolds(cfg, tr);
    var s := Exec(cfg, Init(cfg), tr);
    forall j | 0 <= j < |s.log|
      ensures Told(cfg, Hit(cfg, tr, s.log[j].tid, s.log[j].nth), s.log[j].call, s.log[j].drawn, s.log[j].outcome)
    {
      assert EntryTold(cfg, tr, s.threads, s.log[j]);
    }
    RunReplays(cfg, tr, s.log);
  }

  /** The call stands at its place in the program. */
  lemma AnswerCall(cfg: Config, s: State, t: nat, k: nat)
    requires Inv(cfg, s) && t < |s.threads| && k < |s.threads[t].answers|
    ensures k < |cfg.programs[t]| && s.threads[t].answers[k].call == cfg.programs[t][k]
  {
    var th := s.threads[t];
    CallsAt(th.answers, k);
    AtFront(Calls(th.answers), Current(th.pc), th.todo, k);
  }

  /** What a call turned away reports. */
  function TurnedAway(cfg: Config, c: Call): Outcome {
    if c.Verify? && cfg.binding.Python? then Done([0]) else Failed
  }

  /**
   A verify or decapsulate in any run: turned away, it reports that; else the library's
   answer, unless the library failed in that call, which is an invalid signature or an error.
   */
  lemma UnlockedExactly(cfg: Config, tr: Trace, t: nat, k: nat)
    requires Runs(cfg, Init(cfg), tr)
    requires t < |Exec(cfg, Init(cfg), tr).threads| && k < |Exec(cfg, Init(cfg), tr).threads[t].answers|
    requires Exec(cfg, Init(cfg), tr).threads[t].answers[k].call.Verify? || Exec(cfg, Init(cfg), tr).threads[t].answers[k].call.Decapsulate?
    ensures var a := Exec(cfg, Init(cfg), tr).threads[t].answers[k];
      && t < |cfg.programs| && k < |cfg.programs[t]| && a.call == cfg.programs[t][k] && !a.locked
      && (Refused(tr, t, k) ==> a.outcome == TurnedAway(cfg, a.call) && (!cfg.lib.accepts(a.call) || cfg.binding.C?))
      && (!Refused(tr, t, k) ==>
            && cfg.lib.accepts(a.call)
            && a.outcome ==
                 if !During(tr, t, k, Fault) then cfg.lib.last(a.call, [])
                 else if a.call.Verify? then Done([0]) else Failed)
  {
    RunInvHolds(cfg, tr);
    var s := Exec(cfg, Init(cfg), tr);
    AnswerCall(cfg, s, t, k);
    assert AnswerTold(cfg, tr, s.log, t, k, s.threads[t].answers[k]);
  }

  /**
   A key generation, sign or encapsulation in any run: turned away, it failed; else it
   is a finished section, which failed if it was hit, and otherwise returned what the
   library computes alone.
   */
  lemma LockedExactly(cfg: Config, tr: Trace, t: nat, k: nat) returns (j: nat)
    requires Runs(cfg, Init(cfg), tr)
    requires t < |Exec(cfg, Init(cfg), tr).threads| && k < |Exec(cfg, Init(cfg), tr).threads[t].answers|
    requires var c := Exec(cfg, Init(cfg), tr).threads[t].answers[k].call;
      c.Keygen? || c.SignDeterministic? || c.SignHedged? || c.Encapsulate?
    ensures var s := Exec(cfg, Init(cfg), tr); var a := s.threads[t].answers[k];
      && t < |cfg.programs| && k < |cfg.programs[t]| && a.call == cfg.programs[t][k]
      && (Refused(tr, t, k) ==> !a.locked && a.outcome == Failed && (!cfg.lib.accepts(a.call) || cfg.binding.C?))
      && (!Refused(tr, t, k) ==>
            && a.locked && cfg.lib.accepts(a.call)
            && j < |s.log| && s.log[j].tid == t && s.log[j].nth == k && s.log[j].call == a.call
            && a.outcome ==
                 if Hit(cfg, tr, t, k) then Failed
                 else Run(cfg.lib, a.call, Feed(cfg, s.log, j), s.log[j].start, [], None).0)
  {
    RunInvHolds(cfg, tr);
    var s := Exec(cfg, Init(cfg), tr);
    var a := s.threads[t].answers[k];
    AnswerCall(cfg, s, t, k);
    assert AnswerTold(cfg, tr, s.log, t, k, a);
    j := 0;
    if !Refused(tr, t, k) {
      j :| 0 <= j < |s.log| && s.log[j].tid == t && s.log[j].nth == k && s.log[j].call == a.call && s.log[j].outcome == a.outcome;
      SectionsExactly(cfg, tr, j);
    }
  }

  // ---- Runs in which nothing goes wrong ----

  /** No fault, and no call turned away but those that the argument checks reject. */
  ghost predicate Clean(cfg: Config, tr: Trace) {
    && (forall n :: 0 <= n < |tr| ==> !(tr[n].1.Raise? || tr[n].1.Interrupt? || tr[n].1.Fault? || tr[n].1.RestoreFails?))
    && (forall t, k :: 0 <= t < |cfg.programs| && 0 <= k < |cfg.programs[t]| && Refused(tr, t, k) ==>
          !cfg.lib.accepts(cfg.programs[t][k]))
  }

  lemma {:induction false} DuringHappened(tr: Trace, t: nat, k: nat, e: Event)
    requires During(tr, t, k, e)
    ensures exists n :: 0 <= n < |tr| && tr[n] == (t, e)
  {
    var before := tr[..|tr| - 1];
    if During(before, t, k, e) {
      DuringHappened(before, t, k, e);
      var n :| 0 <= n < |before| && before[n] == (t, e);
      assert tr[n] == (t, e);
    } else {
      assert tr[|tr| - 1] == (t, e);
    }
  }

  lemma CleanIsNotHit(cfg: Config, tr: Trace, t: nat, k: nat)
    requires Clean(cfg, tr)
    ensures !Hit(cfg, tr, t, k) && !During(tr, t, k, Fault)
  {
    forall e | e in {Fault, Raise, Interrupt, RestoreFails} ensures !During(tr, t, k, e) {
      if During(tr, t, k, e) {
        DuringHappened(tr, t, k, e);
      }
    }
  }

  /** In such a run every accepted call is answered with what the library says. */
  lemma CleanAnswers(cfg: Config, tr: Trace, t: nat, k: nat) returns (j: nat)
    requires Runs(cfg, Init(cfg), tr) && Clean(cfg, tr)
    requires t < |Exec(cfg, Init(cfg), tr).threads| && k < |Exec(cfg, Init(cfg), tr).threads[t].answers|
    ensures var s := Exec(cfg, Init(cfg), tr); var a := s.threads[t].answers[k]; var c := a.call;
      && (!cfg.lib.accepts(c) ==> a.outcome == TurnedAway(cfg, c))
      && (cfg.lib.accepts(c) && (c.Verify? || c.Decapsulate?) ==> a.outcome == cfg.lib.last(c, []))
      && (cfg.lib.accepts(c) && c.SignDeterministic? ==> a.outcome == Signature(cfg.lib, c))
      && (cfg.lib.accepts(c) && (c.Keygen? || c.SignHedged? || c.Encapsulate?) ==>
            && j < |s.log| && s.log[j].tid == t && s.log[j].nth == k
            && a.outcome == Run(cfg.lib, c, Feed(cfg, s.log, j), s.log[j].start, [], None).0)
  {
    RunInvHolds(cfg, tr);
    var s := Exec(cfg, Init(cfg), tr);
    var c := s.threads[t].answers[k].call;
    AnswerCall(cfg, s, t, k);
    CleanIsNotHit(cfg, tr, t, k);
    j := 0;
    if c.Verify? || c.Decapsulate? {
      UnlockedExactly(cfg, tr, t, k);
    } else {
      j := LockedExactly(cfg, tr, t, k);
      if c.SignDeterministic? && cfg.lib.accepts(c) {
        ZeroRunIgnoresPosition(cfg.lib, c, s.log[j].start, 0, [], None);
      }
    }
  }

  /** A thread that is not stopped can go on without a fault. */
  lemma CleanStep(cfg: Config, tr: Trace, t: nat)
    requires Runs(cfg, Init(cfg), tr) && Clean(cfg, tr) && t < |Exec(cfg, Init(cfg), tr).threads|
    requires Enabled(cfg, Exec(cfg, Init(cfg), tr), t, Choice(cfg, Exec(cfg, Init(cfg), tr), t))
    ensures Clean(cfg, tr + [(t, Choice(cfg, Exec(cfg, Init(cfg), tr), t))])
  {
    RunInvHolds(cfg, tr);
    var s := Exec(cfg, Init(cfg), tr);
    var e := Choice(cfg, s, t);
    var tr' := tr + [(t, e)];
    assert forall n :: 0 <= n < |tr| ==> tr'[n] == tr[n];
    forall u, k | 0 <= u < |cfg.programs| && 0 <= k < |cfg.programs[u]| && Refused(tr', u, k)
      ensures !cfg.lib.accepts(cfg.programs[u][k])
    {
      if !Refused(tr, u, k) {
        RejectsUnaccepted(cfg, tr, s, t, u, k);
      }
    }
  }

  lemma RejectsUnaccepted(cfg: Config, tr: Trace, s: State, t: nat, u: nat, k: nat)
    requires Inv(cfg, s) && RunInv(cfg, tr, s) && t < |s.threads| && Enabled(cfg, s, t, Choice(cfg, s, t))
    requires Refused(tr + [(t, Choice(cfg, s, t))], u, k) && !Refused(tr, u, k)
    ensures u < |cfg.programs| && k < |cfg.programs[u]| && !cfg.lib.accepts(cfg.programs[u][k])
  {
    EventStep(cfg, tr, t, Choice(cfg, s, t), u, k);
    assert ThreadTold(cfg, tr, s.log, t, s.threads[t]);
    CurrentInProgram(cfg, s, t);
    LengthOfCalls(s.threads[t].answers);
  }

  lemma {:induction false} LengthOfCalls(answers: seq<Answer>)
    ensures |Calls(answers)| == |answers|
  {
    if answers != [] {
      LengthOfCalls(answers[..|answers| - 1]);
    }
  }

  lemma {:induction false} CleanlyOn(cfg: Config, tr: Trace) returns (tr': Trace)
    requires Runs(cfg, Init(cfg), tr) && Clean(cfg, tr)
    ensures Runs(cfg, Init(cfg), tr') && Clean(cfg, tr') && Finished(Exec(cfg, Init(cfg), tr'))
    decreases Measure(cfg.lib, Exec(cfg, Init(cfg), tr).threads)
  {
    var s := Exec(cfg, Init(cfg), tr);
    if Finished(s) {
      tr' := tr;
    } else {
      var t, e := NoDeadlock(cfg, s);
      CleanStep(cfg, tr, t);
      RunsOn(cfg, Init(cfg), tr, t, e);
      StepDecreases(cfg, s, t, e);
      tr' := CleanlyOn(cfg, tr + [(t, e)]);
    }
  }

  /** Every configuration has a run in which nothing goes wrong and every call of every program is answered. */
  lemma CleanRunCompletes(cfg: Config) returns (tr: Trace)
    ensures Runs(cfg, Init(cfg), tr) && Clean(cfg, tr)
    ensures var s := Exec(cfg, Init(cfg), tr);
      |s.threads| == |cfg.programs| && forall t :: 0 <= t < |s.threads| ==> Calls(s.threads[t].answers) == cfg.programs[t]
  {
    tr := CleanlyOn(cfg, []);
    RunInvHolds(cfg, tr);
    FinishedIsComplete(cfg, Exec(cfg, Init(cfg), tr));
  }
}
