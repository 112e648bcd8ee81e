/**
 The operations themselves, as one thread executes them: the process-global
 generator and lock are fields, and every operation is proved against the serial
 reference that the interleaved system is proved to be equivalent to.
 */
module RngProcess {
  import opened Bytes
  import opened Liboqs
  import opened RngProtocol

  /** Where a Python operation raises, if it does. */
  datatype Raise =
    | Nowhere
    | AtInstall            // switching to the zero filler
    | BeforeTry            // an asynchronous exception behind it
    | AtConstruction       // oqs.Signature(...), oqs.KeyEncapsulation(...)
    | InLibrary(n: nat)    // after that many draws

  class Process {
    const lib: Library
    const tape: Tape
    var mode: Mode
    var pos: nat
    var locked: bool

    constructor (lib: Library, tape: Tape)
      ensures this.lib == lib && this.tape == tape
      ensures mode == System && pos == 0 && !locked
    {
      this.lib, this.tape := lib, tape;
      mode, pos, locked := System, 0, false;
    }

    function Gen(): Generator
      reads this
    {
      Generator(mode, pos)
    }

    function Installed(): Tape
      reads this
    {
      if mode.Zero? then ZERO_TAPE else tape
    }

    method RandomBytes(n: nat) returns (bytes: seq<byte>)
      modifies this`pos
      ensures bytes == Slice(Installed(), old(pos), n)
      ensures pos == old(pos) + if mode.Zero? then 0 else n
    {
      if mode.Zero? {
        bytes := Zeros(n);
        ZeroSlice(pos, n);
      } else {
        bytes := Slice(tape, pos, n);
        pos := pos + n;
      }
    }

    method Lock()
      requires !locked
      modifies this`locked
      ensures locked
    {
      locked := true;
    }

    method Unlock()
      requires locked
      modifies this`locked
      ensures !locked
    {
      locked := false;
    }

    /** Switching the generator takes the lock. */
    method Switch(m: Mode)
      requires locked
      modifies this`mode
      ensures mode == m
    {
      mode := m;
    }

    /** A liboqs call: it draws from whatever generator is installed. */
    method CallLibrary(c: Call, cut: Option<nat>) returns (o: Outcome)
      requires locked
      modifies this`pos
      ensures o == Run(lib, c, Installed(), old(pos), [], cut).0
      ensures pos == if mode.Zero? then old(pos) else Run(lib, c, tape, old(pos), [], cut).1
    {
      var drawn: seq<seq<byte>> := [];
      ghost var src := Installed();
      while cut != Some(|drawn|) && lib.Act(c, drawn).Draw?
        invariant Legit(lib, c, src, old(pos), drawn)
        invariant cut.Some? ==> |drawn| <= cut.value
        invariant pos == old(pos) + if mode.Zero? then 0 else Len(drawn)
        decreases lib.budget(c) - |drawn|
      {
        var n := lib.Act(c, drawn).n;
        ghost var at := pos;
        var bytes := RandomBytes(n);
        ZeroSlice(at, n);
        ZeroSlice(old(pos) + Len(drawn), n);
        OneMoreChunk(lib, c, src, old(pos), drawn, bytes);
        drawn := drawn + [bytes];
      }
      RunReaches(lib, c, src, old(pos), drawn, cut);
      o := if cut == Some(|drawn|) then Failed else lib.Act(c, drawn).outcome;
    }

    /** The mode behind a switch-back that works, or does not. */
    static function After(restored: bool): Mode {
      if restored then System else Zero
    }

    /**
     C key generation, hedged signing and encapsulation. `ready`: OQS_SIG_new or
     OQS_KEM_new and malloc succeeded.
     */
    method Randomised(c: Call, ready: bool, cut: Option<nat>) returns (o: Outcome)
      requires TakesLock(c) && !c.SignDeterministic? && !locked
      modifies this
      ensures !locked
      ensures (o, Gen()) ==
        if ready && lib.accepts(c) then Serial(lib, tape, old(Gen()), Job(c, cut, old(mode))) else (Failed, old(Gen()))
      ensures mode == old(mode)
      ensures ready && lib.accepts(c) ==>
        && o == Run(lib, c, old(Installed()), old(pos), [], cut).0
        && pos == if mode == Zero then old(pos) else Run(lib, c, tape, old(pos), [], cut).1
    {
      if !ready || !lib.accepts(c) {
        return Failed;
      }
      Lock();
      o := CallLibrary(c, cut);
      Unlock();
    }

    /** C deterministic signing. `restored`: the generator is switched back; its status is ignored. */
    method SignDeterministic(c: Call, ready: bool, cut: Option<nat>, restored: bool) returns (o: Outcome)
      requires c.SignDeterministic? && !locked
      modifies this
      ensures !locked
      ensures (o, Gen()) ==
        if ready && lib.accepts(c) then Serial(lib, tape, old(Gen()), Job(c, cut, After(restored))) else (Failed, old(Gen()))
      ensures ready && lib.accepts(c) ==>
        && o == Run(lib, c, ZERO_TAPE, old(pos), [], cut).0 && pos == old(pos)
        && mode == if restored then System else Zero
    {
      if !ready || !lib.accepts(c) {
        return Failed;
      }
      Lock();
      Switch(Zero);
      o := CallLibrary(c, cut);
      if restored {
        Switch(System);
      }
      Unlock();
    }

    /** The serial run a Python operation amounts to when it raises there. */
    static function CutOf(raise: Raise): Option<nat> {
      match raise
      case Nowhere => None
      case InLibrary(n) => Some(n)
      case _ => Some(0)
    }

    /** Python key generation, hedged signing and encapsulation: the object is built under the lock. */
    method PyRandomised(c: Call, raise: Raise) returns (o: Outcome)
      requires TakesLock(c) && !c.SignDeterministic? && !locked
      modifies this
      ensures !locked
      ensures (o, Gen()) ==
        if lib.accepts(c) then Serial(lib, tape, old(Gen()), Job(c, CutOf(raise), old(mode))) else (Failed, old(Gen()))
      ensures mode == old(mode)
      ensures lib.accepts(c) && raise == Nowhere ==> o == Run(lib, c, old(Installed()), old(pos), [], None).0
      ensures lib.accepts(c) && raise.InLibrary? ==> o == Run(lib, c, old(Installed()), old(pos), [], Some(raise.n)).0
      ensures raise != Nowhere && !raise.InLibrary? ==> o == Failed && pos == old(pos)
    {
      if !lib.accepts(c) {
        return Failed;
      }
      Lock();
      if raise.Nowhere? || raise.InLibrary? {
        o := CallLibrary(c, CutOf(raise));
      } else {
        o := Failed;
      }
      Unlock();
    }

    /** The job a Python deterministic sign amounts to: a switch-back that raises fails the call. */
    static function PyJob(c: Call, found: Mode, raise: Raise, restored: bool): Job {
      if raise.AtInstall? then Job(c, Some(0), found)
      else if raise.BeforeTry? then Job(c, Some(0), Zero)
      else if !restored then Job(c, Some(0), Zero)
      else Job(c, CutOf(raise), System)
    }

    /** Python deterministic signing: `finally` runs on every path that entered the `try`, and may raise itself. */
    method PySignDeterministic(c: Call, raise: Raise, restored: bool) returns (o: Outcome)
      requires c.SignDeterministic? && !locked
      modifies this
      ensures !locked
      ensures (o, Gen()) ==
        if lib.accepts(c) then Serial(lib, tape, old(Gen()), PyJob(c, old(mode), raise, restored)) else (Failed, old(Gen()))
      ensures pos == old(pos)
      ensures lib.accepts(c) && !raise.AtInstall? ==> mode == if restored && raise != BeforeTry then System else Zero
      ensures lib.accepts(c) && raise == Nowhere && restored ==> o == Run(lib, c, ZERO_TAPE, pos, [], None).0
      ensures lib.accepts(c) && raise.InLibrary? && restored ==> o == Run(lib, c, ZERO_TAPE, pos, [], Some(raise.n)).0
      ensures (raise != Nowhere && !raise.InLibrary?) || !restored ==> o == Failed
      ensures raise.AtInstall? ==> mode == old(mode)
    {
      if !lib.accepts(c) {
        return Failed;
      }
      Lock();
      if raise.AtInstall? {
        o := Failed;
      } else {
        Switch(Zero);
        if raise.BeforeTry? {
          o := Failed;
        } else {
          if raise.AtConstruction? {
            o := Failed;
          } else {
            o := CallLibrary(c, CutOf(raise));
          }
          if restored {
            Switch(System);
          } else {
            o := Failed;
          }
        }
      }
      Unlock();
    }
  }
}
