/**
 The operations of the two bindings over liboqs, and liboqs itself as far as the
 bindings can see it: a library whose calls draw random bytes a chunk at a time
 and then return. Nothing is assumed about what it computes. Its next action may
 depend on the arguments and on every byte it has drawn; only the number of
 draws of one call is bounded.
 */
module Liboqs {
  import opened Bytes

  datatype Call =
    | Keygen(alg: string)
    | SignDeterministic(alg: string, sk: seq<byte>, msg: seq<byte>)
    | SignHedged(alg: string, sk: seq<byte>, msg: seq<byte>)
    | Encapsulate(alg: string, pk: seq<byte>)
    | Verify(alg: string, pk: seq<byte>, msg: seq<byte>, sig: seq<byte>)
    | Decapsulate(alg: string, sk: seq<byte>, ct: seq<byte>)

  /** The operations that draw randomness, and so take the lock. */
  predicate TakesLock(c: Call) {
    !c.Verify? && !c.Decapsulate?
  }

  datatype Outcome = Done(bytes: seq<byte>) | Failed

  datatype Action = Draw(n: nat) | Return(outcome: Outcome)

  /**
   `accepts` is the argument check made before liboqs is entered, `next` what the
   library does after the chunks drawn so far, `budget` its bound on draws and
   `last` its result once the budget is spent.
   */
  datatype Library = Library(
    accepts: Call -> bool,
    budget: Call -> nat,
    next: (Call, seq<seq<byte>>) -> Action,
    last: (Call, seq<seq<byte>>) -> Outcome)
  {
    function Act(c: Call, drawn: seq<seq<byte>>): Action {
      if |drawn| < budget(c) then next(c, drawn) else Return(last(c, drawn))
    }
  }

  /** The unending output of a random number generator, by position. */
  type Tape = nat -> byte

  const ZERO_TAPE: Tape := (i: nat) => 0

  function Slice(tape: Tape, at: nat, n: nat): (s: seq<byte>)
    ensures |s| == n
    ensures forall i :: 0 <= i < n ==> s[i] == tape(at + i)
  {
    seq(n, i requires 0 <= i => tape(at + i))
  }

  lemma ZeroSlice(at: nat, n: nat)
    ensures Slice(ZERO_TAPE, at, n) == Zeros(n)
  {
  }

  /** What liboqs draws from: the system's generator or the zero filler. */
  datatype Mode = System | Zero

  /** The process-global generator: what is installed, and how far the system's has been read. */
  datatype Generator = Generator(mode: Mode, pos: nat)

  /** A deterministic sign installs the zero filler; any other call reads zeros only if it finds them. */
  predicate ReadsZeros(c: Call, found: Mode) {
    c.SignDeterministic? || found.Zero?
  }

  function Source(c: Call, found: Mode, tape: Tape): Tape {
    if ReadsZeros(c, found) then ZERO_TAPE else tape
  }

  /**
   The reference: the call alone in the process, reading `src` from `at` on.
   `cut` is the environment's choice to make the library fail after that many
   draws. Returns the outcome and the position reached.
   */
  function Run(lib: Library, c: Call, src: Tape, at: nat, drawn: seq<seq<byte>>, cut: Option<nat>): (Outcome, nat)
    decreases lib.budget(c) - |drawn|
  {
    if cut == Some(0) then (Failed, at)
    else
      match lib.Act(c, drawn)
      case Return(o) => (o, at)
      case Draw(n) =>
        Run(lib, c, src, at + n, drawn + [Slice(src, at, n)],
            if cut.Some? then Some(cut.value - 1) else None)
  }

  /** A locked call, where the environment cuts it short, and the generator a deterministic sign leaves behind. */
  datatype Job = Job(call: Call, cut: Option<nat>, left: Mode)

  /** One whole call of a serial process. Only a deterministic sign can change the mode. */
  function Serial(lib: Library, tape: Tape, g: Generator, j: Job): (Outcome, Generator) {
    var (o, end) := Run(lib, j.call, Source(j.call, g.mode, tape), g.pos, [], j.cut);
    (o, Generator(if j.call.SignDeterministic? then j.left else g.mode,
                  if ReadsZeros(j.call, g.mode) then g.pos else end))
  }

  /** How many bytes the chunks hold. */
  function Len(drawn: seq<seq<byte>>): nat {
    if drawn == [] then 0 else Len(drawn[..|drawn| - 1]) + |drawn[|drawn| - 1]|
  }

  /** The chunks are what the library asked for, read from `src` at `start` without a gap. */
  predicate Legit(lib: Library, c: Call, src: Tape, start: nat, drawn: seq<seq<byte>>) {
    drawn == [] ||
    var before, chunk := drawn[..|drawn| - 1], drawn[|drawn| - 1];
    && Legit(lib, c, src, start, before)
    && lib.Act(c, before) == Draw(|chunk|)
    && chunk == Slice(src, start + Len(before), |chunk|)
  }

  /** Drawing one more chunk where the last one ended. */
  lemma OneMoreChunk(lib: Library, c: Call, src: Tape, start: nat, drawn: seq<seq<byte>>, chunk: seq<byte>)
    requires Legit(lib, c, src, start, drawn)
    requires lib.Act(c, drawn) == Draw(|chunk|) && chunk == Slice(src, start + Len(drawn), |chunk|)
    ensures Legit(lib, c, src, start, drawn + [chunk])
    ensures Len(drawn + [chunk]) == Len(drawn) + |chunk|
  {
    assert (drawn + [chunk])[..|drawn|] == drawn;
  }

  /** What a call may report after these chunks: the library's answer, or a failure. */
  predicate Plausible(lib: Library, c: Call, drawn: seq<seq<byte>>, o: Outcome) {
    o == Failed || lib.Act(c, drawn) == Return(o)
  }

  /** System bytes used up. */
  function Consumed(c: Call, found: Mode, drawn: seq<seq<byte>>): nat {
    if ReadsZeros(c, found) then 0 else Len(drawn)
  }

  lemma {:induction false} RunReaches(lib: Library, c: Call, src: Tape, start: nat, drawn: seq<seq<byte>>, cut: Option<nat>)
    requires Legit(lib, c, src, start, drawn)
    requires cut.Some? ==> |drawn| <= cut.value
    ensures Run(lib, c, src, start, [], cut)
         == Run(lib, c, src, start + Len(drawn), drawn, if cut.Some? then Some(cut.value - |drawn|) else None)
  {
    if drawn != [] {
      var before, chunk := drawn[..|drawn| - 1], drawn[|drawn| - 1];
      RunReaches(lib, c, src, start, before, cut);
      assert drawn == before + [chunk];
    }
  }

  /** Chunks behind which the library returns are its run alone. */
  lemma RunAlone(lib: Library, c: Call, src: Tape, start: nat, drawn: seq<seq<byte>>, o: Outcome)
    requires Legit(lib, c, src, start, drawn) && lib.Act(c, drawn) == Return(o)
    ensures Run(lib, c, src, start, [], None).0 == o
  {
    RunReaches(lib, c, src, start, drawn, None);
  }

  /** The cut that explains an outcome. */
  function CutFor(drawn: seq<seq<byte>>, o: Outcome): Option<nat> {
    if o == Failed then Some(|drawn|) else None
  }

  /** Chunks and outcome of that kind are a serial run of the call. */
  lemma LegitIsSerial(lib: Library, tape: Tape, g: Generator, c: Call, drawn: seq<seq<byte>>, o: Outcome, left: Mode)
    requires Legit(lib, c, Source(c, g.mode, tape), g.pos, drawn)
    requires Plausible(lib, c, drawn, o)
    ensures Serial(lib, tape, g, Job(c, CutFor(drawn, o), left))
         == (o, Generator(if c.SignDeterministic? then left else g.mode, g.pos + Consumed(c, g.mode, drawn)))
  {
    RunReaches(lib, c, Source(c, g.mode, tape), g.pos, drawn, CutFor(drawn, o));
  }

  /** Where the library has returned, no cut is needed. */
  lemma ReturnIsSerial(lib: Library, tape: Tape, g: Generator, c: Call, drawn: seq<seq<byte>>, o: Outcome, left: Mode)
    requires Legit(lib, c, Source(c, g.mode, tape), g.pos, drawn)
    requires lib.Act(c, drawn) == Return(o)
    ensures Serial(lib, tape, g, Job(c, None, left))
         == (o, Generator(if c.SignDeterministic? then left else g.mode, g.pos + Consumed(c, g.mode, drawn)))
  {
    RunReaches(lib, c, Source(c, g.mode, tape), g.pos, drawn, None);
  }
}
