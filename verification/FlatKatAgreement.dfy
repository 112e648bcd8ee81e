/**
 The two readers of the flat vector file side by side: on which files the C
 program finds the records the Java test finds, and where they part.
 */
module FlatKatAgreement {
  import opened Bytes
  import opened FlatKat
  import opened FlatKatC
  import FlatKatReaders

  /** The fields of a hybrid_v2 line that the C buffers can hold and the Java reader can decode. */
  ghost predicate FitsBuffers(f: seq<string>) {
    && |f| >= 6
    && |f[1]| <= 63 && |f[2]| <= 511 && |f[3]| <= 19999 && |f[4]| <= 19999 && |f[5]| <= 19999
    && (forall i :: 2 <= i < 6 ==> Unhex(f[i]).Some?)
    && (f[3] == "-" || |f[3]| / 2 <= 8192)
    && (f[4] == "-" || |f[4]| / 2 <= 8192)
  }

  predicate Commented(l: string) {
    l != "" && l[0] == '#'
  }

  /** A line that fgets takes whole and in which both programs see the same characters. */
  predicate Regular(l: string) {
    |l| <= 39999 && (Commented(l) || (NoNul(l) && Plain(l)))
  }

  /** A comment, a blank line, a line of another kind, or a hybrid_v2 line within the limits. */
  ghost predicate Tame(l: string) {
    Commented(l) || Fields(l) == [] || Fields(l)[0] != "hybrid_v2" || FitsBuffers(Fields(l))
  }

  /** Every carriage return stands before a newline. */
  predicate Paired(text: string) {
    forall i :: 0 <= i < |text| && text[i] == '\r' ==> i + 1 < |text| && text[i + 1] == '\n'
  }

  predicate End(e: string) {
    e == "" || e == "\n" || e == "\r" || e == "\r\n"
  }

  lemma EndLeavesFields(l: string, e: string)
    requires End(e)
    ensures Fields(l + e) == Fields(l)
  {
    if e == "" {
      assert l + e == l;
    } else {
      LastSpaceSplitsOff(l, e[0]);
      if |e| == 2 {
        LastSpaceSplitsOff(l + [e[0]], e[1]);
        assert l + [e[0]] + [e[1]] == l + e;
      } else {
        assert l + [e[0]] == l + e;
      }
    }
  }

  /** Six fitting fields replace all the leftovers. */
  lemma OverwritesAll(st: Buffers, s: string)
    requires |Fields(s)| >= 6 && Fit(Fields(s), HYBRID)
    ensures var f := Fields(s);
      OverwriteAll(st, Scan(s, HYBRID)) == Buffers(st.kind, f[1], f[2], f[3], f[4], f[5])
    ensures |Fields(s)[2]| <= 511 && |Fields(s)[5]| <= 19999
  {
    var f := Fields(s);
    ScanIsFields(s, HYBRID);
    assert Scan(s, HYBRID) == f[..6];
    assert |f[2]| <= HYBRID[2] && |f[5]| <= HYBRID[5];
  }

  lemma UnhexedReads(h: string, cap: nat)
    requires Unhex(h).Some? && (h == "-" || |h| / 2 <= cap)
    ensures Unhexed(h, cap) == Unhex(h)
  {
    if h != "-" {
      ScanBytesReads(h);
    }
  }

  lemma FittingFieldsRecord(f: seq<string>)
    requires f != [] && f[0] == KIND && FitsBuffers(f) && |f[2]| <= 511 && |f[5]| <= 19999
    ensures Interpret(f).Record?
    ensures RecordOf(Buffers(KIND, f[1], f[2], f[3], f[4], f[5])) == Some(Interpret(f).p)
  {
    assert Unhex(f[2]).Some? && Unhex(f[3]).Some? && Unhex(f[4]).Some? && Unhex(f[5]).Some?;
    UnhexedReads(f[2], 256);
    UnhexedReads(f[3], 8192);
    UnhexedReads(f[4], 8192);
    UnhexedReads(f[5], 16384);
  }

  lemma BranchReads(st: Buffers, s: string)
    requires Fields(s) != [] && Fields(s)[0] == KIND && FitsBuffers(Fields(s))
    requires st.kind == KIND
    ensures Branch(st, s).Some? && Interpret(Fields(s)).Record?
    ensures Branch(st, s).value.rs == [Interpret(Fields(s)).p]
  {
    FitsIsFit(Fields(s));
    OverwritesAll(st, s);
    FittingFieldsRecord(Fields(s));
  }

  function AsRecords(r: LineResult): seq<Parsed> {
    if r.Record? then [r.p] else []
  }

  /** A string that is no comment: the fields decide, whatever the leftovers. */
  lemma TurnInterprets(st: Buffers, s: string)
    requires s != "" && NoNul(s) && !Commented(s) && (s[0] == '\n' ==> Fields(s) == [])
    requires Fields(s) == [] || Fields(s)[0] != KIND || FitsBuffers(Fields(s))
    ensures Interpret(Fields(s)) != Malformed
    ensures Turn(st, s).Some? && Turn(st, s).value.rs == AsRecords(Interpret(Fields(s)))
    ensures Fields(s) == [] ==> Turn(st, s).value.st == st
  {
    WholeString(s);
    ScanKind(s);
    if Fields(s) != [] {
      var kind := Scan(s, FIRST)[0];
      if kind == KIND {
        BranchReads(st.(kind := kind), s);
      } else {
        BranchIgnores(st.(kind := kind), s);
      }
    }
  }

  lemma BranchIgnores(st: Buffers, s: string)
    requires st.kind != KIND
    ensures Branch(st, s).Some? && Branch(st, s).value.rs == []
  {
  }

  /** On a tame line, whatever its end, a turn reads what the Java reader reads, from any leftovers. */
  lemma TurnReads(st: Buffers, l: string, e: string)
    requires Regular(l) && Tame(l) && OneLine(l) && End(e) && l + e != ""
    ensures ReadLine(l) != Malformed
    ensures Turn(st, l + e).Some? && Turn(st, l + e).value.rs == AsRecords(ReadLine(l))
    ensures l == "" ==> Turn(st, l + e).value.st == st
  {
    if !Commented(l) {
      EndLeavesFields(l, e);
      TrimKeepsFields(l);
      assert l != "" ==> (l + e)[0] == l[0];
      assert l == "" ==> l + e == e && Fields(l) == [];
      TurnInterprets(st, l + e);
    }
  }

  // ---- Lines beyond the limits ----

  /** Before the first field that is too long all conversions are exact; that one is cut. */
  lemma {:induction false} ScanCuts(line: string, widths: seq<nat>, i: nat)
    requires i < |Fields(line)| && i < |widths|
    requires forall j :: 0 <= j < i ==> |Fields(line)[j]| <= widths[j]
    requires |Fields(line)[i]| > widths[i]
    ensures |Scan(line, widths)| > i
    ensures Scan(line, widths)[..i] == Fields(line)[..i]
    ensures Scan(line, widths)[i] == Fields(line)[i][..widths[i]]
    decreases i
  {
    if i == 0 {
      ScanCutsFirst(line, widths);
    } else {
      var f, fs := Fields(line), Scan(line, widths);
      assert |f[0]| <= widths[0];
      var u := ScanStep(line, widths);
      assert f[1..] == Fields(u) && fs[1..] == Scan(u, widths[1..]);
      forall j | 0 <= j < i - 1 ensures |Fields(u)[j]| <= widths[1..][j] {
        assert |f[j + 1]| <= widths[j + 1];
      }
      ScanCuts(u, widths[1..], i - 1);
      SamePrefix(fs, f, i);
    }
  }

  lemma SamePrefix<T>(a: seq<T>, b: seq<T>, i: nat)
    requires 0 < i <= |a| && i <= |b| && a[0] == b[0] && a[1..][..i - 1] == b[1..][..i - 1]
    ensures a[..i] == b[..i]
  {
    assert a[..i] == [a[0]] + a[1..][..i - 1] && b[..i] == [b[0]] + b[1..][..i - 1];
  }

  lemma ScanCutsFirst(line: string, widths: seq<nat>)
    requires Fields(line) != [] && widths != [] && |Fields(line)[0]| > widths[0]
    ensures Scan(line, widths) != [] && Scan(line, widths)[0] == Fields(line)[0][..widths[0]]
  {
    var t := SkipSpace(line);
    assert t[..WordLen(t)][..widths[0]] == t[..widths[0]];
  }

  lemma ScanStep(line: string, widths: seq<nat>) returns (u: string)
    requires widths != [] && Fields(line) != [] && |Fields(line)[0]| <= widths[0]
    ensures Fields(line) == [Fields(line)[0]] + Fields(u)
    ensures Scan(line, widths) == [Fields(line)[0]] + Scan(u, widths[1..])
  {
    var t := SkipSpace(line);
    u := t[WordLen(t)..];
  }

  /** How many bytes a field stands for. */
  function Len(h: string): nat {
    if h == "-" then 0 else |h| / 2
  }

  lemma UnhexLength(h: string)
    requires Unhex(h).Some?
    ensures |Unhex(h).value| == Len(h)
  {
    if |h| >= 2 {
      FlatKatReaders.UnhexPairsAt(h, 0);
    }
  }

  lemma UnhexedLength(h: string, cap: nat)
    requires Unhexed(h, cap).Some?
    ensures |Unhexed(h, cap).value| == Len(h) <= cap
  {
    if |h| >= 2 {
      ScanBytesAt(h, 0);
    }
  }

  /** A record has the name and the lengths of the fields it was read from. */
  predicate Shaped(p: Parsed, name: string, h0: string, h1: string, h2: string, h3: string) {
    p.name == name && |p.chain| == Len(h0) && |p.b0| == Len(h1) && |p.auth| == Len(h2) && |p.sign| == Len(h3)
  }

  lemma JavaShape(f: seq<string>)
    requires Interpret(f).Record?
    ensures |f| >= 6 && Shaped(Interpret(f).p, f[1], f[2], f[3], f[4], f[5])
  {
    UnhexLength(f[2]);
    UnhexLength(f[3]);
    UnhexLength(f[4]);
    UnhexLength(f[5]);
  }

  lemma CShape(st: Buffers)
    requires RecordOf(st).Some?
    ensures Shaped(RecordOf(st).value, st.name, st.hcid, st.h1, st.h2, st.h3)
    ensures Len(st.h1) <= 8192 && Len(st.h2) <= 8192
  {
    UnhexedLength(st.hcid, 256);
    UnhexedLength(st.h1, 8192);
    UnhexedLength(st.h2, 8192);
    UnhexedLength(st.h3, 16384);
  }

  /** The limits, as the widths of the scan. */
  lemma FitsIsFit(f: seq<string>)
    requires f != [] && f[0] == KIND
    ensures FitsBuffers(f) ==> Fit(f, HYBRID)
    ensures |f| >= 6 && Fit(f, HYBRID) ==>
      |f[1]| <= 63 && |f[2]| <= 511 && |f[3]| <= 19999 && |f[4]| <= 19999 && |f[5]| <= 19999
  {
    assert |f[0]| == 9;
    if |f| >= 6 && Fit(f, HYBRID) {
      assert |f[1]| <= HYBRID[1] && |f[2]| <= HYBRID[2] && |f[3]| <= HYBRID[3] && |f[4]| <= HYBRID[4] && |f[5]| <= HYBRID[5];
    }
  }

  lemma FirstTooLong(f: seq<string>, widths: seq<nat>) returns (i: nat)
    requires !Fit(f, widths)
    ensures i < |f| && i < |widths| && |f[i]| > widths[i]
    ensures forall j :: 0 <= j < i ==> |f[j]| <= widths[j]
  {
    i := 0;
    while i < |f| && i < |widths| && |f[i]| <= widths[i]
      invariant forall j :: 0 <= j < i ==> j < |f| && j < |widths| && |f[j]| <= widths[j]
    {
      i := i + 1;
    }
  }

  /** What a cut conversion leaves in its buffer. */
  lemma CutLengths(st: Buffers, f: seq<string>, fs: seq<string>, i: nat)
    requires 1 <= i < |f| && i < 6 && i < |fs| && |f[i]| > HYBRID[i] && fs[i] == f[i][..HYBRID[i]]
    ensures var u := OverwriteAll(st, fs);
      || |u.name| < |f[1]|
      || (i >= 2 && |f| >= 3 && Len(u.hcid) < Len(f[2]))
      || Len(u.h1) > 8192 || Len(u.h2) > 8192
      || (i == 5 && Len(u.h3) < Len(f[5]))
  {
    if i == 1 {
      assert |fs[1]| == 63;
    } else if i == 2 {
      assert |fs[2]| == 511;
    } else {
      assert |fs[i]| == 19999;
    }
  }

  /** A cut field cannot be made good: the name or the length of the bytes is another. */
  lemma CutDiffers(st: Buffers, s: string)
    requires Fields(s) != [] && Fields(s)[0] == KIND && st.kind == KIND
    requires !Fit(Fields(s), HYBRID) && Interpret(Fields(s)).Record?
    ensures Branch(st, s).Some? ==> |Branch(st, s).value.rs| == 1
    ensures Branch(st, s).Some? ==> Branch(st, s).value.rs != [Interpret(Fields(s)).p]
  {
    var f := Fields(s);
    var i := FirstTooLong(f, HYBRID);
    assert |f[0]| == 9;
    ScanCuts(s, HYBRID, i);
    var u := OverwriteAll(st, Scan(s, HYBRID));
    CutLengths(st, f, Scan(s, HYBRID), i);
    JavaShape(f);
    if RecordOf(u).Some? {
      CShape(u);
    }
  }

  /** Fields that fit their widths and can be decoded, but not into the buffers. */
  lemma OversizeUndefined(st: Buffers, s: string)
    requires Fields(s) != [] && Fields(s)[0] == KIND && st.kind == KIND
    requires Fit(Fields(s), HYBRID) && !FitsBuffers(Fields(s)) && Interpret(Fields(s)).Record?
    ensures Branch(st, s) == None
  {
    OverwritesAll(st, s);
    DecodedButOversize(Fields(s));
  }

  lemma DecodedButOversize(f: seq<string>)
    requires f != [] && f[0] == KIND && Fit(f, HYBRID) && !FitsBuffers(f) && Interpret(f).Record?
    ensures |f| >= 6 && (Unhexed(f[3], 8192) == None || Unhexed(f[4], 8192) == None)
  {
    FitsIsFit(f);
  }

  /** On a line that is not tame the readers part, from any leftovers. */
  lemma TurnParts(st: Buffers, l: string, e: string)
    requires Regular(l) && !Tame(l) && OneLine(l) && End(e)
    ensures var r := ReadLine(l);
      || r == Malformed
      || (r.Record? && Turn(st, l + e) == None)
      || (r.Record? && Turn(st, l + e).Some? && |Turn(st, l + e).value.rs| == 1 && Turn(st, l + e).value.rs != [r.p])
  {
    var s := l + e;
    EndLeavesFields(l, e);
    TrimKeepsFields(l);
    assert s[0] == l[0];
    if ReadLine(l) != Malformed {
      WholeString(s);
      ScanKind(s);
      var st' := st.(kind := KIND);
      assert Turn(st, s) == Branch(st', s);
      if Fit(Fields(s), HYBRID) {
        OversizeUndefined(st', s);
      } else {
        CutDiffers(st', s);
      }
    }
  }

  // ---- Leftovers ----

  /** What the fields of a line do to a buffer. */
  function Left(f: seq<string>, i: nat, before: string): string {
    if i < |f| then f[i] else before
  }

  /** A hybrid_v2 line overwrites the buffers it has fields for, each with its own, and no other. */
  lemma HybridLeaves(st: Buffers, s: string)
    requires NoNul(s) && s != "" && !Commented(s) && s[0] != '\n'
    requires Fields(s) != [] && Fields(s)[0] == "hybrid_v2" && Fit(Fields(s), [15, 63, 511, 19999, 19999, 19999])
    ensures var f, t := Fields(s), Turn(st, s);
      t.Some? ==>
        t.value.st == Buffers("hybrid_v2", Left(f, 1, st.name), Left(f, 2, st.hcid), Left(f, 3, st.h1), Left(f, 4, st.h2), Left(f, 5, st.h3))
  {
    WholeString(s);
    KindScanned(s);
    HybridBranch(st.(kind := Fields(s)[0]), s);
  }

  lemma HybridBranch(st: Buffers, s: string)
    requires Fields(s) != [] && Fit(Fields(s), HYBRID) && st.kind == KIND
    ensures var f, t := Fields(s), Branch(st, s);
      t.Some? ==>
        t.value.st == Buffers(KIND, Left(f, 1, st.name), Left(f, 2, st.hcid), Left(f, 3, st.h1), Left(f, 4, st.h2), Left(f, 5, st.h3))
  {
    ScanIsFields(s, HYBRID);
    var f, fs := Fields(s), Scan(s, HYBRID);
    assert fs == f[..Min(|f|, 6)];
    assert OverwriteAll(st, fs) == Buffers(KIND, Left(f, 1, st.name), Left(f, 2, st.hcid), Left(f, 3, st.h1), Left(f, 4, st.h2), Left(f, 5, st.h3));
  }

  /** Lines of the other kinds that the program knows put their fields into the same three buffers. */
  lemma OthersLeave(st: Buffers, s: string)
    requires NoNul(s) && s != "" && !Commented(s) && s[0] != '\n' && Fields(s) != []
    ensures var f := Fields(s);
      && (f[0] == "mldsa" && Fit(f, [15, 31, 19999, 19999, 19999, 19999]) ==>
            Turn(st, s) == Some(Outcome(Buffers("mldsa", st.name, st.hcid, Left(f, 2, st.h1), Left(f, 3, st.h2), Left(f, 4, st.h3)), [])))
      && (f[0] == "mlkem" && Fit(f, [15, 31, 19999, 19999, 19999]) ==>
            Turn(st, s) == Some(Outcome(Buffers("mlkem", st.name, st.hcid, Left(f, 2, st.h1), Left(f, 3, st.h2), Left(f, 4, st.h3)), [])))
      && (f[0] == "shake" && Fit(f, [15, 19999, 19999, 19999]) ==>
            Turn(st, s) == Some(Outcome(Buffers("shake", st.name, st.hcid, Left(f, 1, st.h1), Left(f, 2, st.h2), Left(f, 3, st.h3)), [])))
  {
    WholeString(s);
    var f := Fields(s);
    if f[0] == "mldsa" && Fit(f, [15, 31, 19999, 19999, 19999, 19999]) {
      KindScanned(s);
      ScanIsFields(s, MLDSA);
    } else if f[0] == "mlkem" && Fit(f, [15, 31, 19999, 19999, 19999]) {
      KindScanned(s);
      ScanIsFields(s, MLKEM);
    } else if f[0] == "shake" && Fit(f, [15, 19999, 19999, 19999]) {
      KindScanned(s);
      ScanIsFields(s, SHAKE);
    }
  }

  lemma KindScanned(s: string)
    requires Fields(s) != [] && |Fields(s)[0]| <= 15
    ensures Scan(s, FIRST) == [Fields(s)[0]]
  {
    ScanIsFields(s, FIRST);
  }

  /** Any other word, as far as 15 characters of it go, is remembered as the kind and changes nothing else. */
  lemma UnknownLeaves(st: Buffers, s: string)
    requires NoNul(s) && s != "" && !Commented(s) && s[0] != '\n' && Fields(s) != []
    requires Fields(s)[0] != "hybrid_v2" && Fields(s)[0] != "mldsa" && Fields(s)[0] != "mlkem" && Fields(s)[0] != "shake"
    ensures var w := Fields(s)[0];
      Turn(st, s) == Some(Outcome(st.(kind := if |w| <= 15 then w else w[..15]), []))
  {
    WholeString(s);
    var w := Fields(s)[0];
    if |w| <= 15 {
      KindScanned(s);
    } else {
      ScanCutsFirst(s, FIRST);
    }
  }

  // ---- fgets and readAllLines ----

  lemma {:induction false} FgetsTakes(s: string, rest: string, cap: nat)
    requires forall i :: 0 <= i < |s| - 1 ==> s[i] != '\n'
    requires rest == "" || (s != "" && s[|s| - 1] == '\n')
    ensures Fgets(s + rest, cap) == Min(|s|, cap)
    decreases cap
  {
    if s != "" && cap > 0 {
      assert (s + rest)[1..] == s[1..] + rest;
      if |s| > 1 {
        FgetsTakes(s[1..], rest, cap - 1);
      }
    }
  }

  lemma {:induction false} FgetsFull(s: string, cap: nat)
    requires cap <= |s| && forall i :: 0 <= i < cap ==> s[i] != '\n'
    ensures Fgets(s, cap) == cap
    decreases cap
  {
    if cap > 0 {
      FgetsFull(s[1..], cap - 1);
    }
  }

  /** The buffer takes 39999 characters of a longer line; the loop meets the rest as another. */
  lemma LongLineIsCut(s: string)
    requires |s| > 39999 && forall i :: 0 <= i < 39999 ==> s[i] != '\n'
    ensures Chunks(s) == [s[..39999]] + Chunks(s[39999..])
  {
    FgetsFull(s, LINE_CAP);
  }

  /** A line comes whole, or in two pieces. */
  lemma ChunksOf(s: string, rest: string)
    requires s != "" && |s| <= 2 * LINE_CAP
    requires forall i :: 0 <= i < |s| - 1 ==> s[i] != '\n'
    requires rest == "" || s[|s| - 1] == '\n'
    ensures |s| <= LINE_CAP ==> Chunks(s + rest) == [s] + Chunks(rest)
    ensures |s| > LINE_CAP ==> Chunks(s + rest) == [s[..LINE_CAP]] + ([s[LINE_CAP..]] + Chunks(rest))
  {
    FgetsTakes(s, rest, LINE_CAP);
    if |s| <= LINE_CAP {
      assert (s + rest)[..|s|] == s && (s + rest)[|s|..] == rest;
    } else {
      var t := s[LINE_CAP..];
      FgetsTakes(t, rest, LINE_CAP);
      assert (s + rest)[..LINE_CAP] == s[..LINE_CAP] && (s + rest)[LINE_CAP..] == t + rest;
      assert (t + rest)[..|t|] == t && (t + rest)[|t|..] == rest;
    }
  }

  /** The first line of a text, its end, and the rest. */
  lemma FirstLine(text: string) returns (l: string, e: string, rest: string)
    requires text != "" && Paired(text)
    ensures text == l + e + rest && OneLine(l) && |rest| < |text|
    ensures if e == "" then rest == "" && l != "" else e == "\n" || e == "\r\n"
    ensures Lines(text) == [l] + Lines(rest) && Paired(rest)
  {
    var n := LineLen(text);
    LineLenStops(text);
    l := text[..n];
    e := if n == |text| then "" else if text[n] == '\r' then "\r\n" else "\n";
    rest := text[n + |e|..];
    assert forall i :: 0 <= i < |rest| ==> rest[i] == text[i + n + |e|];
  }

  lemma {:induction false} LineLenStops(s: string)
    ensures OneLine(s[..LineLen(s)])
    ensures LineLen(s) < |s| ==> Break(s[LineLen(s)])
  {
    if s != "" && !Break(s[0]) {
      LineLenStops(s[1..]);
      assert s[..LineLen(s)] == [s[0]] + s[1..][..LineLen(s[1..])];
    }
  }

  /** The turns after one that ended so. */
  function Onward(t: Option<Outcome>, cs: seq<string>): Option<Outcome> {
    match t
    case Some(o) => Behind(o.rs, Loop(o.st, cs))
    case None => None
  }

  lemma LoopOf(st: Buffers, c: string, cs: seq<string>)
    ensures Loop(st, [c] + cs) == Onward(Turn(st, c), cs)
  {
    assert ([c] + cs)[1..] == cs;
  }

  lemma BlankTurn(st: Buffers, e: string)
    requires End(e) && e != ""
    ensures Turn(st, e) == Some(Outcome(st, []))
  {
    assert "" + e == e;
    TurnReads(st, "", e);
  }

  /** A line is one turn, on the line and some of its end; a second turn on the rest of the end does nothing. */
  lemma LoopOfLine(st: Buffers, l: string, e: string, rest: string) returns (e': string)
    requires |l| <= LINE_CAP && OneLine(l) && l + e != ""
    requires if e == "" then rest == "" else e == "\n" || e == "\r\n"
    ensures End(e') && l + e' != ""
    ensures Loop(st, Chunks(l + e + rest)) == Onward(Turn(st, l + e'), Chunks(rest))
  {
    var s := l + e;
    ChunksOf(s, rest);
    if |s| <= LINE_CAP {
      e' := e;
      LoopOf(st, s, Chunks(rest));
    } else {
      var k := LINE_CAP - |l|;
      e' := e[..k];
      assert s[..LINE_CAP] == l + e' && s[LINE_CAP..] == e[k..];
      LoopOf(st, l + e', [e[k..]] + Chunks(rest));
      if Turn(st, l + e').Some? {
        var st' := Turn(st, l + e').value.st;
        BlankTurn(st', e[k..]);
        LoopOf(st', e[k..], Chunks(rest));
        BehindNothing(Loop(st', Chunks(rest)));
      }
    }
  }

  // ---- The theorem ----

  /** The C program, started with these buffers, meets just the records of the Java test, which does not throw. */
  ghost predicate Agree(text: string, st: Buffers) {
    Loop(st, Chunks(text)).Some? && Records(Lines(text)) == Some(Loop(st, Chunks(text)).value.rs)
  }

  lemma SameTail<T>(a: seq<T>, b: seq<T>, c: seq<T>)
    ensures a + b == a + c <==> b == c
  {
    assert b == (a + b)[|a|..] && c == (a + c)[|a|..];
  }

  lemma RecordsOfCons(l: string, ls: seq<string>)
    requires ReadLine(l) != Malformed
    ensures Records([l] + ls) == if Records(ls).Some? then Some(AsRecords(ReadLine(l)) + Records(ls).value) else None
  {
    assert ([l] + ls)[1..] == ls;
    if Records(ls).Some? {
      assert [] + Records(ls).value == Records(ls).value;
    }
  }

  /** Agreement on a text that starts with a tame line is agreement on the rest. */
  lemma TameStep(st: Buffers, l: string, e: string, rest: string) returns (st': Buffers)
    requires Regular(l) && Tame(l) && OneLine(l) && l + e != ""
    requires if e == "" then rest == "" else e == "\n" || e == "\r\n"
    requires Lines(l + e + rest) == [l] + Lines(rest)
    ensures Agree(l + e + rest, st) <==> Agree(rest, st')
  {
    var e' := LoopOfLine(st, l, e, rest);
    TurnReads(st, l, e');
    st' := Turn(st, l + e').value.st;
    RecordsOfCons(l, Lines(rest));
    var o := Loop(st', Chunks(rest));
    if o.Some? && Records(Lines(rest)).Some? {
      SameTail(AsRecords(ReadLine(l)), o.value.rs, Records(Lines(rest)).value);
    }
  }

  lemma HeadsDiffer<T>(a: seq<T>, b: seq<T>, x: seq<T>, y: seq<T>)
    requires |a| == |b| && a != b
    ensures a + x != b + y
  {
    assert a == (a + x)[..|a|] && b == (b + y)[..|b|];
  }

  lemma WildStep(st: Buffers, l: string, e: string, rest: string)
    requires Regular(l) && !Tame(l) && OneLine(l) && l + e != ""
    requires if e == "" then rest == "" else e == "\n" || e == "\r\n"
    requires Lines(l + e + rest) == [l] + Lines(rest)
    ensures !Agree(l + e + rest, st)
  {
    var e' := LoopOfLine(st, l, e, rest);
    TurnParts(st, l, e');
    var t, rs := Turn(st, l + e'), Records(Lines(rest));
    if ReadLine(l) == Malformed {
      assert ([l] + Lines(rest))[1..] == Lines(rest);
    } else {
      RecordsOfCons(l, Lines(rest));
      if t.Some? && rs.Some? {
        var o := Loop(t.value.st, Chunks(rest));
        if o.Some? {
          HeadsDiffer(t.value.rs, [ReadLine(l).p], o.value.rs, rs.value);
        }
      }
    }
  }

  ghost predicate AllRegular(ls: seq<string>) {
    forall i :: 0 <= i < |ls| ==> Regular(ls[i])
  }

  ghost predicate AllTame(ls: seq<string>) {
    forall i :: 0 <= i < |ls| ==> Tame(ls[i])
  }

  lemma AllOfCons(l: string, ls: seq<string>)
    ensures AllTame([l] + ls) <==> Tame(l) && AllTame(ls)
    ensures AllRegular([l] + ls) <==> Regular(l) && AllRegular(ls)
  {
    ForAllOfCons(Tame, l, ls);
    ForAllOfCons(Regular, l, ls);
  }

  lemma ForAllOfCons<T>(p: T -> bool, x: T, xs: seq<T>)
    ensures (forall i :: 0 <= i < |[x] + xs| ==> p(([x] + xs)[i])) <==> p(x) && forall i :: 0 <= i < |xs| ==> p(xs[i])
  {
    var s := [x] + xs;
    assert s[0] == x;
    if forall i :: 0 <= i < |s| ==> p(s[i]) {
      forall i | 0 <= i < |xs| ensures p(xs[i]) {
        assert s[i + 1] == xs[i];
      }
    }
  }

  /**
   On texts of regular lines without a lone carriage return the C program finds what the
   Java test finds, whatever its buffers held before, exactly when all lines are tame.
   */
  lemma {:induction false} ReadersAgreeExactly(text: string, st: Buffers)
    requires Paired(text) && AllRegular(Lines(text))
    ensures Agree(text, st) <==> AllTame(Lines(text))
    decreases |text|
  {
    if text != "" {
      var l, e, rest := FirstLine(text);
      AllOfCons(l, Lines(rest));
      if Tame(l) {
        var st' := TameStep(st, l, e, rest);
        ReadersAgreeExactly(rest, st');
      } else {
        WildStep(st, l, e, rest);
      }
    }
  }

  // ---- Printed files ----

  /** The C buffers' limits, on a vector. */
  predicate WithinLimits(v: Vector) {
    && |v.name| <= 63 && NoNul(v.name) && |v.chain| <= 255
    && |v.b0Hex| <= 2 * 8192 && |v.authHex| <= 2 * 8192 && |v.signHex| <= 19999
    && |LineOf(v)| <= LINE_CAP
  }

  lemma HexNoNul(h: string)
    requires IsHex(h)
    ensures NoNul(h)
  {
    forall i | 0 <= i < |h| ensures h[i] != '\0' {
      assert HexDigit(h[i]).Some?;
    }
  }

  lemma {:induction false} JoinNoNul(fs: seq<string>)
    requires forall i :: 0 <= i < |fs| ==> NoNul(fs[i])
    ensures NoNul(JoinSpaces(fs))
  {
    if |fs| > 1 {
      JoinNoNul(fs[1..]);
    }
  }

  lemma LineNoNul(v: Vector)
    requires HexFields(v) && NoNul(v.name)
    ensures NoNul(LineOf(v))
  {
    HexIsHex(v.chain);
    HexNoNul(Hex(v.chain));
    HexNoNul(v.b0Hex);
    HexNoNul(v.authHex);
    HexNoNul(v.signHex);
    JoinNoNul(Pieces(v));
  }

  lemma PiecesFit(v: Vector)
    requires HexFields(v) && WithinLimits(v)
    ensures FitsBuffers(Pieces(v))
  {
    HexRoundTrip(v.chain);
    HexReads(v.b0Hex);
    HexReads(v.authHex);
    HexReads(v.signHex);
    var f := Pieces(v);
    assert |f[0]| == 9 && |f[1]| <= 63 && |f[2]| <= 510 && |f[3]| <= 16384 && |f[4]| <= 16384 && |f[5]| <= 19999;
  }

  lemma PrintedLineIsTame(v: Vector)
    requires HexFields(v) && Printable(v) && WithinLimits(v)
    ensures Regular(LineOf(v)) && Tame(LineOf(v))
  {
    PiecesSolid(v);
    JoinOneLine(Pieces(v));
    FieldsOfJoin(Pieces(v));
    NonEmptyOfSix(KIND, v.name, Hex(v.chain), Mark(v.b0Hex), Mark(v.authHex), v.signHex);
    PrintedLineIsPlain(v);
    LineNoNul(v);
    PiecesFit(v);
  }

  lemma {:induction false} PrintedLinesAreTame(vs: seq<Vector>)
    requires forall i :: 0 <= i < |vs| ==> HexFields(vs[i]) && Printable(vs[i]) && WithinLimits(vs[i])
    ensures AllRegular(LinesFor(vs)) && AllTame(LinesFor(vs))
  {
    if vs != [] {
      PrintedLineIsTame(vs[0]);
      PrintedLinesAreTame(vs[1..]);
      AllOfCons(LineOf(vs[0]), LinesFor(vs[1..]));
    }
  }

  lemma {:induction false} TextIsPaired(ls: seq<string>)
    requires forall i :: 0 <= i < |ls| ==> OneLine(ls[i])
    ensures forall i :: 0 <= i < |Text(ls)| ==> Text(ls)[i] != '\r'
  {
    if ls != [] {
      TextIsPaired(ls[1..]);
    }
  }

  lemma PrintedFileIsPaired(header: string, vs: seq<Vector>)
    requires Comment(header)
    requires forall i :: 0 <= i < |vs| ==> HexFields(vs[i]) && Solid(vs[i].name)
    ensures Paired(Print(header, vs))
  {
    LinesForOneLine(vs);
    ForAllOfCons(OneLine, header, LinesFor(vs));
    TextIsPaired([header] + LinesFor(vs));
  }

  lemma PrintedFileIsTame(header: string, vs: seq<Vector>)
    requires Comment(header) && |header| <= LINE_CAP
    requires forall i :: 0 <= i < |vs| ==> HexFields(vs[i]) && Printable(vs[i]) && WithinLimits(vs[i])
    ensures AllRegular([header] + LinesFor(vs)) && AllTame([header] + LinesFor(vs))
  {
    PrintedLinesAreTame(vs);
    AllOfCons(header, LinesFor(vs));
  }

  /** A printed file within the limits gives both readers the printed vectors. */
  lemma PrintedFileAgrees(header: string, vs: seq<Vector>, st: Buffers)
    requires Comment(header) && |header| <= LINE_CAP
    requires forall i :: 0 <= i < |vs| ==> HexFields(vs[i]) && Printable(vs[i]) && WithinLimits(vs[i])
    ensures Loop(st, Chunks(Print(header, vs))).Some?
    ensures Loop(st, Chunks(Print(header, vs))).value.rs == DecodeAll(vs)
    ensures Records(Lines(Print(header, vs))) == Some(DecodeAll(vs))
  {
    ReadPrintedFile(header, vs);
    PrintedFileIsPaired(header, vs);
    PrintedFileIsTame(header, vs);
    HeaderSkipped(header, LinesFor(vs));
    RecordsOfLinesFor(vs);
    ReadersAgreeExactly(Print(header, vs), st);
  }

  // ---- Where they part ----

  /** Behind a lone carriage return the Java reader starts a line, the C program goes on with the comment. */
  lemma LoneCrParts(c: string, v: Vector, st: Buffers)
    requires Comment(c) && HexFields(v) && Printable(v)
    requires |c| + 1 + |LineOf(v)| < LINE_CAP
    ensures Records(Lines(c + "\r" + LineOf(v) + "\n")) == Some([Decode(v)])
    ensures Loop(st, Chunks(c + "\r" + LineOf(v) + "\n")) == Some(Outcome(st, []))
  {
    var l := LineOf(v);
    PiecesSolid(v);
    JoinOneLine(Pieces(v));
    PrintedLineIsPlain(v);
    LoneCrLines(c, l);
    RecordsOfTwo(c, v);
    CommentToNewline(c + "\r" + l, st);
  }

  lemma RecordsOfTwo(c: string, v: Vector)
    requires Comment(c) && HexFields(v) && Printable(v)
    ensures Records([c, LineOf(v)]) == Some([Decode(v)])
  {
    ReadPrintedLine(v);
    HeaderSkipped(c, [LineOf(v)]);
    assert [c] + [LineOf(v)] == [c, LineOf(v)];
    var r := Decode(v);
    assert Records([LineOf(v)][1..]) == Some([]) && [r] + [] == [r];
  }

  lemma LoneCrLines(c: string, l: string)
    requires OneLine(c) && OneLine(l) && l != ""
    ensures Lines(c + "\r" + l + "\n") == [c, l]
  {
    assert c + "\r" + l + "\n" == c + "\r" + (l + "\n");
    CarriageReturnEnds(c, l + "\n");
    LinesOfCons(l, "");
    assert l + "\n" + "" == l + "\n";
  }

  lemma CommentAlone(c: string, st: Buffers)
    requires Commented(c)
    ensures Loop(st, [c]) == Some(Outcome(st, []))
  {
    assert Loop(st, [c][1..]) == Some(Outcome(st, []));
    BehindNothing(Loop(st, []));
  }

  lemma CommentToNewline(s: string, st: Buffers)
    requires Commented(s) && |s| < LINE_CAP && forall i :: 0 <= i < |s| ==> s[i] != '\n'
    ensures Loop(st, Chunks(s + "\n")) == Some(Outcome(st, []))
  {
    OneChunk(s);
    CommentAlone(s + "\n", st);
  }

  lemma OneChunk(s: string)
    requires |s| < LINE_CAP && forall i :: 0 <= i < |s| ==> s[i] != '\n'
    ensures Chunks(s + "\n") == [s + "\n"]
  {
    var t := s + "\n";
    assert t + "" == t && [t] + [] == [t];
    ChunksOf(t, "");
  }

  lemma CarriageReturnEnds(c: string, rest: string)
    requires OneLine(c) && rest != "" && rest[0] != '\n'
    ensures Lines(c + "\r" + rest) == [c] + Lines(rest)
  {
    var s := c + "\r" + rest;
    LineLenUpTo(c, "\r" + rest);
    assert s == c + ("\r" + rest);
    assert s[..|c|] == c && s[|c|] == '\r' && s[|c| + 1] == rest[0] && s[|c| + 1..] == rest;
  }

  lemma {:induction false} LineLenUpTo(l: string, rest: string)
    requires OneLine(l) && rest != "" && Break(rest[0])
    ensures LineLen(l + rest) == |l|
  {
    if l != "" {
      assert (l + rest)[1..] == l[1..] + rest;
      LineLenUpTo(l[1..], rest);
    } else {
      assert l + rest == rest;
    }
  }

  /** A line with the kind alone stops the Java reader; the C program checks the line before it again. */
  lemma ShortLineParts(l: string, st: Buffers)
    requires Fields(l) == [KIND] && Plain(l) && NoNul(l) && OneLine(l)
    ensures ReadLine(l) == Malformed
    ensures RecordOf(st).Some? ==> Turn(st, l) == Some(Outcome(st.(kind := KIND), [RecordOf(st).value]))
  {
    TrimKeepsFields(l);
    WholeString(l);
    assert l[0] == '#' ==> Fields(l)[0][0] == '#';
    ScanIsFields(l, FIRST);
    ScanIsFields(l, HYBRID);
  }
}
