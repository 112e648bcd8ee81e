/**
 The line-based vector file: what the generator prints, how text falls into lines
 and fields, and how a parsed line is read. The central theorem is that reading
 the printed file gives the vectors back, exactly for the vectors that no field
 of the format swallows.
 */
module FlatKat {
  import opened Bytes

  // ---- Hex ----

  function Digit(k: nat): char
    requires k < 16
  {
    if k < 10 then (('0' as int) + k) as char else (('a' as int) + k - 10) as char
  }

  function HexDigit(c: char): Option<nat> {
    if '0' <= c <= '9' then Some((c as int) - ('0' as int))
    else if 'a' <= c <= 'f' then Some((c as int) - ('a' as int) + 10)
    else if 'A' <= c <= 'F' then Some((c as int) - ('A' as int) + 10)
    else None
  }

  function Hex(b: bytes): (h: string)
    ensures |h| == 2 * |b|
  {
    if b == [] then "" else [Digit(b[0] / 16), Digit(b[0] % 16)] + Hex(b[1..])
  }

  /** Two characters as Integer.parseInt reads them in base 16 and the cast to byte keeps them: a sign may lead. */
  function Pair(a: char, b: char): Option<byte> {
    match (HexDigit(a), HexDigit(b))
    case (Some(hi), Some(lo)) => Some(16 * hi + lo)
    case (None, Some(lo)) => if a == '-' then Some((256 - lo) % 256) else if a == '+' then Some(lo) else None
    case _ => None
  }

  /** Pairs of digits; an odd last character is not looked at. */
  function UnhexPairs(h: string): Option<bytes> {
    if |h| < 2 then Some([])
    else
      match (Pair(h[0], h[1]), UnhexPairs(h[2..]))
      case (Some(b), Some(rest)) => Some([b] + rest)
      case _ => None
  }

  /** "-" stands for the empty field. */
  function Unhex(h: string): Option<bytes> {
    if h == "-" then Some([]) else UnhexPairs(h)
  }

  predicate IsHex(h: string) {
    |h| % 2 == 0 && forall i :: 0 <= i < |h| ==> HexDigit(h[i]).Some?
  }

  lemma {:induction false} HexIsHex(b: bytes)
    ensures IsHex(Hex(b))
  {
    if b != [] {
      HexIsHex(b[1..]);
      var h := Hex(b);
      assert h[2..] == Hex(b[1..]);
      forall i | 0 <= i < |h| ensures HexDigit(h[i]).Some? {
        if i >= 2 {
          assert h[i] == Hex(b[1..])[i - 2];
        }
      }
    }
  }

  /** Printing bytes and reading them gives them back, and no printed field is the empty marker. */
  lemma {:induction false} HexRoundTrip(b: bytes)
    ensures UnhexPairs(Hex(b)) == Some(b) && Unhex(Hex(b)) == Some(b) && Hex(b) != "-"
  {
    assert |Hex(b)| != 1;
    if b != [] {
      HexRoundTrip(b[1..]);
      assert Hex(b)[2..] == Hex(b[1..]);
      assert b == [b[0]] + b[1..];
    }
  }

  lemma {:induction false} HexReads(h: string)
    requires IsHex(h)
    ensures UnhexPairs(h).Some? && |UnhexPairs(h).value| == |h| / 2 && h != "-"
  {
    if |h| >= 2 {
      assert forall i :: 0 <= i < |h[2..]| ==> h[2..][i] == h[i + 2];
      HexReads(h[2..]);
    }
  }

  /** Two lower-case digits a byte, the high one first. */
  lemma {:induction false} HexWritten(b: bytes, i: nat)
    requires i < |b|
    ensures Hex(b)[2 * i] == "0123456789abcdef"[b[i] / 16] && Hex(b)[2 * i + 1] == "0123456789abcdef"[b[i] % 16]
  {
    DigitWritten(b[i] / 16);
    DigitWritten(b[i] % 16);
    if i > 0 {
      HexWritten(b[1..], i - 1);
      assert Hex(b)[2..] == Hex(b[1..]);
      assert Hex(b)[2 * i] == Hex(b)[2..][2 * (i - 1)] && Hex(b)[2 * i + 1] == Hex(b)[2..][2 * (i - 1) + 1];
    }
  }

  lemma DigitWritten(k: nat)
    requires k < 16
    ensures Digit(k) == "0123456789abcdef"[k]
    ensures HexDigit("0123456789abcdef"[k]) == Some(k) && HexDigit("0123456789ABCDEF"[k]) == Some(k)
  {
  }

  lemma DigitRead(c: char)
    ensures HexDigit(c).Some? ==> HexDigit(c).value < 16
    ensures HexDigit(c).Some? ==> c == "0123456789abcdef"[HexDigit(c).value] || c == "0123456789ABCDEF"[HexDigit(c).value]
  {
  }

  /** What a pair denotes: two digits of either case, or a sign and a digit, taken modulo 256. */
  lemma PairExactly(a: char, b: char)
    ensures Pair(a, b).Some? <==> HexDigit(b).Some? && (HexDigit(a).Some? || a == '-' || a == '+')
    ensures HexDigit(a).Some? && HexDigit(b).Some? ==>
              Pair(a, b).value == 16 * HexDigit(a).value + HexDigit(b).value
    ensures a == '+' && HexDigit(b).Some? ==> Pair(a, b).value == HexDigit(b).value
    ensures a == '-' && HexDigit(b).Some? && HexDigit(b).value > 0 ==> Pair(a, b).value == 256 - HexDigit(b).value
  {
  }

  // ---- Words ----

  predicate Space(c: char) {
    c == ' ' || c == '\t' || c == '\n' || c == '\r' || c == '\U{000b}' || c == '\U{000c}'
  }

  predicate Solid(w: string) {
    forall i :: 0 <= i < |w| ==> !Space(w[i])
  }

  function SkipSpace(s: string): (t: string)
    ensures |t| <= |s|
    ensures t != "" ==> !Space(t[0])
  {
    if s != "" && Space(s[0]) then SkipSpace(s[1..]) else s
  }

  function WordLen(s: string): (n: nat)
    ensures n <= |s|
    ensures s != "" && !Space(s[0]) ==> n > 0
    ensures Solid(s[..n])
    ensures n < |s| ==> Space(s[n])
  {
    if s == "" || Space(s[0]) then 0 else 1 + WordLen(s[1..])
  }

  /** The maximal runs of non-space characters. */
  function Fields(s: string): seq<string>
    decreases |s|
  {
    var t := SkipSpace(s);
    if t == "" then [] else [t[..WordLen(t)]] + Fields(t[WordLen(t)..])
  }

  lemma {:induction false} FieldsAreSolid(s: string)
    ensures forall i :: 0 <= i < |Fields(s)| ==> Solid(Fields(s)[i]) && Fields(s)[i] != ""
    decreases |s|
  {
    var t := SkipSpace(s);
    if t != "" {
      FieldsAreSolid(t[WordLen(t)..]);
    }
  }

  lemma {:induction false} WordLenOf(w: string, rest: string)
    requires Solid(w) && (rest == "" || Space(rest[0]))
    ensures WordLen(w + rest) == |w|
  {
    if w != "" {
      assert (w + rest)[1..] == w[1..] + rest;
      WordLenOf(w[1..], rest);
    } else {
      assert w + rest == rest;
    }
  }

  lemma {:induction false} FieldsOfWord(w: string, rest: string)
    requires Solid(w) && w != "" && (rest == "" || Space(rest[0]))
    ensures Fields(w + rest) == [w] + Fields(rest)
  {
    WordLenOf(w, rest);
    assert SkipSpace(w + rest) == w + rest;
    assert (w + rest)[..|w|] == w && (w + rest)[|w|..] == rest;
  }

  lemma {:induction false} LastSpaceSplitsOff(l: string, c: char)
    requires Space(c)
    ensures Fields(l + [c]) == Fields(l)
    decreases |l|
  {
    if l == "" {
      assert [c][1..] == "";
      assert "" + [c] == [c];
      assert SkipSpace([c]) == SkipSpace("");
    } else if Space(l[0]) {
      assert (l + [c])[1..] == l[1..] + [c];
      LastSpaceSplitsOff(l[1..], c);
      assert SkipSpace(l) == SkipSpace(l[1..]);
      assert SkipSpace(l + [c]) == SkipSpace(l[1..] + [c]);
    } else {
      var n := WordLen(l);
      var w, rest := l[..n], l[n..];
      assert l == w + rest && l + [c] == w + (rest + [c]);
      FieldsOfWord(w, rest);
      FieldsOfWord(w, rest + [c]);
      LastSpaceSplitsOff(rest, c);
    }
  }

  predicate Blank(c: char) {
    c in " \t\n\r\U{000b}\U{000c}"
  }

  lemma BlankIsSpace(c: char)
    ensures Blank(c) <==> Space(c)
  {
    var six := " \t\n\r\U{000b}\U{000c}";
    assert six[0] == ' ' && six[1] == '\t' && six[2] == '\n' && six[3] == '\r' && six[4] == '\U{000b}' && six[5] == '\U{000c}';
  }

  lemma LastWord(c: char, b: string)
    requires Space(c) && Solid(b) && b != ""
    ensures Fields([c] + b) == [b]
  {
    assert ([c] + b)[1..] == b && b + "" == b;
    assert SkipSpace([c] + b) == b;
    FieldsOfWord(b, "");
  }

  /** Words are what stands between those six characters. */
  lemma FieldsBetweenBlanks(a: string, c: char, b: string)
    requires a != "" && b != "" && Blank(c)
    requires (forall i :: 0 <= i < |a| ==> !Blank(a[i])) && (forall i :: 0 <= i < |b| ==> !Blank(b[i]))
    ensures Fields(a + [c] + b) == [a, b]
  {
    BlankIsSpace(c);
    forall i | 0 <= i < |a| ensures !Space(a[i]) {
      BlankIsSpace(a[i]);
    }
    forall i | 0 <= i < |b| ensures !Space(b[i]) {
      BlankIsSpace(b[i]);
    }
    var tail := [c] + b;
    assert a + [c] + b == a + tail;
    FieldsOfWord(a, tail);
    LastWord(c, b);
  }

  // ---- Trimming ----

  /** String.trim strips every character up to the space, control characters included. */
  function TrimLeft(s: string): (t: string)
    ensures t == "" || t[0] > ' '
  {
    if s != "" && s[0] <= ' ' then TrimLeft(s[1..]) else s
  }

  function TrimRight(s: string): string {
    if s != "" && s[|s| - 1] <= ' ' then TrimRight(s[..|s| - 1]) else s
  }

  function Trim(s: string): (t: string)
    ensures t == "" || t[0] > ' '
  {
    TrimLeft(TrimRight(s))
  }

  lemma {:induction false} TrimLeftSplits(s: string) returns (x: string)
    ensures s == x + TrimLeft(s) && forall i :: 0 <= i < |x| ==> x[i] <= ' '
  {
    x := "";
    if s != "" && s[0] <= ' ' {
      x := TrimLeftSplits(s[1..]);
      assert s == [s[0]] + s[1..];
      x := [s[0]] + x;
    }
  }

  lemma {:induction false} TrimRightSplits(s: string) returns (y: string)
    ensures s == TrimRight(s) + y && forall i :: 0 <= i < |y| ==> y[i] <= ' '
    ensures TrimRight(s) == "" || TrimRight(s)[|TrimRight(s)| - 1] > ' '
  {
    y := "";
    if s != "" && s[|s| - 1] <= ' ' {
      y := TrimRightSplits(s[..|s| - 1]);
      assert s == s[..|s| - 1] + [s[|s| - 1]];
      y := y + [s[|s| - 1]];
    }
  }

  /** Trimming takes off both ends just what is not above the space. */
  lemma TrimExactly(s: string) returns (x: string, y: string)
    ensures s == x + Trim(s) + y
    ensures (forall i :: 0 <= i < |x| ==> x[i] <= ' ') && (forall i :: 0 <= i < |y| ==> y[i] <= ' ')
    ensures Trim(s) != "" ==> Trim(s)[0] > ' ' && Trim(s)[|Trim(s)| - 1] > ' '
  {
    y := TrimRightSplits(s);
    x := TrimLeftSplits(TrimRight(s));
  }

  /** What trim strips at the start is white space. */
  predicate PlainStart(s: string) {
    s == "" || s[0] > ' ' || (Space(s[0]) && PlainStart(s[1..]))
  }

  predicate PlainEnd(s: string) {
    s == "" || s[|s| - 1] > ' ' || (Space(s[|s| - 1]) && PlainEnd(s[..|s| - 1]))
  }

  predicate Plain(s: string) {
    PlainStart(s) && PlainEnd(s)
  }

  lemma {:induction false} TrimLeftKeepsFields(s: string)
    requires PlainStart(s)
    ensures Fields(TrimLeft(s)) == Fields(s)
  {
    if s != "" && s[0] <= ' ' {
      TrimLeftKeepsFields(s[1..]);
      assert SkipSpace(s) == SkipSpace(s[1..]);
    }
  }

  lemma {:induction false} PlainStartOfPrefix(s: string)
    requires s != "" && PlainStart(s)
    ensures PlainStart(s[..|s| - 1])
  {
    if |s| > 1 && s[0] <= ' ' {
      PlainStartOfPrefix(s[1..]);
      assert s[1..][..|s| - 2] == s[..|s| - 1][1..];
    }
  }

  lemma PlainWithoutLast(t: string, c: char)
    requires Plain(t + [c]) && c <= ' '
    ensures Plain(t) && Space(c) && TrimRight(t + [c]) == TrimRight(t)
  {
    PlainStartOfPrefix(t + [c]);
    assert (t + [c])[..|t|] == t && (t + [c])[|t|] == c;
  }

  lemma {:induction false} TrimRightKeepsFields(s: string)
    requires Plain(s)
    ensures Fields(TrimRight(s)) == Fields(s) && PlainStart(TrimRight(s))
  {
    if s != "" && s[|s| - 1] <= ' ' {
      var t, c := s[..|s| - 1], s[|s| - 1];
      assert s == t + [c];
      PlainWithoutLast(t, c);
      TrimRightKeepsFields(t);
      LastSpaceSplitsOff(t, c);
    }
  }

  /** On such a line trimming first makes no difference to the fields. */
  lemma TrimKeepsFields(s: string)
    requires Plain(s)
    ensures Fields(Trim(s)) == Fields(s)
  {
    TrimRightKeepsFields(s);
    TrimLeftKeepsFields(TrimRight(s));
  }

  /** join(' ') */
  function JoinSpaces(fs: seq<string>): string {
    if fs == [] then "" else if |fs| == 1 then fs[0] else fs[0] + " " + JoinSpaces(fs[1..])
  }

  function NonEmpty(fs: seq<string>): seq<string> {
    if fs == [] then [] else (if fs[0] == "" then [] else [fs[0]]) + NonEmpty(fs[1..])
  }

  /** Splitting undoes joining, except that empty pieces disappear. */
  lemma {:induction false} FieldsOfJoin(fs: seq<string>)
    requires forall i :: 0 <= i < |fs| ==> Solid(fs[i])
    ensures Fields(JoinSpaces(fs)) == NonEmpty(fs)
  {
    if |fs| == 1 {
      assert NonEmpty(fs[1..]) == [];
      if fs[0] != "" {
        FieldsOfWord(fs[0], "");
        assert fs[0] + "" == fs[0];
      }
    } else if |fs| > 1 {
      FieldsOfJoin(fs[1..]);
      var tail := " " + JoinSpaces(fs[1..]);
      assert tail[1..] == JoinSpaces(fs[1..]);
      assert Fields(tail) == Fields(JoinSpaces(fs[1..]));
      assert JoinSpaces(fs) == fs[0] + tail;
      if fs[0] != "" {
        FieldsOfWord(fs[0], tail);
      } else {
        assert "" + tail == tail;
      }
    }
  }

  // ---- Lines ----

  predicate Break(c: char) {
    c == '\n' || c == '\r'
  }

  predicate OneLine(l: string) {
    forall i :: 0 <= i < |l| ==> !Break(l[i])
  }

  function LineLen(s: string): (n: nat)
    ensures n <= |s|
  {
    if s == "" || Break(s[0]) then 0 else 1 + LineLen(s[1..])
  }

  /** Files.readAllLines: lines end at \n, \r or \r\n. */
  function Lines(s: string): seq<string>
    decreases |s|
  {
    if s == "" then []
    else
      var n := LineLen(s);
      if n == |s| then [s]
      else if s[n] == '\r' && n + 1 < |s| && s[n + 1] == '\n' then [s[..n]] + Lines(s[n + 2..])
      else [s[..n]] + Lines(s[n + 1..])
  }

  /** join('\n') + '\n' */
  function Text(ls: seq<string>): string {
    if ls == [] then "" else ls[0] + "\n" + Text(ls[1..])
  }

  lemma {:induction false} LineLenOf(l: string, rest: string)
    requires OneLine(l)
    ensures LineLen(l + "\n" + rest) == |l|
  {
    if l != "" {
      assert (l + "\n" + rest)[1..] == l[1..] + "\n" + rest;
      LineLenOf(l[1..], rest);
    }
  }

  lemma LinesOfCons(l: string, rest: string)
    requires OneLine(l)
    ensures Lines(l + "\n" + rest) == [l] + Lines(rest)
  {
    LineLenOf(l, rest);
    var s := l + "\n" + rest;
    assert s[..|l|] == l && s[|l|] == '\n' && s[|l| + 1..] == rest;
  }

  lemma {:induction false} LinesOfText(ls: seq<string>)
    requires forall i :: 0 <= i < |ls| ==> OneLine(ls[i])
    ensures Lines(Text(ls)) == ls
  {
    if ls != [] {
      LinesOfText(ls[1..]);
      LinesOfCons(ls[0], Text(ls[1..]));
    }
  }

  // ---- Vectors ----

  const KIND: string := "hybrid_v2"

  /** A vector as the generator reads it: the byte fields are hex already, except the chain-id. */
  datatype Vector = Vector(name: string, chain: bytes, b0Hex: string, authHex: string, signHex: string)

  datatype Parsed = Parsed(name: string, chain: bytes, b0: bytes, auth: bytes, sign: bytes)

  function Mark(h: string): string {
    if h == "" then "-" else h
  }

  function Pieces(v: Vector): seq<string> {
    [KIND, v.name, Hex(v.chain), Mark(v.b0Hex), Mark(v.authHex), v.signHex]
  }

  function LineOf(v: Vector): string {
    JoinSpaces(Pieces(v))
  }

  function LinesFor(vs: seq<Vector>): seq<string> {
    if vs == [] then [] else [LineOf(vs[0])] + LinesFor(vs[1..])
  }

  predicate Comment(c: string) {
    c != "" && c[0] == '#' && OneLine(c)
  }

  /** The printed file: a comment, then a line per vector. */
  function Print(header: string, vs: seq<Vector>): string {
    Text([header] + LinesFor(vs))
  }

  lemma {:induction false} TextAppend(ls: seq<string>, l: string)
    ensures Text(ls + [l]) == Text(ls) + l + "\n"
  {
    if ls == [] {
      assert [] + [l] == [l] && Text([l][1..]) == "";
      assert l + "\n" + "" == "" + l + "\n";
    } else {
      TextAppend(ls[1..], l);
      assert (ls + [l])[1..] == ls[1..] + [l];
      assert ls[0] + "\n" + (Text(ls[1..]) + l + "\n") == ls[0] + "\n" + Text(ls[1..]) + l + "\n";
    }
  }

  lemma {:induction false} LinesForAppend(vs: seq<Vector>, v: Vector)
    ensures LinesFor(vs + [v]) == LinesFor(vs) + [LineOf(v)]
  {
    if vs == [] {
      assert [] + [v] == [v];
      assert LinesFor([v][1..]) == [];
    } else {
      LinesForAppend(vs[1..], v);
      assert (vs + [v])[1..] == vs[1..] + [v];
    }
  }

  /** The file is the header's line, and then one line more for every vector. */
  lemma PrintWritten(header: string, vs: seq<Vector>, v: Vector)
    ensures Print(header, []) == header + "\n"
    ensures Print(header, vs + [v]) == Print(header, vs) + LineOf(v) + "\n"
  {
    assert [header] + [] == [header] && Text([header][1..]) == "";
    assert header + "\n" + "" == header + "\n";
    LinesForAppend(vs, v);
    TextAppend([header] + LinesFor(vs), LineOf(v));
    assert [header] + (LinesFor(vs) + [LineOf(v)]) == [header] + LinesFor(vs) + [LineOf(v)];
  }

  datatype LineResult = Skipped | Malformed | Record(p: Parsed)

  /** What a reader makes of the fields of a line. */
  function Interpret(f: seq<string>): LineResult {
    if f == [] || f[0] != KIND then Skipped
    else if |f| < 6 then Malformed
    else
      match (Unhex(f[2]), Unhex(f[3]), Unhex(f[4]), Unhex(f[5]))
      case (Some(chain), Some(b0), Some(auth), Some(sign)) => Record(Parsed(f[1], chain, b0, auth, sign))
      case _ => Malformed
  }

  /** The Java reader: comments are skipped, other lines trimmed and split at white space. */
  function ReadLine(line: string): LineResult {
    if line != "" && line[0] == '#' then Skipped else Interpret(Fields(Trim(line)))
  }

  /** All the records of the lines; none when a line is malformed, as the reader throws there. */
  function Records(ls: seq<string>): Option<seq<Parsed>> {
    if ls == [] then Some([])
    else
      match (ReadLine(ls[0]), Records(ls[1..]))
      case (Skipped, rs) => rs
      case (Record(p), Some(rs)) => Some([p] + rs)
      case _ => None
  }

  predicate HexFields(v: Vector) {
    IsHex(v.b0Hex) && IsHex(v.authHex) && IsHex(v.signHex)
  }

  function Decode(v: Vector): Parsed
    requires HexFields(v)
  {
    HexReads(v.b0Hex);
    HexReads(v.authHex);
    HexReads(v.signHex);
    Parsed(v.name, v.chain, UnhexPairs(v.b0Hex).value, UnhexPairs(v.authHex).value, UnhexPairs(v.signHex).value)
  }

  function DecodeAll(vs: seq<Vector>): (ps: seq<Parsed>)
    requires forall i :: 0 <= i < |vs| ==> HexFields(vs[i])
    ensures |ps| == |vs|
    ensures forall i :: 0 <= i < |vs| ==> ps[i] == Decode(vs[i])
  {
    if vs == [] then [] else [Decode(vs[0])] + DecodeAll(vs[1..])
  }

  /** A vector none of whose fields is empty on the line or broken by white space. */
  predicate Printable(v: Vector) {
    v.name != "" && Solid(v.name) && v.chain != [] && v.signHex != ""
  }

  lemma {:induction false} HexSolid(h: string)
    requires IsHex(h)
    ensures Solid(h)
  {
    forall i | 0 <= i < |h| ensures !Space(h[i]) {
      assert HexDigit(h[i]).Some?;
    }
  }

  lemma PiecesSolid(v: Vector)
    requires HexFields(v) && Solid(v.name)
    ensures forall i :: 0 <= i < |Pieces(v)| ==> Solid(Pieces(v)[i])
  {
    HexIsHex(v.chain);
    HexSolid(Hex(v.chain));
    HexSolid(v.b0Hex);
    HexSolid(v.authHex);
    HexSolid(v.signHex);
  }

  lemma NonEmptyOfSix(a: string, b: string, c: string, d: string, e: string, f: string)
    requires a != "" && d != "" && e != ""
    ensures b != "" && c != "" && f != "" ==> NonEmpty([a, b, c, d, e, f]) == [a, b, c, d, e, f]
    ensures !(b != "" && c != "" && f != "") ==> |NonEmpty([a, b, c, d, e, f])| < 6
    ensures NonEmpty([a, b, c, d, e, f])[..1] == [a]
  {
    assert NonEmpty([f]) == if f == "" then [] else [f];
    assert NonEmpty([e, f]) == [e] + NonEmpty([f]);
    assert NonEmpty([d, e, f]) == [d] + NonEmpty([e, f]);
    assert NonEmpty([c, d, e, f]) == (if c == "" then [] else [c]) + NonEmpty([d, e, f]);
    assert NonEmpty([b, c, d, e, f]) == (if b == "" then [] else [b]) + NonEmpty([c, d, e, f]);
    assert NonEmpty([a, b, c, d, e, f]) == [a] + NonEmpty([b, c, d, e, f]);
  }

  lemma {:induction false} JoinLast(fs: seq<string>, w: string)
    requires fs != []
    ensures JoinSpaces(fs + [w]) == JoinSpaces(fs) + " " + w
  {
    if |fs| == 1 {
      assert (fs + [w])[1..] == [w];
    } else {
      JoinLast(fs[1..], w);
      assert (fs + [w])[1..] == fs[1..] + [w];
      var tail := JoinSpaces(fs[1..]);
      assert fs[0] + " " + (tail + " " + w) == fs[0] + " " + tail + " " + w;
    }
  }

  predicate Visible(w: string) {
    w != "" && w[|w| - 1] > ' '
  }

  lemma EndsPlainly(s: string, w: string, x: string)
    requires Visible(w) && (x == "" || Visible(x))
    ensures PlainEnd(s + w + " " + x)
  {
    var t := s + w + " ";
    if x == "" {
      assert t + x == t;
      assert t[..|t| - 1] == s + w;
      assert (s + w)[|s + w| - 1] == w[|w| - 1];
    } else {
      assert (t + x)[|t + x| - 1] == x[|x| - 1];
    }
  }

  lemma HexVisible(h: string)
    requires IsHex(h) && h != ""
    ensures Visible(h)
  {
    assert HexDigit(h[|h| - 1]).Some?;
  }

  /** A printed line has nothing but white space for trim to strip. */
  lemma PrintedLineIsPlain(v: Vector)
    requires HexFields(v)
    ensures LineOf(v) != "" && LineOf(v)[0] == 'h'
    ensures Plain(LineOf(v))
  {
    var head := [KIND, v.name, Hex(v.chain), Mark(v.b0Hex)];
    assert Pieces(v) == head + [Mark(v.authHex)] + [v.signHex];
    JoinLast(head, Mark(v.authHex));
    JoinLast(head + [Mark(v.authHex)], v.signHex);
    if v.authHex != "" {
      HexVisible(v.authHex);
    }
    if v.signHex != "" {
      HexVisible(v.signHex);
    }
    EndsPlainly(JoinSpaces(head) + " ", Mark(v.authHex), v.signHex);
    assert LineOf(v)[0] == KIND[0];
  }

  lemma StaysInFront(start: string, n: string, c: string, b: string, a: string, w: string)
    ensures start <= start + n + " " + c + " " + b + " " + a + " " + w
  {
  }

  /** The line, written out. */
  lemma LineWritten(v: Vector)
    ensures LineOf(v) ==
      "hybrid_v2 " + v.name + " " + Hex(v.chain) + " " + (if v.b0Hex == "" then "-" else v.b0Hex)
      + " " + (if v.authHex == "" then "-" else v.authHex) + " " + v.signHex
    ensures LineOf(v)[..10] == "hybrid_v2 "
  {
    var p, n, c, b, a := [KIND], v.name, Hex(v.chain), Mark(v.b0Hex), Mark(v.authHex);
    JoinLast(p, n);
    JoinLast(p + [n], c);
    JoinLast(p + [n] + [c], b);
    JoinLast(p + [n] + [c] + [b], a);
    JoinLast(p + [n] + [c] + [b] + [a], v.signHex);
    assert Pieces(v) == p + [n] + [c] + [b] + [a] + [v.signHex];
    var start := KIND + " ";
    assert start == "hybrid_v2 ";
    assert LineOf(v) == start + n + " " + c + " " + b + " " + a + " " + v.signHex;
    StaysInFront(start, n, c, b, a, v.signHex);
  }

  /** A line with a solid name is read back whole, or found malformed. */
  lemma ReadPrintedLine(v: Vector)
    requires HexFields(v) && Solid(v.name)
    ensures ReadLine(LineOf(v)) == if Printable(v) then Record(Decode(v)) else Malformed
  {
    PiecesSolid(v);
    FieldsOfJoin(Pieces(v));
    NonEmptyOfSix(KIND, v.name, Hex(v.chain), Mark(v.b0Hex), Mark(v.authHex), v.signHex);
    PrintedLineIsPlain(v);
    TrimKeepsFields(LineOf(v));
    HexRoundTrip(v.chain);
    HexReads(v.b0Hex);
    HexReads(v.authHex);
    HexReads(v.signHex);
  }

  /** A field as it stands in the file. */
  function Shown(b: bytes): string {
    if b == [] then "-" else Hex(b)
  }

  lemma HexNonEmpty(b: bytes)
    requires b != []
    ensures Hex(b) != ""
  {
  }

  /** Any bytes, put behind the literal kind, are read as the record of just them. */
  lemma LineReads(name: string, chain: bytes, b0: bytes, auth: bytes, sign: bytes)
    requires name != "" && Solid(name) && chain != [] && sign != []
    ensures ReadLine("hybrid_v2 " + name + " " + Hex(chain) + " " + Shown(b0) + " " + Shown(auth) + " " + Hex(sign))
         == Record(Parsed(name, chain, b0, auth, sign))
  {
    var v := Vector(name, chain, Hex(b0), Hex(auth), Hex(sign));
    HexIsHex(b0);
    HexIsHex(auth);
    HexIsHex(sign);
    HexNonEmpty(sign);
    LineWritten(v);
    ReadPrintedLine(v);
    HexRoundTrip(b0);
    HexRoundTrip(auth);
    HexRoundTrip(sign);
  }

  /** A line whose first word is another is skipped. */
  lemma OtherKindsSkipped(line: string)
    requires Fields(Trim(line)) != [] && Fields(Trim(line))[0] != "hybrid_v2"
    ensures ReadLine(line) == Skipped
  {
  }

  lemma {:induction false} JoinOneLine(fs: seq<string>)
    requires forall i :: 0 <= i < |fs| ==> Solid(fs[i])
    ensures OneLine(JoinSpaces(fs))
  {
    if |fs| > 1 {
      JoinOneLine(fs[1..]);
    }
  }

  lemma {:induction false} LinesForOneLine(vs: seq<Vector>)
    requires forall i :: 0 <= i < |vs| ==> HexFields(vs[i]) && Solid(vs[i].name)
    ensures forall i :: 0 <= i < |LinesFor(vs)| ==> OneLine(LinesFor(vs)[i])
  {
    if vs != [] {
      PiecesSolid(vs[0]);
      JoinOneLine(Pieces(vs[0]));
      LinesForOneLine(vs[1..]);
    }
  }

  lemma RecordsCons(l: string, ls: seq<string>)
    ensures Records([l] + ls) ==
      match (ReadLine(l), Records(ls))
      case (Skipped, rs) => rs
      case (Record(p), Some(rs)) => Some([p] + rs)
      case _ => None
  {
    assert ([l] + ls)[1..] == ls;
  }

  lemma {:induction false} RecordsOfLinesFor(vs: seq<Vector>)
    requires forall i :: 0 <= i < |vs| ==> HexFields(vs[i]) && Solid(vs[i].name)
    ensures (forall i :: 0 <= i < |vs| ==> Printable(vs[i])) ==> Records(LinesFor(vs)) == Some(DecodeAll(vs))
    ensures (exists i :: 0 <= i < |vs| && !Printable(vs[i])) ==> Records(LinesFor(vs)) == None
  {
    if vs != [] {
      var v, rest := vs[0], vs[1..];
      ReadPrintedLine(v);
      RecordsOfLinesFor(rest);
      RecordsCons(LineOf(v), LinesFor(rest));
      assert forall i :: 0 < i < |vs| ==> vs[i] == rest[i - 1];
    }
  }

  lemma HeaderSkipped(header: string, ls: seq<string>)
    requires Comment(header)
    ensures Records([header] + ls) == Records(ls)
  {
    assert ([header] + ls)[1..] == ls;
  }

  lemma {:induction false} ReadPrintedFile(header: string, vs: seq<Vector>)
    requires Comment(header)
    requires forall i :: 0 <= i < |vs| ==> HexFields(vs[i]) && Solid(vs[i].name)
    ensures Lines(Print(header, vs)) == [header] + LinesFor(vs)
    ensures Records(Lines(Print(header, vs))) == Records(LinesFor(vs))
  {
    LinesForOneLine(vs);
    HeaderSkipped(header, LinesFor(vs));
    var ls := [header] + LinesFor(vs);
    forall i | 0 <= i < |ls| ensures OneLine(ls[i]) {
      if i > 0 {
        assert ls[i] == LinesFor(vs)[i - 1];
      }
    }
    LinesOfText(ls);
  }

  lemma {:induction false} RecordNamesAreSolid(ls: seq<string>)
    ensures Records(ls).Some? ==> forall i :: 0 <= i < |Records(ls).value| ==> Solid(Records(ls).value[i].name)
  {
    if ls != [] {
      RecordNamesAreSolid(ls[1..]);
      FieldsAreSolid(Trim(ls[0]));
    }
  }

  /** The file gives the vectors back, in order, exactly when every vector is printable. */
  lemma {:induction false} RoundTripExactly(header: string, vs: seq<Vector>)
    requires Comment(header)
    requires forall i :: 0 <= i < |vs| ==> HexFields(vs[i])
    ensures Records(Lines(Print(header, vs))) == Some(DecodeAll(vs)) <==> forall i :: 0 <= i < |vs| ==> Printable(vs[i])
  {
    if forall i :: 0 <= i < |vs| ==> Solid(vs[i].name) {
      ReadPrintedFile(header, vs);
      RecordsOfLinesFor(vs);
    } else {
      var i :| 0 <= i < |vs| && !Solid(vs[i].name);
      RecordNamesAreSolid(Lines(Print(header, vs)));
      assert DecodeAll(vs)[i].name == vs[i].name;
    }
  }

  /** A comment may stand anywhere. */
  lemma {:induction false} CommentsSkipped(before: seq<string>, c: string, after: seq<string>)
    requires c != "" && c[0] == '#'
    ensures Records(before + [c] + after) == Records(before + after)
  {
    if before == [] {
      assert [] + [c] + after == [c] + after && [] + after == after;
    } else {
      CommentsSkipped(before[1..], c, after);
      assert (before + [c] + after)[1..] == before[1..] + [c] + after;
      assert (before + after)[1..] == before[1..] + after;
    }
  }
}
