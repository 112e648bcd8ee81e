/**
 The C reader of the flat vector file, which scans lines into fixed-size static
 buffers, and how far it reads what the Java reader reads. Where the C program
 would use an unset variable, or a length that a buffer cannot have, its
 behaviour is undefined and the functions here give `None`.
 */
module FlatKatC {
  import opened Bytes
  import opened FlatKat

  function Min(a: nat, b: nat): nat {
    if a < b then a else b
  }

  /** A string ends at its first NUL. */
  function CString(s: string): string {
    if s == "" || s[0] == '\0' then "" else [s[0]] + CString(s[1..])
  }

  predicate NoNul(s: string) {
    forall i :: 0 <= i < |s| ==> s[i] != '\0'
  }

  lemma {:induction false} WholeString(s: string)
    requires NoNul(s)
    ensures CString(s) == s
  {
    if s != "" {
      WholeString(s[1..]);
    }
  }

  /** What is behind a NUL does not exist for the scan. */
  lemma {:induction false} NulEnds(s: string, rest: string)
    requires NoNul(s)
    ensures CString(s + "\0" + rest) == s
  {
    if s != "" {
      assert (s + "\0" + rest)[1..] == s[1..] + "\0" + rest;
      NulEnds(s[1..], rest);
    }
  }

  // ---- sscanf ----

  /** One %<width>s per width: the conversions that succeed. */
  function Scan(line: string, widths: seq<nat>): (fs: seq<string>)
    ensures |fs| <= |widths|
    decreases |widths|
  {
    if widths == [] then []
    else
      var t := SkipSpace(line);
      if t == "" then []
      else
        var n := Min(WordLen(t), widths[0]);
        [t[..n]] + Scan(t[n..], widths[1..])
  }

  ghost predicate Fit(fs: seq<string>, widths: seq<nat>) {
    forall i :: 0 <= i < |fs| && i < |widths| ==> |fs[i]| <= widths[i]
  }

  /** Scanning finds the fields, as long as each fits its width. */
  lemma {:induction false} ScanIsFields(line: string, widths: seq<nat>)
    requires Fit(Fields(line), widths)
    ensures Scan(line, widths) == Fields(line)[..Min(|Fields(line)|, |widths|)]
    decreases |widths|
  {
    var t, fs := SkipSpace(line), Fields(line);
    if widths != [] && t != "" {
      assert |fs[0]| <= widths[0];
      forall i | 0 <= i < |fs[1..]| && i < |widths[1..]| ensures |fs[1..][i]| <= widths[1..][i] {
        assert |fs[i + 1]| <= widths[i + 1];
      }
      ScanIsFields(t[WordLen(t)..], widths[1..]);
    }
  }

  const FIRST: seq<nat> := [15]
  const HYBRID: seq<nat> := [15, 63, 511, 19999, 19999, 19999]
  const MLDSA: seq<nat> := [15, 31, 19999, 19999, 19999, 19999]
  const MLKEM: seq<nat> := [15, 31, 19999, 19999, 19999]
  const SHAKE: seq<nat> := [15, 19999, 19999, 19999]

  lemma WidthsWritten()
    ensures FIRST == [15]
    ensures HYBRID == [15, 63, 511, 19999, 19999, 19999]
    ensures MLDSA == [15, 31, 19999, 19999, 19999, 19999] && MLKEM == [15, 31, 19999, 19999, 19999]
    ensures SHAKE == [15, 19999, 19999, 19999]
  {
  }

  /** The first conversion alone tells the kind of a line, even cut off. */
  lemma ScanKind(line: string)
    ensures Scan(line, FIRST) == [] <==> Fields(line) == []
    ensures Fields(line) != [] ==> (Scan(line, FIRST)[0] == KIND <==> Fields(line)[0] == KIND)
  {
  }

  /** %2x: a sign, or one digit before something else, will do; not a lone 0x. */
  function ScanByte(a: char, b: char): Option<byte> {
    if Pair(a, b).Some? then Pair(a, b)
    else if a == '0' && (b == 'x' || b == 'X') then None
    else match HexDigit(a) case Some(d) => Some(d) case None => None
  }

  /** Wherever the Java pair is a number it is that; one digit before something else counts alone. */
  lemma ScanByteExactly(a: char, b: char)
    ensures Pair(a, b).Some? ==> ScanByte(a, b) == Pair(a, b)
    ensures HexDigit(a).Some? && HexDigit(b).None? ==>
              if a == '0' && (b == 'x' || b == 'X') then ScanByte(a, b).None?
              else ScanByte(a, b).Some? && ScanByte(a, b).value == HexDigit(a).value
    ensures HexDigit(a).None? && Pair(a, b).None? ==> ScanByte(a, b).None?
  {
  }

  function ScanBytes(h: string): Option<bytes> {
    if |h| < 2 then Some([])
    else
      match (ScanByte(h[0], h[1]), ScanBytes(h[2..]))
      case (Some(b), Some(rest)) => Some([b] + rest)
      case _ => None
  }

  /** What unhex leaves in a buffer of that size. */
  function Unhexed(h: string, cap: nat): Option<bytes> {
    if h == "-" then Some([]) else if |h| / 2 > cap then None else ScanBytes(h)
  }

  lemma {:induction false} ScanBytesReads(h: string)
    requires UnhexPairs(h).Some?
    ensures ScanBytes(h) == UnhexPairs(h)
  {
    if |h| >= 2 {
      ScanBytesReads(h[2..]);
    }
  }

  lemma {:induction false} ScanBytesAt(h: string, i: nat)
    requires 2 * i + 2 <= |h|
    ensures ScanBytes(h).Some? ==>
      && |ScanBytes(h).value| == |h| / 2
      && ScanByte(h[2 * i], h[2 * i + 1]) == Some(ScanBytes(h).value[i])
  {
    if i > 0 {
      ScanBytesAt(h[2..], i - 1);
    } else if |h| >= 4 {
      ScanBytesAt(h[2..], 0);
    }
  }

  lemma {:induction false} ScanBytesSome(h: string)
    requires forall i :: 0 <= i < |h| / 2 ==> ScanByte(h[2 * i], h[2 * i + 1]).Some?
    ensures ScanBytes(h).Some? && |ScanBytes(h).value| == |h| / 2
  {
    if |h| >= 2 {
      assert ScanByte(h[2 * 0], h[2 * 0 + 1]).Some?;
      forall i | 0 <= i < |h[2..]| / 2 ensures ScanByte(h[2..][2 * i], h[2..][2 * i + 1]).Some? {
        assert h[2..][2 * i] == h[2 * (i + 1)] && h[2..][2 * i + 1] == h[2 * (i + 1) + 1];
      }
      ScanBytesSome(h[2..]);
    }
  }

  // ---- A turn of the loop ----

  /** The static buffers; what a line does not overwrite stays from earlier lines. */
  datatype Buffers = Buffers(kind: string, name: string, hcid: string, h1: string, h2: string, h3: string)

  /** The buffers after a line, or some lines, and the hybrid_v2 records met. */
  datatype Outcome = Outcome(st: Buffers, rs: seq<Parsed>)

  function Overwrite(left: string, fs: seq<string>, i: nat): string {
    if i < |fs| then fs[i] else left
  }

  /** h1, h2 and h3 from the conversions that start at `i`. */
  function Overwrite3(st: Buffers, fs: seq<string>, i: nat): Buffers {
    st.(h1 := Overwrite(st.h1, fs, i), h2 := Overwrite(st.h2, fs, i + 1), h3 := Overwrite(st.h3, fs, i + 2))
  }

  function OverwriteAll(st: Buffers, fs: seq<string>): Buffers {
    Overwrite3(st.(name := Overwrite(st.name, fs, 1), hcid := Overwrite(st.hcid, fs, 2)), fs, 3)
  }

  function RecordOf(st: Buffers): Option<Parsed> {
    match (Unhexed(st.hcid, 256), Unhexed(st.h1, 8192), Unhexed(st.h2, 8192), Unhexed(st.h3, 16384))
    case (Some(chain), Some(b0), Some(auth), Some(sign)) => Some(Parsed(st.name, chain, b0, auth, sign))
    case _ => None
  }

  /** The branch on the kind, which is in place already. */
  function Branch(st: Buffers, s: string): Option<Outcome> {
    if st.kind == "mldsa" then Some(Outcome(Overwrite3(st, Scan(s, MLDSA), 2), []))
    else if st.kind == "mlkem" then Some(Outcome(Overwrite3(st, Scan(s, MLKEM), 2), []))
    else if st.kind == KIND then
      var st' := OverwriteAll(st, Scan(s, HYBRID));
      match RecordOf(st')
      case Some(p) => Some(Outcome(st', [p]))
      case None => None
    else if st.kind == "shake" then Some(Outcome(Overwrite3(st, Scan(s, SHAKE), 1), []))
    else Some(Outcome(st, []))
  }

  function Turn(st: Buffers, line: string): Option<Outcome> {
    if line != "" && (line[0] == '\n' || line[0] == '#') then Some(Outcome(st, []))
    else
      var first := Scan(CString(line), FIRST);
      if first == [] then Some(Outcome(st, []))
      else Branch(st.(kind := first[0]), CString(line))
  }

  /** The buffers after some more lines, behind the records already met. */
  function Behind(rs: seq<Parsed>, o: Option<Outcome>): Option<Outcome> {
    match o
    case Some(u) => Some(Outcome(u.st, rs + u.rs))
    case None => None
  }

  function Loop(st: Buffers, lines: seq<string>): Option<Outcome>
    decreases |lines|
  {
    if lines == [] then Some(Outcome(st, []))
    else
      match Turn(st, lines[0])
      case Some(t) => Behind(t.rs, Loop(t.st, lines[1..]))
      case None => None
  }

  // ---- fgets ----

  /** sizeof line, less the terminator. */
  const LINE_CAP: nat := 39999

  /** How much fgets takes: up to and including the newline, or a buffer full. */
  function Fgets(s: string, cap: nat): (n: nat)
    ensures n <= |s|
    ensures s != "" && cap > 0 ==> n > 0
    decreases cap
  {
    if s == "" || cap == 0 then 0 else if s[0] == '\n' then 1 else 1 + Fgets(s[1..], cap - 1)
  }

  /** What the loop gets to see; a long line comes in pieces. */
  function Chunks(text: string): seq<string> {
    if text == "" then [] else [text[..Fgets(text, LINE_CAP)]] + Chunks(text[Fgets(text, LINE_CAP)..])
  }

  class Reader {
    var kind: string
    var name: string
    var hcid: string
    var h1: string
    var h2: string
    var h3: string
    const cid: array<byte>
    const a: array<byte>
    const b: array<byte>
    const c: array<byte>

    ghost predicate Valid()
      reads this
    {
      && cid.Length == 256 && a.Length == 8192 && b.Length == 8192 && c.Length == 16384
      && cid != a && cid != b && cid != c && a != b && a != c && b != c
    }

    ghost function State(): Buffers
      reads this
    {
      Buffers(kind, name, hcid, h1, h2, h3)
    }

    constructor ()
      ensures Valid() && fresh(cid) && fresh(a) && fresh(b) && fresh(c)
      ensures State() == Buffers("", "", "", "", "", "")
    {
      kind, name, hcid, h1, h2, h3 := "", "", "", "", "", "";
      cid := new byte[256];
      a := new byte[8192];
      b := new byte[8192];
      c := new byte[16384];
    }

    /** unhex: the length, or -1 (as size_t) when the buffer is too small; `None` when a scan sets nothing. */
    static method Unhex(h: string, o: array<byte>) returns (n: Option<int>)
      modifies o
      ensures n == Some(-1) <==> h != "-" && |h| / 2 > o.Length
      ensures n == None <==> h != "-" && |h| / 2 <= o.Length && ScanBytes(h) == None
      ensures n.Some? && n.value != -1 ==> 0 <= n.value <= o.Length && Unhexed(h, o.Length) == Some(o[..n.value])
    {
      if h == "-" {
        assert o[..0] == [];
        return Some(0);
      }
      var len := |h| / 2;
      if len > o.Length {
        return Some(-1);
      }
      for i := 0 to len
        invariant forall j :: 0 <= j < i ==> ScanByte(h[2 * j], h[2 * j + 1]) == Some(o[j])
      {
        ScanBytesAt(h, i);
        var v := ScanByte(h[2 * i], h[2 * i + 1]);
        if v.None? {
          return None;
        }
        o[i] := v.value;
      }
      ScanBytesSome(h);
      forall i | 0 <= i < len ensures o[i] == ScanBytes(h).value[i] {
        ScanBytesAt(h, i);
      }
      assert o[..len] == ScanBytes(h).value;
      n := Some(len);
    }

    /** Four unhex calls into four buffers. */
    method Decode() returns (r: Option<Parsed>)
      requires Valid()
      modifies cid, a, b, c
      ensures r == RecordOf(State())
    {
      var cl := Reader.Unhex(hcid, cid);
      var bl := Reader.Unhex(h1, a);
      var al := Reader.Unhex(h2, b);
      var wl := Reader.Unhex(h3, c);
      if cl.None? || bl.None? || al.None? || wl.None? {
        return None;
      }
      if cl.value == -1 || bl.value == -1 || al.value == -1 || wl.value == -1 {
        return None;
      }
      r := Some(Parsed(name, cid[..cl.value], a[..bl.value], b[..al.value], c[..wl.value]));
    }

    /** Three conversions into h1, h2 and h3; one that fails leaves its buffer. */
    method Assign3(fs: seq<string>, i: nat)
      modifies this`h1, this`h2, this`h3
      ensures State() == Overwrite3(old(State()), fs, i)
    {
      if i < |fs| { h1 := fs[i]; }
      if i + 1 < |fs| { h2 := fs[i + 1]; }
      if i + 2 < |fs| { h3 := fs[i + 2]; }
    }

    method AssignAll(fs: seq<string>)
      modifies this`name, this`hcid, this`h1, this`h2, this`h3
      ensures State() == OverwriteAll(old(State()), fs)
    {
      if 1 < |fs| { name := fs[1]; }
      if 2 < |fs| { hcid := fs[2]; }
      Assign3(fs, 3);
    }

    /** The hybrid_v2 branch. */
    method Check(s: string) returns (r: Option<Parsed>)
      requires Valid()
      modifies this, cid, a, b, c
      ensures Valid()
      ensures State() == OverwriteAll(old(State()), Scan(s, HYBRID)) && r == RecordOf(State())
    {
      var fs := Scan(s, HYBRID);
      AssignAll(fs);
      r := Decode();
    }

    /** One turn of the loop: the records the line makes it check. */
    method ReadLine(line: string) returns (rs: Option<seq<Parsed>>)
      requires Valid()
      modifies this, cid, a, b, c
      ensures Valid()
      ensures Turn(old(State()), line) == if rs.Some? then Some(Outcome(State(), rs.value)) else None
    {
      if line != "" && (line[0] == '\n' || line[0] == '#') {
        return Some([]);
      }
      var s := CString(line);
      var first := Scan(s, FIRST);
      if |first| < 1 {
        return Some([]);
      }
      kind := first[0];
      rs := Some([]);
      if kind == "mldsa" {
        var fs := Scan(s, MLDSA);
        Assign3(fs, 2);
      } else if kind == "mlkem" {
        var fs := Scan(s, MLKEM);
        Assign3(fs, 2);
      } else if kind == KIND {
        var r := Check(s);
        rs := match r case Some(p) => Some([p]) case None => None;
      } else if kind == "shake" {
        var fs := Scan(s, SHAKE);
        Assign3(fs, 1);
      }
    }

    /** The whole file: fgets a line, read it. */
    method ReadFile(text: string) returns (rs: Option<seq<Parsed>>)
      requires Valid()
      modifies this, cid, a, b, c
      ensures Valid()
      ensures Loop(old(State()), Chunks(text)) == if rs.Some? then Some(Outcome(State(), rs.value)) else None
    {
      var rest, met := text, [];
      BehindNothing(Loop(State(), Chunks(text)));
      while rest != ""
        invariant Valid()
        invariant Loop(old(State()), Chunks(text)) == Behind(met, Loop(State(), Chunks(rest)))
        decreases |rest|
      {
        var n := Fgets(rest, LINE_CAP);
        var line := rest[..n];
        rest := rest[n..];
        var r := ReadLine(line);
        if r.None? {
          return None;
        }
        BehindTwice(met, r.value, Loop(State(), Chunks(rest)));
        met := met + r.value;
      }
      assert met + [] == met;
      rs := Some(met);
    }
  }

  lemma BehindNothing(o: Option<Outcome>)
    ensures Behind([], o) == o
  {
    if o.Some? {
      assert [] + o.value.rs == o.value.rs;
    }
  }

  lemma BehindTwice(a: seq<Parsed>, b: seq<Parsed>, o: Option<Outcome>)
    ensures Behind(a, Behind(b, o)) == Behind(a + b, o)
  {
    if o.Some? {
      Assoc(a, b, o.value.rs);
    }
  }
}
