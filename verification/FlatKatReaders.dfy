/**
 The generator loop of the flat vector file and its Java reader, which splits
 trimmed lines at white space.
 */
module FlatKatReaders {
  import opened Bytes
  import opened FlatKat

  // ---- scripts/gen-signbytes-kat-flat.mjs ----

  function JoinLines(ls: seq<string>): string {
    if ls == [] then "" else if |ls| == 1 then ls[0] else ls[0] + "\n" + JoinLines(ls[1..])
  }

  lemma {:induction false} JoinLinesIsText(ls: seq<string>)
    requires ls != []
    ensures JoinLines(ls) + "\n" == Text(ls)
  {
    if |ls| == 1 {
      assert Text(ls[1..]) == "";
      assert ls[0] + "\n" + "" == ls[0] + "\n";
    } else {
      JoinLinesIsText(ls[1..]);
      assert ls[0] + "\n" + JoinLines(ls[1..]) + "\n" == ls[0] + "\n" + (JoinLines(ls[1..]) + "\n");
    }
  }

  /** The generator: push the lines, join them, end the last one. */
  method Generate(header: string, vs: seq<Vector>) returns (text: string)
    requires forall i :: 0 <= i < |vs| ==> HexFields(vs[i])
    requires Comment(header)
    ensures text == Print(header, vs)
    ensures Records(Lines(text)) == Some(DecodeAll(vs)) <==> forall i :: 0 <= i < |vs| ==> Printable(vs[i])
  {
    var lines := [header];
    for i := 0 to |vs|
      invariant lines == [header] + LinesFor(vs[..i])
    {
      LinesForAppend(vs[..i], vs[i]);
      assert vs[..i + 1] == vs[..i] + [vs[i]];
      lines := lines + [JoinSpaces([KIND, vs[i].name, Hex(vs[i].chain), Mark(vs[i].b0Hex), Mark(vs[i].authHex), vs[i].signHex])];
    }
    assert vs[..|vs|] == vs;
    JoinLinesIsText(lines);
    text := JoinLines(lines) + "\n";
    RoundTripExactly(header, vs);
  }

  // ---- SignBytesTest.java ----

  lemma {:induction false} UnhexPairsAt(h: string, i: nat)
    requires 2 * i + 2 <= |h|
    ensures UnhexPairs(h).Some? ==>
      && |UnhexPairs(h).value| == |h| / 2
      && Pair(h[2 * i], h[2 * i + 1]) == Some(UnhexPairs(h).value[i])
  {
    if i > 0 {
      UnhexPairsAt(h[2..], i - 1);
    } else if |h| >= 4 {
      UnhexPairsAt(h[2..], 0);
    }
  }

  lemma {:induction false} UnhexPairsSome(h: string)
    requires forall i :: 0 <= i < |h| / 2 ==> Pair(h[2 * i], h[2 * i + 1]).Some?
    ensures UnhexPairs(h).Some? && |UnhexPairs(h).value| == |h| / 2
  {
    if |h| >= 2 {
      assert Pair(h[2 * 0], h[2 * 0 + 1]).Some?;
      forall i | 0 <= i < |h[2..]| / 2 ensures Pair(h[2..][2 * i], h[2..][2 * i + 1]).Some? {
        assert h[2..][2 * i] == h[2 * (i + 1)] && h[2..][2 * i + 1] == h[2 * (i + 1) + 1];
      }
      UnhexPairsSome(h[2..]);
    }
  }

  /** hex: `None` is the NumberFormatException. */
  method JavaHex(h: string) returns (out: Option<bytes>)
    ensures out == Unhex(h)
  {
    if h == "-" {
      return Some([]);
    }
    var a := new byte[|h| / 2];
    for i := 0 to a.Length
      invariant forall j :: 0 <= j < i ==> Pair(h[2 * j], h[2 * j + 1]) == Some(a[j])
    {
      UnhexPairsAt(h, i);
      var v := Pair(h[2 * i], h[2 * i + 1]);
      if v.None? {
        return None;
      }
      a[i] := v.value;
    }
    UnhexPairsSome(h);
    forall i | 0 <= i < a.Length ensures a[i] == UnhexPairs(h).value[i] {
      UnhexPairsAt(h, i);
    }
    assert a[..] == UnhexPairs(h).value;
    out := Some(a[..]);
  }

  function Then(rs: Option<seq<Parsed>>, r: LineResult): Option<seq<Parsed>> {
    match (rs, r)
    case (Some(ps), Skipped) => Some(ps)
    case (Some(ps), Record(p)) => Some(ps + [p])
    case _ => None
  }

  lemma {:induction false} RecordsAppend(ls: seq<string>, l: string)
    ensures Records(ls + [l]) == Then(Records(ls), ReadLine(l))
  {
    var r := ReadLine(l);
    if ls == [] {
      assert [] + [l] == [l] && [l][1..] == [];
      if r.Record? {
        assert [r.p] + [] == [] + [r.p];
      }
    } else {
      RecordsAppend(ls[1..], l);
      assert (ls + [l])[1..] == ls[1..] + [l];
      var q, rs := ReadLine(ls[0]), Records(ls[1..]);
      if q.Record? && rs.Some? && r.Record? {
        Assoc([q.p], rs.value, [r.p]);
      }
    }
  }

  lemma {:induction false} RecordsPrefix(ls: seq<string>, i: nat)
    requires i <= |ls| && Records(ls[..i]) == None
    ensures Records(ls) == None
    decreases |ls| - i
  {
    if i < |ls| {
      RecordsAppend(ls[..i], ls[i]);
      assert ls[..i + 1] == ls[..i] + [ls[i]];
      RecordsPrefix(ls, i + 1);
    } else {
      assert ls[..i] == ls;
    }
  }

  /** hybridV2Kat: the records it checks, one by one; `None` when a line makes it throw. */
  method JavaRead(text: string) returns (out: Option<seq<Parsed>>)
    ensures out == Records(Lines(text))
  {
    var lines := Lines(text);
    var rs: seq<Parsed> := [];
    for i := 0 to |lines|
      invariant Records(lines[..i]) == Some(rs)
    {
      var line := lines[i];
      RecordsAppend(lines[..i], line);
      assert lines[..i + 1] == lines[..i] + [line];
      var t := Trim(line);
      if t == "" || line[0] == '#' {
        continue;
      }
      var f := Fields(t);
      if f[0] != KIND {
        continue;
      }
      if |f| < 6 {
        RecordsPrefix(lines, i + 1);
        return None;
      }
      var chain := JavaHex(f[2]);
      var b0 := JavaHex(f[3]);
      var auth := JavaHex(f[4]);
      var sign := JavaHex(f[5]);
      if chain.None? || b0.None? || auth.None? || sign.None? {
        RecordsPrefix(lines, i + 1);
        return None;
      }
      rs := rs + [Parsed(f[1], chain.value, b0.value, auth.value, sign.value)];
    }
    assert lines[..|lines|] == lines;
    out := Some(rs);
  }
}
