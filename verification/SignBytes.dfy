/**
 The two forms of the hybrid sign-bytes as byte strings, a parser for each, and
 what the forms guarantee: they can be read back, they never run into what
 follows, different inputs give different bytes, and the two forms never meet.
 The length prefixes are reduced to their width, as the casts of the C, Go, Rust
 and JavaScript code do; each theorem says exactly which lengths it needs.
 */
module SignBytes {
  import opened Bytes

  const DOMAIN: bytes := Ascii("qorechain-pqc-hybrid-v2")

  /** A length prefix of k bytes, then the bytes. */
  function Field(k: nat, d: bytes): bytes {
    BE(k, |d|) + d
  }

  function V1(b0: bytes, auth: bytes): bytes {
    Field(4, b0) + Field(4, auth)
  }

  /** The layout behind a tag. */
  function Tagged(tag: bytes, chain: bytes, b0: bytes, auth: bytes): bytes {
    tag + Field(8, chain) + V1(b0, auth)
  }

  function V2(chain: bytes, b0: bytes, auth: bytes): bytes {
    Tagged(DOMAIN, chain, b0, auth)
  }

  lemma V1Layout(b0: bytes, auth: bytes)
    ensures BE(4, |b0|) + b0 + BE(4, |auth|) + auth == V1(b0, auth)
  {
  }

  /** The same bytes, put down one part after the other. */
  lemma TaggedLayout(tag: bytes, chain: bytes, b0: bytes, auth: bytes)
    ensures tag + BE(8, |chain|) + chain + V1(b0, auth) == Tagged(tag, chain, b0, auth)
    ensures tag + BE(8, |chain|) + chain + BE(4, |b0|) + b0 + BE(4, |auth|) + auth == Tagged(tag, chain, b0, auth)
  {
    V1Layout(b0, auth);
    var head := tag + BE(8, |chain|) + chain;
    assert head == tag + Field(8, chain);
    Regroup(head, BE(4, |b0|), b0, BE(4, |auth|), auth);
  }

  lemma Regroup(h: bytes, a: bytes, b: bytes, c: bytes, d: bytes)
    ensures h + a + b + c + d == h + (a + b + c + d)
  {
  }

  datatype Version = FormV1 | FormV2 | Other(id: int)

  /** The dispatcher, as every binding's checked entry point behaves. */
  function Build(version: Version, chain: bytes, b0: bytes, auth: bytes): Result<bytes> {
    match version
    case FormV1 => Success(V1(b0, auth))
    case FormV2 => if chain == [] then Failure else Success(V2(chain, b0, auth))
    case Other(_) => Failure
  }

  // ---- Byte by byte ----

  /** A v1 string, position by position. */
  lemma V1Written(b0: bytes, auth: bytes)
    ensures var s, m, n := V1(b0, auth), |b0|, |auth|;
      && |s| == 8 + m + n
      && s[..4] == [m / 0x100_0000 % 256, m / 0x1_0000 % 256, m / 0x100 % 256, m % 256]
      && s[4..4 + m] == b0
      && s[4 + m..8 + m] == [n / 0x100_0000 % 256, n / 0x1_0000 % 256, n / 0x100 % 256, n % 256]
      && s[8 + m..] == auth
  {
    BE4Digits(|b0|);
    BE4Digits(|auth|);
    FourParts(BE(4, |b0|), b0, BE(4, |auth|), auth);
  }

  lemma FourParts(p: bytes, x: bytes, q: bytes, y: bytes)
    requires |p| == 4 && |q| == 4
    ensures var s := p + x + (q + y);
      && |s| == 8 + |x| + |y|
      && s[..4] == p && s[4..4 + |x|] == x && s[4 + |x|..8 + |x|] == q && s[8 + |x|..] == y
  {
  }

  /** "qorechain-pqc-hybrid-v2" */
  lemma DomainWritten()
    ensures DOMAIN == [113, 111, 114, 101, 99, 104, 97, 105, 110, 45, 112, 113, 99, 45, 104, 121, 98, 114, 105, 100, 45, 118, 50]
  {
  }

  lemma ThreeParts(tag: bytes, p: bytes, x: bytes, y: bytes)
    requires |p| == 8
    ensures var s, m := tag + (p + x) + y, |tag|;
      && s[..m] == tag && s[m..m + 8] == p && s[m + 8..m + 8 + |x|] == x && s[m + 8 + |x|..] == y
  {
  }

  /** A v2 string, position by position: the domain string, the chain-id behind its length, the v1 layout. */
  lemma V2Written(chain: bytes, b0: bytes, auth: bytes)
    ensures var s, c := V2(chain, b0, auth), |chain|;
      && |s| == 39 + c + |b0| + |auth|
      && s[..23] == [113, 111, 114, 101, 99, 104, 97, 105, 110, 45, 112, 113, 99, 45, 104, 121, 98, 114, 105, 100, 45, 118, 50]
      && s[23..27] == [c / 0x100_0000_0000_0000 % 256, c / 0x1_0000_0000_0000 % 256, c / 0x100_0000_0000 % 256, c / 0x1_0000_0000 % 256]
      && s[27..31] == [c / 0x100_0000 % 256, c / 0x1_0000 % 256, c / 0x100 % 256, c % 256]
      && s[31..31 + c] == chain
      && s[31 + c..] == V1(b0, auth)
  {
    DomainWritten();
    var c := |chain|;
    ThreeParts(DOMAIN, BE(8, c), chain, V1(b0, auth));
    BE8Digits(c);
    BE4Digits(c / TWO_32);
    BE4Digits(c);
    var s := V2(chain, b0, auth);
    assert s[23..27] == s[23..31][..4] && s[27..31] == s[23..31][4..];
    DividesOn(c, 0x1_0000_0000, 0x100_0000);
    DividesOn(c, 0x1_0000_0000, 0x1_0000);
    DividesOn(c, 0x1_0000_0000, 0x100);
  }

  lemma DividesOn(c: nat, x: nat, y: nat)
    requires x == 0x1_0000_0000 && (y == 0x100_0000 || y == 0x1_0000 || y == 0x100)
    ensures c / x / y == c / (x * y)
  {
  }

  // ---- Reading back ----

  function TakeField(k: nat, s: bytes): Option<(bytes, bytes)> {
    if |s| < k || |s| < k + Val(s[..k]) then None
    else
      var end := k + Val(s[..k]);
      Some((s[k..end], s[end..]))
  }

  /** The two bodies and what follows them. */
  function ParseV1(s: bytes): Option<(bytes, bytes, bytes)> {
    match TakeField(4, s)
    case None => None
    case Some((b0, s1)) =>
      match TakeField(4, s1)
      case None => None
      case Some((auth, rest)) => Some((b0, auth, rest))
  }

  /** Chain-id, the two bodies and what follows them. */
  function ParseTagged(tag: bytes, s: bytes): Option<(bytes, bytes, bytes, bytes)> {
    if |s| < |tag| || s[..|tag|] != tag then None
    else
      match TakeField(8, s[|tag|..])
      case None => None
      case Some((chain, s1)) =>
        match ParseV1(s1)
        case None => None
        case Some((b0, auth, rest)) => Some((chain, b0, auth, rest))
  }

  function ParseV2(s: bytes): Option<(bytes, bytes, bytes, bytes)> {
    ParseTagged(DOMAIN, s)
  }

  lemma FieldRoundTrip(k: nat, d: bytes, rest: bytes)
    requires |d| < Pow256(k)
    ensures TakeField(k, Field(k, d) + rest) == Some((d, rest))
  {
    var s := Field(k, d) + rest;
    assert s[..k] == BE(k, |d|);
    ValOfBEInRange(k, |d|);
    assert s[k..k + |d|] == d;
    assert s[k + |d|..] == rest;
  }

  lemma FieldCanonical(k: nat, s: bytes)
    ensures TakeField(k, s).Some? ==>
              var (d, rest) := TakeField(k, s).value;
              |d| < Pow256(k) && s == Field(k, d) + rest
  {
    if TakeField(k, s).Some? {
      BEOfVal(s[..k]);
    }
  }

  /** v1 is self-delimiting: whatever follows, the bodies come back and the rest is untouched. */
  lemma V1RoundTrip(b0: bytes, auth: bytes, rest: bytes)
    requires |b0| < TWO_32 && |auth| < TWO_32
    ensures ParseV1(V1(b0, auth) + rest) == Some((b0, auth, rest))
  {
    Pow256Widths();
    Assoc(Field(4, b0), Field(4, auth), rest);
    FieldRoundTrip(4, b0, Field(4, auth) + rest);
    FieldRoundTrip(4, auth, rest);
  }

  /** The parser accepts nothing but encodings. */
  lemma V1Canonical(s: bytes)
    ensures ParseV1(s).Some? ==>
              var (b0, auth, rest) := ParseV1(s).value;
              |b0| < TWO_32 && |auth| < TWO_32 && s == V1(b0, auth) + rest
  {
    Pow256Widths();
    FieldCanonical(4, s);
    if TakeField(4, s).Some? {
      FieldCanonical(4, TakeField(4, s).value.1);
      if ParseV1(s).Some? {
        var (b0, auth, rest) := ParseV1(s).value;
        Assoc(Field(4, b0), Field(4, auth), rest);
      }
    }
  }

  /** Exactly the bodies below 2^32 bytes can be read back. */
  lemma V1ReadsBackExactly(b0: bytes, auth: bytes)
    ensures ParseV1(V1(b0, auth)) == Some((b0, auth, [])) <==> |b0| < TWO_32 && |auth| < TWO_32
  {
    V1Canonical(V1(b0, auth));
    if |b0| < TWO_32 && |auth| < TWO_32 {
      assert V1(b0, auth) == V1(b0, auth) + [];
      V1RoundTrip(b0, auth, []);
    }
  }

  lemma BehindTag(tag: bytes, x: bytes, y: bytes, rest: bytes)
    ensures (tag + x + y + rest)[..|tag|] == tag
    ensures (tag + x + y + rest)[|tag|..] == x + (y + rest)
  {
  }

  lemma TaggedRoundTrip(tag: bytes, chain: bytes, b0: bytes, auth: bytes, rest: bytes)
    requires |chain| < TWO_64 && |b0| < TWO_32 && |auth| < TWO_32
    ensures ParseTagged(tag, Tagged(tag, chain, b0, auth) + rest) == Some((chain, b0, auth, rest))
  {
    Pow256Widths();
    var tail := V1(b0, auth) + rest;
    BehindTag(tag, Field(8, chain), V1(b0, auth), rest);
    FieldRoundTrip(8, chain, tail);
    V1RoundTrip(b0, auth, rest);
  }

  lemma TaggedCanonical(tag: bytes, s: bytes)
    ensures ParseTagged(tag, s).Some? ==>
              var (chain, b0, auth, rest) := ParseTagged(tag, s).value;
              |chain| < TWO_64 && |b0| < TWO_32 && |auth| < TWO_32 && s == Tagged(tag, chain, b0, auth) + rest
  {
    Pow256Widths();
    if ParseTagged(tag, s).Some? {
      FieldCanonical(8, s[|tag|..]);
      var (chain, s1) := TakeField(8, s[|tag|..]).value;
      V1Canonical(s1);
      var (b0, auth, rest) := ParseV1(s1).value;
      BehindTag(tag, Field(8, chain), V1(b0, auth), rest);
      assert s == tag + s[|tag|..];
    }
  }

  /** v2 is self-delimiting too. */
  lemma V2RoundTrip(chain: bytes, b0: bytes, auth: bytes, rest: bytes)
    requires |chain| < TWO_64 && |b0| < TWO_32 && |auth| < TWO_32
    ensures ParseV2(V2(chain, b0, auth) + rest) == Some((chain, b0, auth, rest))
  {
    TaggedRoundTrip(DOMAIN, chain, b0, auth, rest);
  }

  lemma V2Canonical(s: bytes)
    ensures ParseV2(s).Some? ==>
              var (chain, b0, auth, rest) := ParseV2(s).value;
              |chain| < TWO_64 && |b0| < TWO_32 && |auth| < TWO_32 && s == V2(chain, b0, auth) + rest
  {
    TaggedCanonical(DOMAIN, s);
  }

  lemma V2ReadsBackExactly(chain: bytes, b0: bytes, auth: bytes)
    ensures ParseV2(V2(chain, b0, auth)) == Some((chain, b0, auth, []))
       <==> |chain| < TWO_64 && |b0| < TWO_32 && |auth| < TWO_32
  {
    var s := V2(chain, b0, auth);
    V2Canonical(s);
    if |chain| < TWO_64 && |b0| < TWO_32 && |auth| < TWO_32 {
      V2RoundTrip(chain, b0, auth, []);
      assert s + [] == s;
    }
  }

  // ---- No encoding is a prefix of another ----

  /** Two v1 strings that agree as far as the shorter one goes come from the same bodies. */
  lemma V1PrefixFree(b0: bytes, auth: bytes, b0': bytes, auth': bytes, rest: bytes, rest': bytes)
    requires |b0| < TWO_32 && |auth| < TWO_32 && |b0'| < TWO_32 && |auth'| < TWO_32
    requires V1(b0, auth) + rest == V1(b0', auth') + rest'
    ensures b0 == b0' && auth == auth' && rest == rest'
  {
    V1RoundTrip(b0, auth, rest);
    V1RoundTrip(b0', auth', rest');
  }

  lemma V2PrefixFree(chain: bytes, b0: bytes, auth: bytes, chain': bytes, b0': bytes, auth': bytes, rest: bytes, rest': bytes)
    requires |chain| < TWO_64 && |b0| < TWO_32 && |auth| < TWO_32
    requires |chain'| < TWO_64 && |b0'| < TWO_32 && |auth'| < TWO_32
    requires V2(chain, b0, auth) + rest == V2(chain', b0', auth') + rest'
    ensures chain == chain' && b0 == b0' && auth == auth' && rest == rest'
  {
    V2RoundTrip(chain, b0, auth, rest);
    V2RoundTrip(chain', b0', auth', rest');
  }

  // ---- Exactly when a string has one input ----

  /** A body too long for its prefix can give part of itself to the field behind it. */
  lemma BoundaryMoves(k: nat, x: bytes, z: bytes, d: bytes)
    requires (k == 4 || k == 8) && |z| + 4 == (if k == 4 then TWO_32 else TWO_64)
    ensures Field(k, x + BE(4, |d|) + z) + Field(4, d) == Field(k, x) + Field(4, z + BE(4, |d|) + d)
  {
    var p := BE(4, |d|);
    LongerByWidth(k, |x|, |x + p + z|);
    LongerByWidth(4, |d|, |z + p + d|);
    Interchange(BE(k, |x|), x, p, z, d);
  }

  /** 2^64 is a multiple of 2^32. */
  lemma LongerByWidth(k: nat, n: nat, m: nat)
    requires (k == 4 && (m == n + TWO_32 || m == n + TWO_64)) || (k == 8 && m == n + TWO_64)
    ensures BE(k, m) == BE(k, n)
  {
    Pow256Widths();
    WritesAlike(k, m, n);
  }

  lemma Interchange(h: bytes, x: bytes, p: bytes, z: bytes, d: bytes)
    ensures h + (x + p + z) + (p + d) == h + x + (p + (z + p + d))
  {
    assert h + (x + p + z) + (p + d) == h + x + p + z + p + d;
    assert h + x + (p + (z + p + d)) == h + x + p + z + p + d;
  }

  lemma SamePieces(p: bytes, x: bytes, q: bytes, y: bytes, p': bytes, x': bytes, q': bytes, y': bytes)
    requires p + x + (q + y) == p' + x' + (q' + y')
    requires |p| == |p'| && |x| == |x'| && |q| == |q'|
    ensures x == x' && y == y'
  {
    var s, s' := p + x + (q + y), p' + x' + (q' + y');
    var m, n := |p| + |x|, |p| + |x| + |q|;
    assert x == s[|p|..m] && x' == s'[|p|..m];
    assert y == s[n..] && y' == s'[n..];
  }

  /** The first prefix fixes the first length modulo 2^32, the whole the sum. */
  lemma V1Lengths(b0: bytes, auth: bytes, b0': bytes, auth': bytes)
    requires V1(b0, auth) == V1(b0', auth')
    ensures |b0| % TWO_32 == |b0'| % TWO_32
    ensures |b0| + |auth| == |b0'| + |auth'|
  {
    Pow256Widths();
    assert V1(b0, auth)[..4] == BE(4, |b0|) && V1(b0', auth')[..4] == BE(4, |b0'|);
    ValOfBE(4, |b0|);
    ValOfBE(4, |b0'|);
  }

  /** Both bodies fitting, the string has no other pair, of whatever lengths. */
  lemma V1Unique(b0: bytes, auth: bytes, b0': bytes, auth': bytes)
    requires |b0| < TWO_32 && |auth| < TWO_32
    requires V1(b0, auth) == V1(b0', auth')
    ensures b0 == b0' && auth == auth'
  {
    V1Lengths(b0, auth, b0', auth');
    if |b0| != |b0'| {
      FarApart(|b0|, |b0'|, TWO_32);
    }
    SamePieces(BE(4, |b0|), b0, BE(4, |auth|), auth, BE(4, |b0'|), b0', BE(4, |auth'|), auth');
  }

  /** Two pairs with one v1 string. */
  ghost predicate V1Shares(b0: bytes, auth: bytes, b0': bytes, auth': bytes) {
    (b0 != b0' || auth != auth') && V1(b0, auth) == V1(b0', auth')
  }

  lemma V1SharesAt(m: nat, n: nat) returns (b0: bytes, auth: bytes, b0': bytes, auth': bytes)
    requires m >= TWO_32 || n >= TWO_32
    ensures |b0| == m && |auth| == n && V1Shares(b0, auth, b0', auth')
  {
    Pow256Widths();
    var z := Zeros(TWO_32 - 4);
    if m >= TWO_32 {
      var x := Zeros(m - TWO_32);
      b0, auth, b0', auth' := x + BE(4, n) + z, Zeros(n), x, z + BE(4, n) + Zeros(n);
      BoundaryMoves(4, x, z, auth);
    } else {
      var x, d := Zeros(m), Zeros(n - TWO_32);
      b0, auth, b0', auth' := x, z + BE(4, |d|) + d, x + BE(4, |d|) + z, d;
      BoundaryMoves(4, x, z, d);
    }
  }

  /** Some pair with bodies of these lengths shares its v1 string with another pair exactly when one does not fit its prefix. */
  lemma V1UniqueExactly(m: nat, n: nat)
    ensures (exists b0, auth, b0', auth' :: |b0| == m && |auth| == n && V1Shares(b0, auth, b0', auth'))
       <==> m >= TWO_32 || n >= TWO_32
  {
    if m >= TWO_32 || n >= TWO_32 {
      var b0, auth, b0', auth' := V1SharesAt(m, n);
    }
    forall b0, auth, b0', auth' | |b0| == m && |auth| == n && V1Shares(b0, auth, b0', auth')
      ensures m >= TWO_32 || n >= TWO_32
    {
      if m < TWO_32 && n < TWO_32 {
        V1Unique(b0, auth, b0', auth');
      }
    }
  }

  lemma SameBehindTag(tag: bytes, chain: bytes, b0: bytes, auth: bytes, chain': bytes, b0': bytes, auth': bytes)
    ensures Tagged(tag, chain, b0, auth) == Tagged(tag, chain', b0', auth')
       <==> Field(8, chain) + V1(b0, auth) == Field(8, chain') + V1(b0', auth')
  {
    var x, x' := Field(8, chain) + V1(b0, auth), Field(8, chain') + V1(b0', auth');
    Assoc(tag, Field(8, chain), V1(b0, auth));
    Assoc(tag, Field(8, chain'), V1(b0', auth'));
    assert (tag + x)[|tag|..] == x && (tag + x')[|tag|..] == x';
  }

  /** A chain-id longer by a multiple of 2^64, 0 included, is all that the first prefix allows. */
  lemma ChainLengths(chain: bytes, b0: bytes, auth: bytes, chain': bytes, b0': bytes, auth': bytes)
    requires Field(8, chain) + V1(b0, auth) == Field(8, chain') + V1(b0', auth')
    ensures |chain| % TWO_64 == |chain'| % TWO_64
    ensures |chain| + |b0| + |auth| == |chain'| + |b0'| + |auth'|
    ensures |chain| == |chain'| ==> chain == chain' && V1(b0, auth) == V1(b0', auth')
  {
    Pow256Widths();
    var s, s' := Field(8, chain) + V1(b0, auth), Field(8, chain') + V1(b0', auth');
    assert s[..8] == BE(8, |chain|) && s'[..8] == BE(8, |chain'|);
    ValOfBE(8, |chain|);
    ValOfBE(8, |chain'|);
    if |chain| == |chain'| {
      var n := 8 + |chain|;
      assert s[8..n] == chain && s'[8..n] == chain';
      assert s[n..] == V1(b0, auth) && s'[n..] == V1(b0', auth');
    }
  }

  /** Bodies fitting, another triple with the string can only have a shorter chain-id. */
  lemma V2Unique(chain: bytes, b0: bytes, auth: bytes, chain': bytes, b0': bytes, auth': bytes)
    requires |b0| < TWO_32 && |auth| < TWO_32
    requires V2(chain, b0, auth) == V2(chain', b0', auth')
    ensures (chain == chain' && b0 == b0' && auth == auth') || |chain'| + TWO_64 <= |chain|
  {
    SameBehindTag(DOMAIN, chain, b0, auth, chain', b0', auth');
    ChainLengths(chain, b0, auth, chain', b0', auth');
    if |chain| == |chain'| {
      V1Unique(b0, auth, b0', auth');
    } else {
      FarApart(|chain|, |chain'|, TWO_64);
    }
  }

  lemma FarApart(a: nat, b: nat, m: nat)
    requires m > 0 && a % m == b % m && a != b
    ensures a + m <= b || b + m <= a
  {
    var d := a / m - b / m;
    assert a - b == m * (a / m) - m * (b / m) == m * d;
    MultipleIsFar(m, d);
  }

  ghost predicate V2Shares(chain: bytes, b0: bytes, auth: bytes, chain': bytes, b0': bytes, auth': bytes) {
    (chain != chain' || b0 != b0' || auth != auth') && V2(chain, b0, auth) == V2(chain', b0', auth')
  }

  /** With a chain-id too long for its prefix: another triple whose chain-id is 2^64 bytes shorter. */
  lemma V2SharesChain(c: nat, m: nat, n: nat) returns (chain: bytes, chain': bytes, b0': bytes)
    requires c >= TWO_64
    ensures |chain| == c && |chain'| == c - TWO_64 && V2Shares(chain, Zeros(m), Zeros(n), chain', b0', Zeros(n))
  {
    Pow256Widths();
    var x, z, b0, auth := Zeros(c - TWO_64), Zeros(TWO_64 - 4), Zeros(m), Zeros(n);
    chain, chain', b0' := x + BE(4, m) + z, x, z + BE(4, m) + b0;
    BoundaryMoves(8, x, z, b0);
    Assoc(Field(8, chain), Field(4, b0), Field(4, auth));
    Assoc(Field(8, chain'), Field(4, b0'), Field(4, auth));
    SameBehindTag(DOMAIN, chain, b0, auth, chain', b0', auth);
  }

  lemma V2SharesBodies(chain: bytes, m: nat, n: nat) returns (b0: bytes, auth: bytes, b0': bytes, auth': bytes)
    requires m >= TWO_32 || n >= TWO_32
    ensures |b0| == m && |auth| == n && V2Shares(chain, b0, auth, chain, b0', auth')
  {
    b0, auth, b0', auth' := V1SharesAt(m, n);
  }

  ghost predicate SomeV2Shares(c: nat, m: nat, n: nat) {
    exists chain, b0, auth, chain', b0', auth' ::
      |chain| == c && |b0| == m && |auth| == n && V2Shares(chain, b0, auth, chain', b0', auth')
  }

  /** The same for v2, over everything its unchecked builders take. */
  lemma V2UniqueExactly(c: nat, m: nat, n: nat)
    ensures SomeV2Shares(c, m, n) <==> c >= TWO_64 || m >= TWO_32 || n >= TWO_32
  {
    if m >= TWO_32 || n >= TWO_32 {
      var chain := Zeros(c);
      var b0, auth, b0', auth' := V2SharesBodies(chain, m, n);
    } else if c >= TWO_64 {
      var chain, chain', b0' := V2SharesChain(c, m, n);
      assert |Zeros(m)| == m && |Zeros(n)| == n;
    } else if SomeV2Shares(c, m, n) {
      var chain, b0, auth, chain', b0', auth' :|
        |chain| == c && |b0| == m && |auth| == n && V2Shares(chain, b0, auth, chain', b0', auth');
      V2Unique(chain, b0, auth, chain', b0', auth');
    }
  }

  ghost predicate SomeCheckedShare(c: nat, m: nat, n: nat) {
    exists chain, b0, auth, chain', b0', auth' ::
      && |chain| == c && |b0| == m && |auth| == n && chain' != []
      && V2Shares(chain, b0, auth, chain', b0', auth')
  }

  /** The checked builders refuse the empty chain-id, and with it the one partner of a chain-id of 2^64 bytes. */
  lemma CheckedV2UniqueExactly(c: nat, m: nat, n: nat)
    requires c > 0
    ensures SomeCheckedShare(c, m, n) <==> c > TWO_64 || m >= TWO_32 || n >= TWO_32
  {
    if m >= TWO_32 || n >= TWO_32 {
      var chain := Zeros(c);
      var b0, auth, b0', auth' := V2SharesBodies(chain, m, n);
    } else if c > TWO_64 {
      var chain, chain', b0' := V2SharesChain(c, m, n);
      assert |Zeros(m)| == m && |Zeros(n)| == n;
    } else if SomeCheckedShare(c, m, n) {
      var chain, b0, auth, chain', b0', auth' :|
        && |chain| == c && |b0| == m && |auth| == n && chain' != []
        && V2Shares(chain, b0, auth, chain', b0', auth');
      V2Unique(chain, b0, auth, chain', b0', auth');
    }
  }

  // ---- The two forms never meet ----

  /** The first four bytes of the domain tag, "qore", read as a length. */
  const QORE: nat := 0x716f7265

  lemma TagAsLength(s: bytes)
    requires |s| >= 4
    ensures s[..4] == Ascii("qore") <==> Val(s[..4]) == QORE
  {
    var q := Ascii("qore");
    assert q[..3][..2][..1] == [113];
    assert q[..3][..2] == [113, 111];
    assert q[..3] == [113, 111, 114];
    assert Val([113]) == 113;
    assert Val(q[..3][..2]) == 113 * 256 + 111;
    assert Val(q[..3]) == (113 * 256 + 111) * 256 + 114;
    assert Val(q) == QORE;
    BEOfVal(s[..4]);
    BEOfVal(q);
  }

  lemma V1StartsWithQore(b0: bytes, auth: bytes)
    ensures V1(b0, auth)[..4] == Ascii("qore") <==> |b0| % TWO_32 == QORE
  {
    Pow256Widths();
    var s := V1(b0, auth);
    assert s[..4] == BE(4, |b0|);
    ValOfBE(4, |b0|);
    TagAsLength(s);
  }

  lemma DomainStartsWithQore()
    ensures |DOMAIN| == 23 && DOMAIN[..4] == Ascii("qore")
  {
  }

  lemma TagComesFirst(tag: bytes, chain: bytes, b0: bytes, auth: bytes, rest: bytes)
    requires |tag| >= 4
    ensures (Tagged(tag, chain, b0, auth) + rest)[..4] == tag[..4]
  {
  }

  /** A v1 string that is also a v2 string has a first body of one particular length. */
  lemma FormsSeparate(b0: bytes, auth: bytes, chain: bytes, b0': bytes, auth': bytes, rest: bytes, rest': bytes)
    requires V1(b0, auth) + rest == V2(chain, b0', auth') + rest'
    ensures |b0| % TWO_32 == QORE
  {
    TagComesFirst(DOMAIN, chain, b0', auth', rest');
    DomainStartsWithQore();
    var s := V1(b0, auth);
    assert (s + rest)[..4] == s[..4];
    V1StartsWithQore(b0, auth);
  }

  /** A v1 and a v2 input that give the same bytes. */
  ghost predicate Meet(b0: bytes, auth: bytes, chain: bytes, b0': bytes, auth': bytes) {
    chain != [] && V1(b0, auth) == V2(chain, b0', auth')
  }

  /** A string that starts with a length n, has n + 8 bytes and ends in four zero bytes is a v1 string. */
  lemma ReadAsV1(s: bytes, n: nat)
    requires |s| == n + 8 && s[..4] == BE(4, n) && s[n + 4..] == BE(4, 0)
    ensures V1(s[4..n + 4], []) == s
  {
    assert Field(4, []) == BE(4, 0);
    assert s == s[..4] + s[4..n + 4] + s[n + 4..];
  }

  lemma TaggedTail(tag: bytes, chain: bytes, b0: bytes)
    ensures var s := Tagged(tag, chain, b0, []);
      |s| == |tag| + 16 + |chain| + |b0| && s[|s| - 4..] == BE(4, 0)
  {
    var head := tag + Field(8, chain) + Field(4, b0);
    assert Field(4, []) == BE(4, 0);
    assert Tagged(tag, chain, b0, []) == head + BE(4, 0);
  }

  /** Behind a tag of 23 bytes starting with "qore", a v1 string of that length can be laid out. */
  lemma FormsMeet(tag: bytes, chain: bytes, b0': bytes) returns (b0: bytes)
    requires |tag| == 23 && Val(tag[..4]) == QORE && |chain| == 1 && |b0'| == QORE - 32
    ensures |b0| == QORE && V1(b0, []) == Tagged(tag, chain, b0', [])
  {
    var s := Tagged(tag, chain, b0', []);
    TaggedTail(tag, chain, b0');
    TagComesFirst(tag, chain, b0', [], []);
    assert s + [] == s;
    BEOfVal(tag[..4]);
    ReadAsV1(s, QORE);
    b0 := s[4..QORE + 4];
  }

  /** At that length the two forms do meet. */
  lemma FormsMeetAtQore() returns (b0: bytes, auth: bytes, chain: bytes, b0': bytes, auth': bytes)
    ensures |b0| == QORE && Meet(b0, auth, chain, b0', auth')
  {
    DomainStartsWithQore();
    TagAsLength(DOMAIN);
    chain, b0', auth, auth' := [120], Zeros(QORE - 32), [], [];
    b0 := FormsMeet(DOMAIN, chain, b0');
  }

  lemma CutInFour(s: bytes, n: nat)
    requires n + 8 <= |s|
    ensures s == s[..4] + s[4..n + 4] + s[n + 4..n + 8] + s[n + 8..]
  {
  }

  /** A second body may be continued until its length fits the four bytes before it. */
  lemma AuthFor(prefix: bytes, rest: bytes) returns (auth: bytes)
    requires |prefix| == 4
    ensures rest <= auth && Field(4, auth) == prefix + auth
  {
    Pow256Widths();
    BEOfVal(prefix);
    auth := rest + Zeros(Val(prefix) + TWO_32 * |rest| - |rest|);
    RemainderIsUnique(|auth|, TWO_32, |rest|, Val(prefix));
    BE32Wraps(|auth|);
  }

  /** Any string that starts with a length can be continued to a v1 string with a first body of that length. */
  lemma V1Carries(t: bytes, n: nat) returns (b0: bytes, auth: bytes)
    requires |t| >= 4 && t[..4] == BE(4, n)
    ensures |b0| == n && t <= V1(b0, auth) && |t| < |V1(b0, auth)|
  {
    var full := t + Zeros(n + 8);
    var prefix, rest := full[n + 4..n + 8], full[n + 8..];
    b0 := full[4..n + 4];
    auth := AuthFor(prefix, rest);
    CutInFour(full, n);
    V1Opens(full[..4], b0, prefix, rest, auth);
    assert full[..4] == t[..4];
    assert t == full[..|t|];
  }

  /** So within the ranges no v1 string opens another, but beyond them every one is opened by a longer one. */
  lemma EveryV1IsExtended(b0: bytes, auth: bytes) returns (b0': bytes, auth': bytes)
    ensures |b0'| == |b0| + TWO_32
    ensures V1(b0, auth) <= V1(b0', auth') && |V1(b0, auth)| < |V1(b0', auth')|
  {
    Pow256Widths();
    LongerByWidth(4, |b0|, |b0| + TWO_32);
    var s := V1(b0, auth);
    assert s[..4] == BE(4, |b0|);
    b0', auth' := V1Carries(s, |b0| + TWO_32);
  }

  /** Room behind the second length for what it leaves of the string. */
  predicate Fits(t: bytes, n: nat) {
    |t| < n + 8 || |t| - (n + 8) <= Val(t[n + 4..n + 8])
  }

  /** Zeros behind a short string, up to the end of the second length. */
  lemma Padded(t: bytes, n: nat) returns (full: bytes)
    requires 4 <= |t| && Fits(t, n)
    ensures |full| >= n + 8 && t <= full && full[..4] == t[..4]
    ensures |full| - (n + 8) <= Val(full[n + 4..n + 8])
    ensures |t| <= n + 4 ==> full[n + 4..n + 8] == Zeros(4) && |full| == n + 8
  {
    if |t| < n + 8 {
      full := t + Zeros(n + 8 - |t|);
    } else {
      full := t;
    }
  }

  /** A string with such room is continued by a second body of the length it states. */
  lemma V1Within(full: bytes, n: nat) returns (b0: bytes, auth: bytes)
    requires |full| >= n + 8 && full[..4] == BE(4, n)
    requires |full| - (n + 8) <= Val(full[n + 4..n + 8])
    ensures |b0| == n && |auth| == Val(full[n + 4..n + 8]) && full <= V1(b0, auth)
  {
    var prefix, rest := full[n + 4..n + 8], full[n + 8..];
    b0 := full[4..n + 4];
    BEOfVal(prefix);
    auth := rest + Zeros(Val(prefix) - |rest|);
    CutInFour(full, n);
    V1Opens(full[..4], b0, prefix, rest, auth);
  }

  /** Where there is, both bodies can be in range; for a string within the first body the second may be empty. */
  lemma V1CarriesInRange(t: bytes, n: nat) returns (b0: bytes, auth: bytes)
    requires 4 <= |t| && t[..4] == BE(4, n) && Fits(t, n)
    ensures |b0| == n && |auth| < TWO_32 && t <= V1(b0, auth)
    ensures |t| <= n + 4 ==> auth == []
  {
    Pow256Widths();
    var full := Padded(t, n);
    b0, auth := V1Within(full, n);
    BEOfVal(full[n + 4..n + 8]);
    ValOfZeros(4);
  }

  ghost predicate CarriedInRange(t: bytes, b0: bytes, auth: bytes) {
    |b0| < TWO_32 && |auth| < TWO_32 && t <= V1(b0, auth)
  }

  lemma V1CarriesInRangeExactly(t: bytes, n: nat)
    requires n < TWO_32 && 4 <= |t| && t[..4] == BE(4, n)
    ensures (exists b0, auth :: CarriedInRange(t, b0, auth)) <==> Fits(t, n)
  {
    if Fits(t, n) {
      var b0, auth := V1CarriesInRange(t, n);
      assert CarriedInRange(t, b0, auth);
    }
    forall b0, auth | CarriedInRange(t, b0, auth) ensures Fits(t, n) {
      CarriedFits(t, n, b0, auth);
    }
  }

  lemma CarriedFits(t: bytes, n: nat, b0: bytes, auth: bytes)
    requires n < TWO_32 && 4 <= |t| && t[..4] == BE(4, n) && CarriedInRange(t, b0, auth)
    ensures Fits(t, n)
  {
    Pow256Widths();
    var s := V1(b0, auth);
    assert t == s[..|t|] && s[..4] == BE(4, |b0|);
    assert s[..4] == t[..4];
    ValOfBEInRange(4, n);
    ValOfBEInRange(4, |b0|);
    if |t| >= n + 8 {
      assert t[n + 4..n + 8] == s[n + 4..n + 8] == BE(4, |auth|);
      ValOfBEInRange(4, |auth|);
    }
  }

  lemma V1Opens(head: bytes, b0: bytes, prefix: bytes, rest: bytes, auth: bytes)
    requires head == BE(4, |b0|) && rest <= auth && Field(4, auth) == prefix + auth
    ensures head + b0 + prefix + rest <= V1(b0, auth)
  {
    Front(head + b0, prefix, rest, auth);
  }

  lemma Front(a: bytes, b: bytes, c: bytes, d: bytes)
    requires c <= d
    ensures a + b + c <= a + (b + d)
  {
    Assoc(a, b, d);
  }

  /** So the first body's length decides, and no other length does. */
  lemma SeparationExactly(n: nat)
    requires n < TWO_32
    ensures (exists b0, auth, chain, b0', auth' ::
              |b0| % TWO_32 == n && Meet(b0, auth, chain, b0', auth')) <==> n == QORE
  {
    forall b0, auth, chain, b0', auth' | Meet(b0, auth, chain, b0', auth') ensures |b0| % TWO_32 == QORE {
      FormsSeparate(b0, auth, chain, b0', auth', [], []);
    }
    if n == QORE {
      var b0, auth, chain, b0', auth' := FormsMeetAtQore();
      assert |b0| % TWO_32 == n && Meet(b0, auth, chain, b0', auth');
    }
  }

  lemma NeverEqual(b0: bytes, auth: bytes, chain: bytes, b0': bytes, auth': bytes)
    requires |b0| < TWO_32 && |b0| != QORE
    ensures V1(b0, auth) != V2(chain, b0', auth')
  {
    if V1(b0, auth) == V2(chain, b0', auth') {
      FormsSeparate(b0, auth, chain, b0', auth', [], []);
    }
  }

  /** Lengths that fit their prefixes. */
  predicate InRange(v: Version, chain: bytes, b0: bytes, auth: bytes) {
    |b0| < TWO_32 && |auth| < TWO_32 && (v == FormV2 ==> |chain| < TWO_64)
  }

  /** A v1 request that is being compared with a v2 one, and has the first body that v2 strings look like. */
  predicate Ambiguous(v: Version, b0: bytes, v': Version) {
    v == FormV1 && v' == FormV2 && |b0| == QORE
  }

  /** Otherwise the dispatcher never gives one string for two different requests. */
  lemma DispatcherInjective(v: Version, chain: bytes, b0: bytes, auth: bytes, v': Version, chain': bytes, b0': bytes, auth': bytes)
    requires InRange(v, chain, b0, auth) && InRange(v', chain', b0', auth')
    requires !Ambiguous(v, b0, v') && !Ambiguous(v', b0', v)
    requires Build(v, chain, b0, auth).Success? && Build(v, chain, b0, auth) == Build(v', chain', b0', auth')
    ensures v == v' && b0 == b0' && auth == auth'
    ensures v == FormV2 ==> chain == chain'
  {
    match (v, v')
    case (FormV1, FormV1) =>
      V1PrefixFree(b0, auth, b0', auth', [], []);
    case (FormV2, FormV2) =>
      V2PrefixFree(chain, b0, auth, chain', b0', auth', [], []);
    case (FormV1, FormV2) =>
      NeverEqual(b0, auth, chain', b0', auth');
    case (FormV2, FormV1) =>
      NeverEqual(b0', auth', chain, b0, auth);
  }
}
