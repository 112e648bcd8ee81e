/**
 The reserved domain strings: no string is a prefix of another, so what is signed
 for one purpose is never what is signed for another.
 */
module ReservedTags {
  import opened Bytes
  import opened SignBytes

  datatype Purpose =
    | HybridTransaction
    | ProofOfPossession
    | KeyDerivation
    | KeyRecovery
    | SvmAuth
    | Login
    | Message(chain: bytes)

  const BAR: byte := 124

  function Tag(p: Purpose): bytes {
    match p
    case HybridTransaction => DOMAIN
    case ProofOfPossession => Ascii("qorechain-pqc-pop-v1|")
    case KeyDerivation => Ascii("qorechain:pqc:v1|")
    case KeyRecovery => Ascii("qorechain:pqc:recovery:v1")
    case SvmAuth => Ascii("qorechain-svm-auth-v2")
    case Login => Ascii("qorechain-siwq-v1|")
    case Message(chain) => Ascii("qorechain-msg-v1|") + chain + [BAR]
  }

  /** The reserved strings, byte by byte. */
  lemma TagsWritten(chain: bytes)
    ensures Tag(HybridTransaction) == [113, 111, 114, 101, 99, 104, 97, 105, 110, 45, 112, 113, 99, 45, 104, 121, 98, 114, 105, 100, 45, 118, 50]
    ensures Tag(ProofOfPossession) == [113, 111, 114, 101, 99, 104, 97, 105, 110, 45, 112, 113, 99, 45, 112, 111, 112, 45, 118, 49, 124]
    ensures Tag(KeyDerivation) == [113, 111, 114, 101, 99, 104, 97, 105, 110, 58, 112, 113, 99, 58, 118, 49, 124]
    ensures Tag(KeyRecovery) == [113, 111, 114, 101, 99, 104, 97, 105, 110, 58, 112, 113, 99, 58, 114, 101, 99, 111, 118, 101, 114, 121, 58, 118, 49]
    ensures Tag(SvmAuth) == [113, 111, 114, 101, 99, 104, 97, 105, 110, 45, 115, 118, 109, 45, 97, 117, 116, 104, 45, 118, 50]
    ensures Tag(Login) == [113, 111, 114, 101, 99, 104, 97, 105, 110, 45, 115, 105, 119, 113, 45, 118, 49, 124]
    ensures Tag(Message(chain)) == [113, 111, 114, 101, 99, 104, 97, 105, 110, 45, 109, 115, 103, 45, 118, 49, 124] + chain + [124]
  {
    DomainWritten();
  }

  /** The bytes at 9, 10, 11 and 14 tell the purposes apart. */
  lemma TagBytes(p: Purpose)
    ensures |Tag(p)| >= 17 && Tag(p)[..4] == Ascii("qore")
    ensures Tag(p)[9] == (if p.KeyDerivation? || p.KeyRecovery? then ':' else '-') as int
    ensures Tag(p)[10] == (if p.SvmAuth? || p.Login? then 's' else if p.Message? then 'm' else 'p') as int
    ensures p.SvmAuth? ==> Tag(p)[11] == 'v' as int
    ensures p.Login? ==> Tag(p)[11] == 'i' as int
    ensures p.HybridTransaction? ==> Tag(p)[14] == 'h' as int
    ensures p.ProofOfPossession? ==> Tag(p)[14] == 'p' as int
    ensures p.KeyDerivation? ==> Tag(p)[14] == 'v' as int
    ensures p.KeyRecovery? ==> Tag(p)[14] == 'r' as int
  {
  }

  predicate BothMessages(p: Purpose, q: Purpose) {
    p.Message? && q.Message?
  }

  lemma ForkedTags(p: Purpose, q: Purpose) returns (i: nat)
    requires p != q && !BothMessages(p, q)
    ensures i < |Tag(p)| && i < |Tag(q)| && Tag(p)[i] != Tag(q)[i]
  {
    TagBytes(p);
    TagBytes(q);
    i := if Tag(p)[9] != Tag(q)[9] then 9
         else if Tag(p)[10] != Tag(q)[10] then 10
         else if Tag(p)[11] != Tag(q)[11] then 11 else 14;
  }

  /** Between two message tags, one chain-id with a bar behind it has to open the other. */
  lemma MessagePrefixExactly(c: bytes, d: bytes)
    ensures Tag(Message(c)) <= Tag(Message(d)) <==> c == d || c + [BAR] <= d
  {
    var head := Ascii("qorechain-msg-v1|");
    StripHead(head, c + [BAR], d + [BAR]);
    assert Tag(Message(c)) == head + (c + [BAR]);
    assert Tag(Message(d)) == head + (d + [BAR]);
    if |c| == |d| {
      assert (c + [BAR])[..|c|] == c && (d + [BAR])[..|d|] == d;
    } else if |c| < |d| {
      assert (d + [BAR])[..|c| + 1] == d[..|c| + 1];
    }
  }

  lemma StripHead(h: bytes, x: bytes, y: bytes)
    ensures h + x <= h + y <==> x <= y
  {
    if h + x <= h + y {
      assert x == (h + x)[|h|..] && y == (h + y)[|h|..];
      assert y[..|x|] == (h + y)[|h|..|h| + |x|] == x;
    }
  }

  lemma BarInside(c: bytes, d: bytes)
    ensures c + [BAR] <= d ==> BAR in d
  {
    if c + [BAR] <= d {
      assert d[|c|] == (c + [BAR])[|c|];
    }
  }

  /** The list is prefix-free, for chain-ids without a bar. */
  lemma PrefixFree(p: Purpose, q: Purpose)
    requires p != q && (BothMessages(p, q) ==> BAR !in q.chain)
    ensures !(Tag(p) <= Tag(q))
  {
    if BothMessages(p, q) {
      MessagePrefixExactly(p.chain, q.chain);
      BarInside(p.chain, q.chain);
    } else {
      var i := ForkedTags(p, q);
    }
  }

  /** Different purposes never sign the same bytes, whatever the payloads. */
  lemma PurposesSeparate(p: Purpose, q: Purpose, x: bytes, y: bytes)
    requires p != q && (BothMessages(p, q) ==> BAR !in p.chain && BAR !in q.chain)
    ensures Tag(p) + x != Tag(q) + y
  {
    if Tag(p) + x == Tag(q) + y {
      OneOpensTheOther(Tag(p), x, Tag(q), y);
      PrefixFree(p, q);
      PrefixFree(q, p);
    }
  }

  /** Two payloads that make two tags sign the same bytes. */
  ghost predicate Collide(s: bytes, t: bytes, x: bytes, y: bytes) {
    s + x == t + y
  }

  lemma CollideExactly(s: bytes, t: bytes)
    ensures (exists x, y :: Collide(s, t, x, y)) <==> s <= t || t <= s
  {
    if s <= t {
      assert t == s + t[|s|..] && t + [] == t;
      assert Collide(s, t, t[|s|..], []);
    } else if t <= s {
      assert s == t + s[|t|..] && s + [] == s;
      assert Collide(s, t, [], s[|t|..]);
    }
    forall x, y | Collide(s, t, x, y) ensures s <= t || t <= s {
      OneOpensTheOther(s, x, t, y);
    }
  }

  /** With a bar in a chain-id they can be made to, exactly for two message strings of which one opens the other. */
  lemma PurposesCollideExactly(p: Purpose, q: Purpose)
    requires p != q
    ensures (exists x, y :: Collide(Tag(p), Tag(q), x, y)) <==>
      BothMessages(p, q) && (p.chain + [BAR] <= q.chain || q.chain + [BAR] <= p.chain)
  {
    CollideExactly(Tag(p), Tag(q));
    if BothMessages(p, q) {
      MessagePrefixExactly(p.chain, q.chain);
      MessagePrefixExactly(q.chain, p.chain);
    } else {
      PrefixFree(p, q);
      PrefixFree(q, p);
    }
  }

  lemma OneOpensTheOther(s: bytes, x: bytes, t: bytes, y: bytes)
    requires s + x == t + y
    ensures s <= t || t <= s
  {
    if |s| <= |t| {
      assert s == (s + x)[..|s|] == t[..|s|];
    } else {
      assert t == (t + y)[..|t|] == s[..|t|];
    }
  }

  /** The chain-ids "a" and "a|b" are such a pair. */
  lemma BarInChainIdCollides()
    ensures exists x, y :: Collide(Tag(Message(Ascii("a"))), Tag(Message(Ascii("a|b"))), x, y)
  {
    var c, d := Ascii("a"), Ascii("a|b");
    assert c + [BAR] == d[..2];
    PurposesCollideExactly(Message(c), Message(d));
  }

  /** v1 sign-bytes start with a reserved string only at the one length where they can. */
  lemma V1CarriesNoTag(p: Purpose, b0: bytes, auth: bytes)
    requires Tag(p) <= V1(b0, auth)
    ensures |b0| % TWO_32 == QORE
  {
    TagBytes(p);
    assert V1(b0, auth)[..4] == Tag(p)[..4];
    V1StartsWithQore(b0, auth);
  }

  /** A v1 string that starts with a reserved string. */
  ghost predicate Carries(p: Purpose, b0: bytes, auth: bytes) {
    Tag(p) <= V1(b0, auth)
  }

  /** At that length every reserved string is carried by some v1 string, and at no other length is any. */
  lemma V1CarriesTagExactly(p: Purpose, n: nat)
    requires n < TWO_32
    ensures (exists b0, auth :: |b0| % TWO_32 == n && Carries(p, b0, auth)) <==> n == QORE
  {
    forall b0, auth | Carries(p, b0, auth) ensures |b0| % TWO_32 == QORE {
      V1CarriesNoTag(p, b0, auth);
    }
    if n == QORE {
      TagBytes(p);
      TagAsLength(Tag(p));
      BEOfVal(Tag(p)[..4]);
      var b0, auth := V1Carries(Tag(p), QORE);
      assert |b0| % TWO_32 == n && Carries(p, b0, auth);
    }
  }

  /** With both bodies in range, it takes room behind them for what is left of a very long message string. */
  lemma V1CarriesTagInRangeExactly(p: Purpose)
    ensures (exists b0, auth :: CarriedInRange(Tag(p), b0, auth)) <==> Fits(Tag(p), QORE)
    ensures |Tag(p)| <= QORE + 4 ==> exists b0 :: |b0| == QORE && Carries(p, b0, [])
  {
    TagBytes(p);
    TagAsLength(Tag(p));
    BEOfVal(Tag(p)[..4]);
    V1CarriesInRangeExactly(Tag(p), QORE);
    if |Tag(p)| <= QORE + 4 {
      var b0, auth := V1CarriesInRange(Tag(p), QORE);
      assert Carries(p, b0, []);
    }
  }

  lemma TaggedOpens(tag: bytes, t: bytes, chain: bytes, b0: bytes, auth: bytes)
    ensures tag <= Tagged(tag, chain, b0, auth)
    ensures t <= Tagged(tag, chain, b0, auth) ==> t <= tag || tag <= t
  {
    var s, tail := Tagged(tag, chain, b0, auth), Field(8, chain) + V1(b0, auth);
    Assoc(tag, Field(8, chain), V1(b0, auth));
    if t <= s {
      assert s == t + s[|t|..];
      OneOpensTheOther(t, s[|t|..], tag, tail);
    }
  }

  /** v2 sign-bytes start with their own reserved string and with no other. */
  lemma V2CarriesItsTagOnly(p: Purpose, chain: bytes, b0: bytes, auth: bytes)
    ensures Tag(p) <= V2(chain, b0, auth) <==> p == HybridTransaction
  {
    TaggedOpens(DOMAIN, Tag(p), chain, b0, auth);
    if p != HybridTransaction {
      PrefixFree(p, HybridTransaction);
      PrefixFree(HybridTransaction, p);
    }
  }
}
