/**
 Bytes, byte strings and big-endian numbers.

 `BE` and `Val` are the two directions of the big-endian notation every length
 prefix of the library is written in; the lemmas say that they undo each other
 and that comparing the bytes is comparing the numbers.
 */
module Bytes {

  type byte = x: int | 0 <= x < 256

  type bytes = seq<byte>

  datatype Option<+T> = None | Some(value: T)

  datatype Result<+T> = Success(value: T) | Failure

  const TWO_32: nat := 0x1_0000_0000
  const TWO_64: nat := 0x1_0000_0000_0000_0000

  function Pow256(k: nat): (p: nat)
    ensures p > 0
  {
    if k == 0 then 1 else 256 * Pow256(k - 1)
  }

  lemma Pow256Widths()
    ensures Pow256(4) == TWO_32
    ensures Pow256(8) == TWO_64
  {
    assert Pow256(2) == 0x1_0000;
    assert Pow256(4) == TWO_32;
    assert Pow256(6) == 0x1_0000_0000_0000;
  }

  /** The k low-order base-256 digits of n, most significant first. */
  function BE(k: nat, n: nat): (s: seq<byte>)
    ensures |s| == k
  {
    if k == 0 then [] else BE(k - 1, n / 256) + [n % 256]
  }

  /** The number a byte string denotes, most significant byte first. */
  function Val(s: seq<byte>): nat
  {
    if s == [] then 0 else 256 * Val(s[..|s| - 1]) + s[|s| - 1]
  }

  lemma Shifts(n: nat)
    ensures n / 256 / 256 == n / 0x1_0000 && n / 256 / 256 / 256 == n / 0x100_0000
    ensures n / 256 / 256 / 256 / 256 == n / TWO_32
  {
  }

  /** Four bytes, shifted out one by one. */
  lemma BE4Digits(n: nat)
    ensures BE(4, n) == [n / 0x100_0000 % 256, n / 0x1_0000 % 256, n / 0x100 % 256, n % 256]
  {
    var a := n / 256;
    var b := a / 256;
    var c := b / 256;
    Shifts(n);
    assert BE(1, c) == BE(0, c / 256) + [c % 256] == [c % 256];
    assert BE(2, b) == BE(1, c) + [b % 256] == [c % 256, b % 256];
    assert BE(3, a) == BE(2, b) + [a % 256] == [c % 256, b % 256, a % 256];
    assert BE(4, n) == BE(3, a) + [n % 256] == [c % 256, b % 256, a % 256, n % 256];
  }

  lemma {:induction false} BESplits(k: nat, j: nat, n: nat)
    ensures BE(k + j, n) == BE(k, Rest(j, n)) + BE(j, n)
  {
    if j > 0 {
      BESplits(k, j - 1, n / 256);
      assert BE(k, Rest(j, n)) + BE(j - 1, n / 256) + [n % 256] == BE(k, Rest(j, n)) + BE(j, n);
    } else {
      assert BE(k, n) + [] == BE(k, n);
    }
  }

  /** Eight bytes: the upper half's four and the lower half's. */
  lemma BE8Digits(n: nat)
    ensures BE(8, n) == BE(4, n / TWO_32) + BE(4, n)
  {
    BESplits(4, 4, n);
    assert Rest(4, n) == Rest(3, n / 256) == Rest(2, n / 256 / 256) == Rest(1, n / 256 / 256 / 256) == Rest(0, n / 256 / 256 / 256 / 256);
    Shifts(n);
  }

  lemma MultipleIsFar(m: int, d: int)
    requires 0 < m
    ensures d >= 1 ==> m * d >= m
    ensures d <= -1 ==> m * d <= -m
  {
    if d >= 1 {
      assert m * d == m + m * (d - 1);
    } else if d <= -1 {
      assert m * d == -m - m * (-1 - d);
    }
  }

  lemma RemainderIsUnique(n: nat, m: nat, q: nat, r: nat)
    requires r < m && n == m * q + r
    ensures n % m == r
  {
    var q', r' := n / m, n % m;
    assert n == m * q' + r' && 0 <= r' < m;
    assert m * (q - q') == m * q - m * q';
    MultipleIsFar(m, q - q');
  }

  /** What is left of n once its k low-order digits are written. */
  function Rest(k: nat, n: nat): nat
  {
    if k == 0 then n else Rest(k - 1, n / 256)
  }

  /** One more low digit. */
  lemma ShiftIn(p: nat, r: nat, v: nat, q: nat, d: nat)
    requires q == p * r + v && v < p && d < 256
    ensures 256 * q + d == (256 * p) * r + (256 * v + d)
    ensures 256 * v + d < 256 * p
  {
    assert (256 * p) * r == 256 * (p * r);
  }

  lemma LastDigit(k: nat, n: nat)
    requires k > 0
    ensures Val(BE(k, n)) == 256 * Val(BE(k - 1, n / 256)) + n % 256
  {
    assert BE(k, n)[..k - 1] == BE(k - 1, n / 256);
  }

  lemma {:induction false} DigitsAndRest(k: nat, n: nat)
    ensures Val(BE(k, n)) < Pow256(k)
    ensures n == Pow256(k) * Rest(k, n) + Val(BE(k, n))
  {
    if k > 0 {
      DigitsAndRest(k - 1, n / 256);
      var v := Val(BE(k - 1, n / 256));
      LastDigit(k, n);
      ShiftIn(Pow256(k - 1), Rest(k, n), v, n / 256, n % 256);
    }
  }

  /** Reading back what was written gives the number modulo the width. */
  lemma {:induction false} ValOfBE(k: nat, n: nat)
    ensures Val(BE(k, n)) == n % Pow256(k)
  {
    DigitsAndRest(k, n);
    RemainderIsUnique(n, Pow256(k), Rest(k, n), Val(BE(k, n)));
  }

  lemma ValOfBEInRange(k: nat, n: nat)
    requires n < Pow256(k)
    ensures Val(BE(k, n)) == n
  {
    ValOfBE(k, n);
  }

  /** Writing back what was read gives the bytes: the notation is unique. */
  lemma {:induction false} BEOfVal(s: seq<byte>)
    ensures Val(s) < Pow256(|s|)
    ensures BE(|s|, Val(s)) == s
  {
    if s != [] {
      BEOfVal(s[..|s| - 1]);
      assert Val(s) / 256 == Val(s[..|s| - 1]);
    }
  }

  /** Only the remainder is written. */
  lemma WritesAlike(k: nat, n: nat, m: nat)
    requires n % Pow256(k) == m % Pow256(k)
    ensures BE(k, n) == BE(k, m)
  {
    ValOfBE(k, n);
    ValOfBE(k, m);
    BEOfVal(BE(k, n));
    BEOfVal(BE(k, m));
  }

  /** A cast to 32 bits before writing four bytes changes nothing. */
  lemma BE32Wraps(n: nat)
    ensures BE(4, n % TWO_32) == BE(4, n)
  {
    Pow256Widths();
    WritesAlike(4, n % TWO_32, n);
  }

  lemma {:induction false} ValOfZeros(k: nat)
    ensures Val(Zeros(k)) == 0
  {
    if k > 0 {
      ValOfZeros(k - 1);
      assert Zeros(k)[..k - 1] == Zeros(k - 1);
    }
  }

  /** The first differing byte decides. */
  predicate LexLess(a: seq<byte>, b: seq<byte>)
    requires |a| == |b|
  {
    a != [] && (a[0] < b[0] || (a[0] == b[0] && LexLess(a[1..], b[1..])))
  }

  lemma DistributeDigit(x: nat, p: nat, v: nat)
    ensures 256 * (x * p + v) == x * (256 * p) + 256 * v
  {
  }

  lemma {:induction false} ValFromFront(s: seq<byte>)
    requires s != []
    ensures Val(s) == s[0] * Pow256(|s| - 1) + Val(s[1..])
  {
    if |s| > 1 {
      var p := s[..|s| - 1];
      ValFromFront(p);
      assert s[1..][..|s| - 2] == p[1..];
      DistributeDigit(s[0], Pow256(|s| - 2), Val(p[1..]));
    }
  }

  lemma LeadingDigitDecides(x: nat, y: nat, p: nat, u: nat, v: nat)
    requires x < y && u < p
    ensures x * p + u < y * p + v
  {
    assert (y - x - 1) * p >= 0;
    assert y * p == x * p + p + (y - x - 1) * p;
  }

  /** Byte order is number order, for strings of one width. */
  lemma {:induction false} LexOrderIsNumericOrder(a: seq<byte>, b: seq<byte>)
    requires |a| == |b|
    ensures LexLess(a, b) <==> Val(a) < Val(b)
  {
    if a != [] {
      ValFromFront(a);
      ValFromFront(b);
      BEOfVal(a[1..]);
      BEOfVal(b[1..]);
      var p := Pow256(|a| - 1);
      if a[0] < b[0] {
        LeadingDigitDecides(a[0], b[0], p, Val(a[1..]), Val(b[1..]));
      } else if b[0] < a[0] {
        LeadingDigitDecides(b[0], a[0], p, Val(b[1..]), Val(a[1..]));
      } else {
        LexOrderIsNumericOrder(a[1..], b[1..]);
      }
    }
  }

  /** Written at one width, the smaller number has the smaller bytes. */
  lemma WrittenInOrder(k: nat, m: nat, n: nat)
    requires m < Pow256(k) && n < Pow256(k)
    ensures LexLess(BE(k, m), BE(k, n)) <==> m < n
  {
    ValOfBEInRange(k, m);
    ValOfBEInRange(k, n);
    LexOrderIsNumericOrder(BE(k, m), BE(k, n));
  }

  /** The ASCII bytes of a string. */
  function Ascii(s: string): (b: seq<byte>)
    requires forall i :: 0 <= i < |s| ==> s[i] < '\U{0080}'
    ensures |b| == |s|
    ensures forall i :: 0 <= i < |s| ==> b[i] == s[i] as int
  {
    seq(|s|, i requires 0 <= i < |s| => var b: byte := s[i] as int; b)
  }

  function Zeros(n: nat): (z: seq<byte>)
    ensures |z| == n
    ensures forall i :: 0 <= i < n ==> z[i] == 0
  {
    seq(n, _ => 0)
  }

  lemma Assoc<T>(a: seq<T>, b: seq<T>, c: seq<T>)
    ensures a + b + c == a + (b + c)
  {
  }

  /** All the parts, one after the other. */
  function Flat(parts: seq<seq<byte>>): seq<byte>
  {
    if parts == [] then [] else parts[0] + Flat(parts[1..])
  }

  lemma {:induction false} FlatAppend(parts: seq<seq<byte>>, p: seq<byte>)
    ensures Flat(parts + [p]) == Flat(parts) + p
  {
    if parts == [] {
      assert parts + [p] == [p];
      assert Flat([p]) == p + Flat([]);
    } else {
      assert (parts + [p])[1..] == parts[1..] + [p];
      FlatAppend(parts[1..], p);
    }
  }

  lemma {:induction false} FlatPrefix(parts: seq<seq<byte>>, i: nat)
    requires i <= |parts|
    ensures |Flat(parts[..i])| <= |Flat(parts)|
  {
    if parts != [] && i > 0 {
      FlatPrefix(parts[1..], i - 1);
      assert parts[..i][1..] == parts[1..][..i - 1];
    }
  }

  lemma FlatOfFour(a: seq<byte>, b: seq<byte>, c: seq<byte>, d: seq<byte>)
    ensures Flat([a, b, c, d]) == a + b + c + d
  {
    assert Flat([d]) == d + Flat([]);
    assert Flat([c, d]) == c + Flat([d]);
    assert Flat([b, c, d]) == b + Flat([c, d]);
    assert Flat([a, b, c, d]) == a + Flat([b, c, d]);
  }

  lemma FlatOfSeven(x: seq<byte>, y: seq<byte>, z: seq<byte>, a: seq<byte>, b: seq<byte>, c: seq<byte>, d: seq<byte>)
    ensures Flat([x, y, z, a, b, c, d]) == x + y + z + (a + b + c + d)
  {
    FlatOfFour(a, b, c, d);
    assert Flat([z, a, b, c, d]) == z + Flat([a, b, c, d]);
    assert Flat([y, z, a, b, c, d]) == y + Flat([z, a, b, c, d]);
    assert Flat([x, y, z, a, b, c, d]) == x + Flat([y, z, a, b, c, d]);
  }
}
