/**
 The Go, Rust, JavaScript, Python and Java builders, each in its own form, each
 proved to produce the specified bytes, and the agreement of all six bindings.
 */
module GrowableBuilders {
  import opened Bytes
  import opened SignBytes

  /** A Go slice or Rust Vec: a backing array, of which the first `len` bytes are in use. */
  class GrowBuffer {
    var data: array<byte>
    var len: nat

    ghost predicate Valid()
      reads this
    {
      len <= data.Length
    }

    function Contents(): bytes
      requires Valid()
      reads this, data
    {
      data[..len]
    }

    constructor (capacity: nat)
      ensures Valid() && fresh(data) && data.Length == capacity && Contents() == []
    {
      data := new byte[capacity];
      len := 0;
    }

    /** Appends in place when there is room, and in a larger array otherwise. */
    method Append(src: bytes)
      requires Valid()
      modifies this, data
      ensures Valid() && Contents() == old(Contents()) + src
      ensures old(len) + |src| <= old(data.Length) ==> data == old(data)
      ensures data == old(data) || fresh(data)
    {
      if len + |src| > data.Length {
        var bigger := new byte[2 * data.Length + |src|];
        forall i | 0 <= i < len {
          bigger[i] := data[i];
        }
        data := bigger;
        assert data[..len] == old(data[..len]);
      }
      var d, at := data, len;
      forall i | 0 <= i < |src| {
        d[at + i] := src[i];
      }
      len := len + |src|;
      assert data[..len] == old(Contents()) + src;
    }
  }

  /** Built without growing: the capacity was exactly what the bytes need. */
  ghost predicate ExactFit(b: GrowBuffer, want: bytes)
    reads b, b.data
  {
    b.Valid() && b.len == b.data.Length && b.Contents() == want
  }

  /** The four appends that both forms end with. */
  method AppendBodies(out: GrowBuffer, b0: bytes, auth: bytes)
    requires out.Valid()
    modifies out, out.data
    ensures out.Valid() && out.Contents() == old(out.Contents()) + V1(b0, auth)
    ensures old(out.len) + |V1(b0, auth)| <= old(out.data.Length) ==> out.data == old(out.data)
    ensures out.data == old(out.data) || fresh(out.data)
  {
    BE32Wraps(|b0|);
    BE32Wraps(|auth|);
    V1Layout(b0, auth);
    ghost var before := out.Contents();
    out.Append(BE(4, |b0| % TWO_32));
    out.Append(b0);
    out.Append(BE(4, |auth| % TWO_32));
    out.Append(auth);
    Regroup(before, BE(4, |b0|), b0, BE(4, |auth|), auth);
  }

  /** Go HybridSignBytesV1, and Rust hybrid_sign_bytes_v1 with the same steps. */
  method GrowV1(b0: bytes, auth: bytes) returns (out: GrowBuffer)
    ensures fresh(out) && fresh(out.data) && ExactFit(out, V1(b0, auth))
  {
    out := new GrowBuffer(8 + |b0| + |auth|);
    AppendBodies(out, b0, auth);
    assert [] + V1(b0, auth) == V1(b0, auth);
  }

  /** Go HybridSignBytesV2: every part appended in turn; the chain-id is not checked. */
  method GoV2(chain: bytes, b0: bytes, auth: bytes) returns (out: GrowBuffer)
    ensures fresh(out) && fresh(out.data) && ExactFit(out, V2(chain, b0, auth))
  {
    var tag := DOMAIN;
    out := new GrowBuffer(|tag| + 8 + |chain| + 8 + |b0| + |auth|);
    TaggedLayout(tag, chain, b0, auth);
    out.Append(tag);
    assert out.Contents() == tag;
    out.Append(BE(8, |chain|));
    out.Append(chain);
    AppendBodies(out, b0, auth);
  }

  /** Rust hybrid_sign_bytes_v2: the v1 form is built first and appended whole. */
  method RustV2(chain: bytes, b0: bytes, auth: bytes) returns (out: GrowBuffer)
    ensures fresh(out) && fresh(out.data) && ExactFit(out, V2(chain, b0, auth))
  {
    var tag := DOMAIN;
    out := new GrowBuffer(|tag| + 8 + |chain| + 8 + |b0| + |auth|);
    TaggedLayout(tag, chain, b0, auth);
    out.Append(tag);
    assert out.Contents() == tag;
    out.Append(BE(8, |chain|));
    out.Append(chain);
    var v1 := GrowV1(b0, auth);
    out.Append(v1.Contents());
  }

  /** Go HybridSignBytes, the checked entry point. */
  method GoHybridSignBytes(version: Version, chain: bytes, b0: bytes, auth: bytes) returns (out: Result<bytes>)
    ensures out == Build(version, chain, b0, auth)
  {
    match version
    case FormV1 =>
      var b := GrowV1(b0, auth);
      out := Success(b.Contents());
    case FormV2 =>
      if chain == [] {
        return Failure;
      }
      var b := GoV2(chain, b0, auth);
      out := Success(b.Contents());
    case Other(_) =>
      out := Failure;
  }

  /** Rust try_hybrid_sign_bytes: its version type has no other value. */
  method RustTryHybridSignBytes(version: Version, chain: bytes, b0: bytes, auth: bytes) returns (out: Result<bytes>)
    requires !version.Other?
    ensures out == Build(version, chain, b0, auth)
  {
    if version.FormV1? {
      var b := GrowV1(b0, auth);
      out := Success(b.Contents());
    } else if chain == [] {
      out := Failure;
    } else {
      var b := RustV2(chain, b0, auth);
      out := Success(b.Contents());
    }
  }
}

module JsBuilders {
  import opened Bytes
  import opened SignBytes

  function Total(parts: seq<bytes>): nat {
    if parts == [] then 0 else Total(parts[..|parts| - 1]) + |parts[|parts| - 1]|
  }

  lemma {:induction false} TotalIsLength(parts: seq<bytes>)
    ensures Total(parts) == |Flat(parts)|
  {
    if parts != [] {
      var before := parts[..|parts| - 1];
      TotalIsLength(before);
      FlatAppend(before, parts[|parts| - 1]);
      assert parts == before + [parts[|parts| - 1]];
    }
  }

  /** Sizes first, then each part copied behind the one before. */
  method Concat(parts: seq<bytes>) returns (out: array<byte>)
    ensures fresh(out) && out[..] == Flat(parts)
  {
    var total := 0;
    for i := 0 to |parts|
      invariant total == Total(parts[..i])
    {
      assert parts[..i + 1][..i] == parts[..i];
      total := total + |parts[i]|;
    }
    assert parts[..|parts|] == parts;
    TotalIsLength(parts);
    out := new byte[total];
    var o := 0;
    for i := 0 to |parts|
      invariant o == |Flat(parts[..i])| <= out.Length
      invariant out[..o] == Flat(parts[..i])
    {
      var p := parts[i];
      FlatAppend(parts[..i], p);
      assert parts[..i + 1] == parts[..i] + [p];
      FlatPrefix(parts, i + 1);
      forall k | 0 <= k < |p| {
        out[o + k] := p[k];
      }
      assert out[..o + |p|] == Flat(parts[..i]) + p;
      o := o + |p|;
    }
    assert out[..o] == out[..];
  }

  method HybridSignBytesV1(b0: bytes, auth: bytes) returns (out: array<byte>)
    ensures fresh(out) && out[..] == V1(b0, auth)
  {
    BE32Wraps(|b0|);
    BE32Wraps(|auth|);
    FlatOfFour(BE(4, |b0|), b0, BE(4, |auth|), auth);
    V1Layout(b0, auth);
    out := Concat([BE(4, |b0| % TWO_32), b0, BE(4, |auth| % TWO_32), auth]);
  }

  method HybridSignBytesV2(chain: bytes, b0: bytes, auth: bytes) returns (out: Result<bytes>)
    ensures out == if chain == [] then Failure else Success(V2(chain, b0, auth))
  {
    if |chain| == 0 {
      return Failure;
    }
    var tag := DOMAIN;
    BE32Wraps(|b0|);
    BE32Wraps(|auth|);
    FlatOfSeven(tag, BE(8, |chain|), chain, BE(4, |b0|), b0, BE(4, |auth|), auth);
    var a := Concat([tag, BE(8, |chain|), chain, BE(4, |b0| % TWO_32), b0, BE(4, |auth| % TWO_32), auth]);
    V1Layout(b0, auth);
    TaggedLayout(tag, chain, b0, auth);
    out := Success(a[..]);
  }

  method HybridSignBytes(version: Version, chain: bytes, b0: bytes, auth: bytes) returns (out: Result<bytes>)
    ensures out == Build(version, chain, b0, auth)
  {
    match version
    case FormV2 =>
      out := HybridSignBytesV2(chain, b0, auth);
    case FormV1 =>
      var a := HybridSignBytesV1(b0, auth);
      out := Success(a[..]);
    case Other(_) =>
      out := Failure;
  }
}

module PythonBuilders {
  import opened Bytes
  import opened SignBytes

  /** struct.pack raises when the number does not fit the format. */
  function Pack(k: nat, n: nat): Result<bytes> {
    if n < Pow256(k) then Success(BE(k, n)) else Failure
  }

  function HybridSignBytesV1(b0: bytes, auth: bytes): Result<bytes> {
    match (Pack(4, |b0|), Pack(4, |auth|))
    case (Success(l0), Success(l1)) => Success(l0 + b0 + l1 + auth)
    case _ => Failure
  }

  function HybridSignBytesV2(chain: bytes, b0: bytes, auth: bytes): Result<bytes> {
    if chain == [] then Failure
    else
      match (Pack(8, |chain|), HybridSignBytesV1(b0, auth))
      case (Success(l), Success(v1)) => Success(DOMAIN + l + chain + v1)
      case _ => Failure
  }

  function HybridSignBytes(version: Version, chain: bytes, b0: bytes, auth: bytes): Result<bytes> {
    match version
    case FormV2 => HybridSignBytesV2(chain, b0, auth)
    case FormV1 => HybridSignBytesV1(b0, auth)
    case Other(_) => Failure
  }

  predicate Packable(version: Version, chain: bytes, b0: bytes, auth: bytes) {
    |b0| < TWO_32 && |auth| < TWO_32 && (version == FormV2 ==> |chain| < TWO_64)
  }

  /** The same bytes where the lengths fit, and an error where the other bindings would truncate. */
  lemma PythonBuilds(version: Version, chain: bytes, b0: bytes, auth: bytes)
    ensures HybridSignBytes(version, chain, b0, auth) ==
      if Packable(version, chain, b0, auth) then Build(version, chain, b0, auth) else Failure
  {
    Pow256Widths();
    V1Layout(b0, auth);
    TaggedLayout(DOMAIN, chain, b0, auth);
  }

  /** So its v1 form is injective with no bound on the inputs. */
  lemma PythonV1Injective(b0: bytes, auth: bytes, b0': bytes, auth': bytes)
    requires HybridSignBytesV1(b0, auth).Success?
    requires HybridSignBytesV1(b0, auth) == HybridSignBytesV1(b0', auth')
    ensures b0 == b0' && auth == auth'
  {
    PythonBuilds(FormV1, [], b0, auth);
    PythonBuilds(FormV1, [], b0', auth');
    V1PrefixFree(b0, auth, b0', auth', [], []);
  }
}

module JavaBuilders {
  import opened Bytes
  import opened SignBytes

  const TWO_31: nat := 0x8000_0000

  /** Java int arithmetic wraps around. */
  function ToInt(x: int): (i: int)
    ensures -0x8000_0000 <= i < 0x8000_0000
    ensures (x - i) % 0x1_0000_0000 == 0
  {
    (x + TWO_31) % TWO_32 - TWO_31
  }

  /** java.nio.ByteBuffer, as far as the builders use it. */
  class ByteBuffer {
    const data: array<byte>
    var position: nat

    constructor (capacity: nat)
      ensures fresh(data) && data.Length == capacity && position == 0
    {
      data := new byte[capacity];
      position := 0;
    }

    /** Puts the bytes, or throws BufferOverflowException and puts nothing. */
    method Put(src: bytes) returns (ok: bool)
      requires position <= data.Length
      modifies this, data
      ensures position <= data.Length
      ensures ok <==> old(position) + |src| <= data.Length
      ensures position == old(position) + if ok then |src| else 0
      ensures data[..position] == old(data[..position]) + if ok then src else []
    {
      ok := |src| <= data.Length - position;
      if ok {
        var d, at := data, position;
        forall i | 0 <= i < |src| {
          d[at + i] := src[i];
        }
        position := position + |src|;
      }
    }
  }

  /** All the parts in turn; the first overflow is the exception that leaves the builder. */
  method PutAll(capacity: int, parts: seq<bytes>) returns (out: Result<bytes>)
    ensures out.Success? <==> 0 <= capacity && |Flat(parts)| <= capacity
    ensures out.Success? && capacity == |Flat(parts)| ==> out.value == Flat(parts)
  {
    if capacity < 0 {
      return Failure;
    }
    var buf := new ByteBuffer(capacity);
    ghost var rest := parts;
    assert Flat([]) == [];
    for i := 0 to |parts|
      invariant buf.position <= buf.data.Length
      invariant fresh(buf) && fresh(buf.data)
      invariant buf.data[..buf.position] == Flat(parts[..i])
    {
      FlatAppend(parts[..i], parts[i]);
      assert parts[..i + 1] == parts[..i] + [parts[i]];
      FlatPrefix(parts, i + 1);
      var ok := buf.Put(parts[i]);
      if !ok {
        return Failure;
      }
    }
    assert parts[..|parts|] == parts;
    out := Success(buf.data[..]);
  }

  /** Wrapping the total either makes it negative or leaves too little room. */
  lemma WrappedTotal(total: nat)
    requires total < 2 * TWO_32
    ensures 0 <= ToInt(total) && total <= ToInt(total) <==> total < TWO_31
    ensures total < TWO_31 ==> ToInt(total) == total
  {
  }

  /** Additions that wrap one by one wrap like their sum. */
  lemma WrapsOnce(x: int, y: int)
    ensures ToInt(ToInt(x) + y) == ToInt(x + y)
  {
    var k := (x + TWO_31) / TWO_32;
    assert ToInt(x) == x - k * TWO_32;
    assert (x + y + TWO_31 - k * TWO_32) % TWO_32 == (x + y + TWO_31) % TWO_32;
  }

  /** Every Java array is shorter than 2^31. The builder succeeds exactly when the whole is, too. */
  method HybridSignBytesV1(b0: bytes, auth: bytes) returns (out: Result<bytes>)
    requires |b0| < TWO_31 && |auth| < TWO_31
    ensures out == if |V1(b0, auth)| < TWO_31 then Success(V1(b0, auth)) else Failure
  {
    FlatOfFour(BE(4, |b0|), b0, BE(4, |auth|), auth);
    V1Layout(b0, auth);
    WrappedTotal(8 + |b0| + |auth|);
    WrapsOnce(8 + |b0|, |auth|);
    out := PutAll(ToInt(ToInt(8 + |b0|) + |auth|), [BE(4, |b0|), b0, BE(4, |auth|), auth]);
  }

  lemma TaggedCapacity(tag: bytes, chain: bytes, b0: bytes, auth: bytes) returns (total: nat)
    requires |tag| < 64 && |chain| < TWO_31 && |b0| < TWO_31 && |auth| < TWO_31
    ensures total == |Tagged(tag, chain, b0, auth)| == |tag| + 16 + |chain| + |b0| + |auth|
    ensures ToInt(ToInt(ToInt(|tag| + 8 + |chain|) + (8 + |b0|)) + |auth|) == ToInt(total)
    ensures 0 <= ToInt(total) && total <= ToInt(total) <==> total < TWO_31
    ensures total < TWO_31 ==> ToInt(total) == total
  {
    total := |tag| + 8 + |chain| + (8 + |b0|) + |auth|;
    WrapsOnce(|tag| + 8 + |chain|, 8 + |b0|);
    WrapsOnce(|tag| + 8 + |chain| + (8 + |b0|), |auth|);
    WrappedTotal(total);
  }

  lemma FlatTagged(tag: bytes, chain: bytes, b0: bytes, auth: bytes)
    ensures Flat([tag, BE(8, |chain|), chain, BE(4, |b0|), b0, BE(4, |auth|), auth]) == Tagged(tag, chain, b0, auth)
  {
    FlatOfSeven(tag, BE(8, |chain|), chain, BE(4, |b0|), b0, BE(4, |auth|), auth);
    V1Layout(b0, auth);
    TaggedLayout(tag, chain, b0, auth);
  }

  /** The ByteBuffer part of hybridSignBytesV2. */
  method PutTagged(tag: bytes, chain: bytes, b0: bytes, auth: bytes) returns (out: Result<bytes>)
    requires |tag| < 64 && |chain| < TWO_31 && |b0| < TWO_31 && |auth| < TWO_31
    ensures out == if |Tagged(tag, chain, b0, auth)| < TWO_31 then Success(Tagged(tag, chain, b0, auth)) else Failure
  {
    ghost var total := TaggedCapacity(tag, chain, b0, auth);
    FlatTagged(tag, chain, b0, auth);
    out := PutAll(ToInt(ToInt(ToInt(|tag| + 8 + |chain|) + (8 + |b0|)) + |auth|),
                  [tag, BE(8, |chain|), chain, BE(4, |b0|), b0, BE(4, |auth|), auth]);
  }

  method HybridSignBytesV2(chain: bytes, b0: bytes, auth: bytes) returns (out: Result<bytes>)
    requires |chain| < TWO_31 && |b0| < TWO_31 && |auth| < TWO_31
    ensures out == if chain != [] && |V2(chain, b0, auth)| < TWO_31
                   then Success(V2(chain, b0, auth)) else Failure
  {
    if chain == [] {
      return Failure;
    }
    DomainStartsWithQore();
    out := PutTagged(DOMAIN, chain, b0, auth);
  }

  method HybridSignBytes(version: Version, chain: bytes, b0: bytes, auth: bytes) returns (out: Result<bytes>)
    requires |chain| < TWO_31 && |b0| < TWO_31 && |auth| < TWO_31
    ensures var want := Build(version, chain, b0, auth);
      out == if want.Success? && |want.value| < TWO_31 then want else Failure
  {
    match version
    case FormV1 => out := HybridSignBytesV1(b0, auth);
    case FormV2 => out := HybridSignBytesV2(chain, b0, auth);
    case Other(_) => out := Failure;
  }
}

module Agreement {
  import opened Bytes
  import opened SignBytes
  import C = CBuilders
  import Grow = GrowableBuilders
  import Js = JsBuilders
  import Py = PythonBuilders
  import Java = JavaBuilders

  predicate JavaHolds(chain: bytes, b0: bytes, auth: bytes) {
    |chain| < 0x8000_0000 && |b0| < 0x8000_0000 && |auth| < 0x8000_0000
  }

  /**
   One request put to the checked entry points of all six bindings: the same answer
   from the four that cast lengths, whatever the lengths; from Python unless a
   length does not fit its prefix, where it raises; from Java, whose arrays hold
   fewer than 2^31 bytes, unless the result does not fit one. Where Python answers,
   the inputs can be read back.
   */
  method SameBytesEverywhere(version: int, chain: bytes, b0: bytes, auth: bytes)
      returns (c: Result<bytes>, go: Result<bytes>, rust: Result<bytes>, js: Result<bytes>, py: Result<bytes>, java: Result<bytes>)
    requires C.FitsSizeT(chain, b0, auth)
    ensures c == go == rust == js == Build(C.VersionOf(version), chain, b0, auth)
    ensures version == 1 ==> c == Success(V1(b0, auth))
    ensures version == 2 && chain != [] ==> c == Success(V2(chain, b0, auth))
    ensures version == 2 && chain != [] ==>
      c.value[..23] == [113, 111, 114, 101, 99, 104, 97, 105, 110, 45, 112, 113, 99, 45, 104, 121, 98, 114, 105, 100, 45, 118, 50]
    ensures version == 2 && chain == [] ==> c == Failure
    ensures version != 1 && version != 2 ==> c == Failure
    ensures py == if |b0| < 0x1_0000_0000 && |auth| < 0x1_0000_0000 then c else Failure
    ensures JavaHolds(chain, b0, auth) ==> java == if c.Success? && |c.value| < 0x8000_0000 then c else Failure
    ensures py.Success? && version == 1 ==> ParseV1(c.value) == Some((b0, auth, []))
    ensures py.Success? && version == 2 ==> ParseV2(c.value) == Some((chain, b0, auth, []))
  {
    V2Written(chain, b0, auth);
    var v := C.VersionOf(version);
    var rc, buf := C.HybridSignBytes(version, Some(chain), b0, auth);
    c := if buf == null then Failure else Success(buf.data[..]);
    go := Grow.GoHybridSignBytes(v, chain, b0, auth);
    if v.Other? {
      rust := Failure;
    } else {
      rust := Grow.RustTryHybridSignBytes(v, chain, b0, auth);
    }
    js := Js.HybridSignBytes(v, chain, b0, auth);
    py := Py.HybridSignBytes(v, chain, b0, auth);
    Py.PythonBuilds(v, chain, b0, auth);
    java := Failure;
    if JavaHolds(chain, b0, auth) {
      java := Java.HybridSignBytes(v, chain, b0, auth);
    }
    V1ReadsBackExactly(b0, auth);
    V2ReadsBackExactly(chain, b0, auth);
  }

  /** The unchecked v2 builders of Go and Rust agree too, an empty chain-id included. */
  method SameUncheckedBytes(chain: bytes, b0: bytes, auth: bytes) returns (go: bytes, rust: bytes)
    ensures go == rust == V2(chain, b0, auth)
  {
    var g := Grow.GoV2(chain, b0, auth);
    var r := Grow.RustV2(chain, b0, auth);
    go, rust := g.Contents(), r.Contents();
  }
}
