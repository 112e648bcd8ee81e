/**
 The C builders: a buffer of the computed size, filled through offsets.

 The buffer counts how often each of its bytes is written, so that "filled" can
 say that every byte was written exactly once.
 */
module CBuilders {
  import opened Bytes
  import opened SignBytes

  const QPQC_OK := 0
  const QPQC_ERR := -1

  class Buffer {
    const data: array<byte>
    ghost var writes: seq<nat>

    /** A malloc'd buffer of that size. */
    constructor (size: nat)
      ensures fresh(data) && data.Length == size
      ensures Filled([])
    {
      data := new byte[size];
      writes := seq(size, _ => 0);
    }

    /** `done` is in place, each of its bytes written once; the rest is untouched. */
    ghost predicate Filled(done: bytes)
      reads this, data
    {
      && |writes| == data.Length
      && |done| <= data.Length
      && data[..|done|] == done
      && (forall i :: 0 <= i < |done| ==> writes[i] == 1)
      && (forall i :: |done| <= i < data.Length ==> writes[i] == 0)
    }

    method Store(i: nat, b: byte)
      requires i < data.Length && |writes| == data.Length
      modifies this, data
      ensures data[..] == old(data[..])[i := b]
      ensures writes == old(writes)[i := old(writes)[i] + 1]
    {
      data[i] := b;
      writes := writes[i := writes[i] + 1];
    }

    /** memcpy to an offset. */
    method Copy(o: nat, src: bytes, ghost done: bytes)
      requires Filled(done) && o == |done| && o + |src| <= data.Length
      modifies this, data
      ensures Filled(done + src)
    {
      var i := 0;
      while i < |src|
        invariant 0 <= i <= |src|
        invariant Filled(done + src[..i])
      {
        Store(o + i, src[i]);
        assert data[..o + i + 1] == old(data[..o]) + src[..i] + [src[i]];
        assert src[..i + 1] == src[..i] + [src[i]];
        i := i + 1;
      }
      assert src[..i] == src;
    }

    /** `n` has already been cast to 32 bits. */
    method Be32(o: nat, n: nat, ghost done: bytes)
      requires n < TWO_32
      requires Filled(done) && o == |done| && o + 4 <= data.Length
      modifies this, data
      ensures Filled(done + BE(4, n))
    {
      Store(o, n / 0x100_0000 % 256);
      Store(o + 1, n / 0x1_0000 % 256);
      Store(o + 2, n / 0x100 % 256);
      Store(o + 3, n % 256);
      BE4Digits(n);
      assert data[..o + 4] == old(data[..o]) + data[o..o + 4];
    }

    /** The descending loop; what is left of `n` at the end is zero. */
    method Be64(o: nat, n: nat, ghost done: bytes) returns (left: nat)
      requires n < TWO_64
      requires Filled(done) && o == |done| && o + 8 <= data.Length
      modifies this, data
      ensures Filled(done + BE(8, n))
      ensures left == 0
    {
      Pow256Widths();
      left := n;
      var i := 7;
      while i >= 0
        invariant -1 <= i <= 7
        invariant left < Pow256(i + 1)
        invariant |writes| == data.Length
        invariant data[..o] == done
        invariant BE(8, n) == BE(i + 1, left) + data[o + i + 1..o + 8]
        invariant forall k :: 0 <= k < data.Length ==>
          writes[k] == if k < o || o + i < k < o + 8 then 1 else 0
        decreases i + 1
      {
        ghost var tail := data[o + i + 1..o + 8];
        Store(o + i, left % 256);
        assert data[o + i..o + 8] == [left % 256] + tail;
        left := left / 256;
        i := i - 1;
      }
      assert data[..o + 8] == done + data[o..o + 8];
    }
  }

  /** Sizes that a C caller can have: the total is counted in a 64-bit size_t. */
  predicate FitsSizeT(chain: bytes, b0: bytes, auth: bytes) {
    |DOMAIN| + 8 + |chain| + 8 + |b0| + |auth| < TWO_64
  }

  /** qpqc_hybrid_sign_bytes_v1 */
  method HybridSignBytesV1(b0: bytes, auth: bytes) returns (rc: int, out: Buffer?)
    requires FitsSizeT([], b0, auth)
    ensures rc == QPQC_OK && out != null && fresh(out) && fresh(out.data)
    ensures out.Filled(V1(b0, auth)) && out.data.Length == |V1(b0, auth)|
  {
    var total := 8 + |b0| + |auth|;
    var buf := new Buffer(total);
    BE32Wraps(|b0|);
    BE32Wraps(|auth|);
    V1Layout(b0, auth);
    buf.Be32(0, |b0| % TWO_32, []);
    ghost var done := BE(4, |b0|);
    assert [] + done == done;
    buf.Copy(4, b0, done);
    done := done + b0;
    buf.Be32(4 + |b0|, |auth| % TWO_32, done);
    done := done + BE(4, |auth|);
    buf.Copy(8 + |b0|, auth, done);
    rc, out := QPQC_OK, buf;
  }

  /** qpqc_hybrid_sign_bytes_v2 */
  method HybridSignBytesV2(chain: Option<bytes>, b0: bytes, auth: bytes) returns (rc: int, out: Buffer?)
    requires FitsSizeT(if chain.Some? then chain.value else [], b0, auth)
    ensures chain.None? || chain.value == [] ==> rc == QPQC_ERR && out == null
    ensures chain.Some? && chain.value != [] ==>
      && rc == QPQC_OK && out != null && fresh(out) && fresh(out.data)
      && out.Filled(V2(chain.value, b0, auth)) && out.data.Length == |V2(chain.value, b0, auth)|
  {
    if chain.None? || |chain.value| == 0 {
      return QPQC_ERR, null;
    }
    var cid, tag := chain.value, DOMAIN;
    var dl := |tag|;
    var total := dl + 8 + |cid| + 8 + |b0| + |auth|;
    var buf := new Buffer(total);
    BE32Wraps(|b0|);
    BE32Wraps(|auth|);
    TaggedLayout(tag, cid, b0, auth);
    assert [] + tag == tag;
    var o := 0;
    buf.Copy(o, tag, []);
    o := o + dl;
    ghost var done := [] + tag;
    var _ := buf.Be64(o, |cid|, done);
    o := o + 8;
    done := done + BE(8, |cid|);
    buf.Copy(o, cid, done);
    o := o + |cid|;
    done := done + cid;
    buf.Be32(o, |b0| % TWO_32, done);
    o := o + 4;
    done := done + BE(4, |b0|);
    buf.Copy(o, b0, done);
    o := o + |b0|;
    done := done + b0;
    buf.Be32(o, |auth| % TWO_32, done);
    o := o + 4;
    done := done + BE(4, |auth|);
    buf.Copy(o, auth, done);
    rc, out := QPQC_OK, buf;
  }

  function VersionOf(v: int): Version {
    if v == 1 then FormV1 else if v == 2 then FormV2 else Other(v)
  }

  /** qpqc_hybrid_sign_bytes: the version is required, and every other number is an error. */
  method HybridSignBytes(version: int, chain: Option<bytes>, b0: bytes, auth: bytes) returns (rc: int, out: Buffer?)
    requires FitsSizeT(if chain.Some? then chain.value else [], b0, auth)
    ensures var want := Build(VersionOf(version), if chain.Some? then chain.value else [], b0, auth);
      && (want.Failure? ==> rc == QPQC_ERR && out == null)
      && (want.Success? ==> rc == QPQC_OK && out != null && out.Filled(want.value) && out.data[..] == want.value)
  {
    if version == 1 {
      rc, out := HybridSignBytesV1(b0, auth);
    } else if version == 2 {
      rc, out := HybridSignBytesV2(chain, b0, auth);
    } else {
      rc, out := QPQC_ERR, null;
    }
  }
}
