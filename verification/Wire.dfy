/** Big-endian wire integers (byte_order.hpp).

    `Encode` and `Value` are the arithmetic meaning of a big-endian field.  The
    two loops of the source, which shift bytes in and out of a machine word,
    are the methods `ReadBigEndian` and `WriteBigEndian`. */
module Wire {
  import opened Basics

  function Pow256(n: nat): (p: nat)
    ensures p > 0
  {
    if n == 0 then 1 else 256 * Pow256(n - 1)
  }

  /** The number a big-endian byte string denotes. */
  function Value(s: Bytes): (v: nat)
    ensures v < Pow256(|s|)
  {
    if s == [] then 0 else Value(s[..|s| - 1]) * 256 + s[|s| - 1]
  }

  /** The low `n` bytes of `v`, most significant first. */
  function Encode(v: nat, n: nat): (s: Bytes)
    ensures |s| == n
  {
    if n == 0 then [] else Encode(v / 256, n - 1) + [v % 256]
  }

  lemma {:induction false} ValueOfEncode(v: nat, n: nat)
    requires v < Pow256(n)
    ensures Value(Encode(v, n)) == v
    decreases n
  {
    if n > 0 {
      ValueOfEncode(v / 256, n - 1);
      assert Encode(v, n)[..n - 1] == Encode(v / 256, n - 1);
    }
  }

  lemma {:induction false} EncodeOfValue(s: Bytes)
    ensures Encode(Value(s), |s|) == s
  {
    if s != [] {
      var front, last := s[..|s| - 1], s[|s| - 1];
      EncodeOfValue(front);
      LastByte(Value(front), last);
      assert s == front + [last];
    }
  }

  lemma LastByte(v: nat, last: byte)
    ensures (v * 256 + last) / 256 == v && (v * 256 + last) % 256 == last
  {
  }

  /** Neighbouring slices join. */
  lemma Joined(b: Bytes, lo: nat, mid: nat, hi: nat)
    requires lo <= mid <= hi <= |b|
    ensures b[lo..hi] == b[lo..mid] + b[mid..hi]
  {
  }

  /** The field of `w` bytes that starts at `off`. */
  function Get(b: Bytes, off: nat, w: nat): (v: nat)
    requires off + w <= |b|
    ensures v < Pow256(w)
  {
    Value(b[off..off + w])
  }

  /** Reading back the field that was appended to the header `p`. */
  lemma FieldEnd(b: Bytes, off: nat, p: Bytes, v: nat, w: nat)
    requires |p| == off && off + w <= |b| && b[..off + w] == p + Encode(v, w)
    requires v < Pow256(w)
    ensures Get(b, off, w) == v && b[..off] == p
  {
    ValueOfEncode(v, w);
    assert b[off..off + w] == b[..off + w][off..] == Encode(v, w);
    assert b[..off] == b[..off + w][..off];
  }

  /** Every prefix that ends in a field is what precedes the field and then the field. */
  lemma FieldSplit(b: Bytes, off: nat, w: nat)
    requires off + w <= |b|
    ensures b[..off + w] == b[..off] + Encode(Get(b, off, w), w)
  {
    EncodeOfValue(b[off..off + w]);
  }

  /** The in-place update a field write makes. */
  ghost function Patch(s: Bytes, off: nat, e: Bytes): (r: Bytes)
    requires off + |e| <= |s|
    ensures |r| == |s|
  {
    s[..off] + e + s[off + |e|..]
  }

  /** A write leaves every slice that lies wholly before or after it. */
  lemma PatchFrame(s: Bytes, off: nat, e: Bytes)
    requires off + |e| <= |s|
    ensures Patch(s, off, e)[off..off + |e|] == e
    ensures forall lo, hi {:trigger Patch(s, off, e)[lo..hi]} ::
      0 <= lo <= hi <= |s| && (hi <= off || off + |e| <= lo) ==> Patch(s, off, e)[lo..hi] == s[lo..hi]
  {
  }

  method ReadBigEndian(bytes: Bytes, offset: nat, width: nat) returns (r: Option<nat>)
    ensures r == if offset + width <= |bytes| then Some(Get(bytes, offset, width)) else None
  {
    if offset > |bytes| || width > |bytes| - offset {
      return None;
    }
    var value: nat := 0;
    for index := 0 to width
      invariant value == Value(bytes[offset..offset + index])
    {
      var read := bytes[offset..offset + index + 1];
      assert read[..index] == bytes[offset..offset + index];
      value := value * 256 + bytes[offset + index];
    }
    return Some(value);
  }

  /** Shifting right by whole bytes and truncating picks out one byte of the encoding. */
  lemma {:induction false} EncodeAt(v: nat, n: nat, i: nat)
    requires i < n
    ensures Encode(v, n)[i] == v / Pow256(n - i - 1) % 256
    decreases n
  {
    if i < n - 1 {
      EncodeAt(v / 256, n - 1, i);
      DivDiv(v, 256, Pow256(n - i - 2));
    }
  }

  lemma DivDiv(v: nat, b: nat, p: nat)
    requires b > 0 && p > 0
    ensures b * p > 0 && v / b / p == v / (b * p)
  {
    var q, r := v / b / p, v / b % p;
    Split(v, b);
    Split(v / b, p);
    Distribute(b, q, p, r);
    DivUnique(v, b * p, q, b * r + v % b);
  }

  lemma Split(v: nat, d: nat)
    requires d > 0
    ensures v == d * (v / d) + v % d == (v / d) * d + v % d
  {
  }

  lemma Distribute(b: nat, q: nat, p: nat, r: nat)
    requires r < p && b > 0
    ensures b * (q * p + r) == q * (b * p) + b * r && b * r + b <= b * p && b * p > 0
  {
    Reordered(b, q, p);
    var m := q * p;
    assert b * (m + r) == b * m + b * r;
    Monotone(b, r + 1, p);
    Monotone(b, 1, p);
    assert b * (r + 1) == b * r + b;
  }

  lemma Reordered(b: nat, q: nat, p: nat)
    ensures b * (q * p) == q * (b * p)
  {
  }

  lemma Monotone(b: nat, x: nat, y: nat)
    requires x <= y
    ensures b * x <= b * y
  {
    var d := y - x;
    assert b * y == b * x + b * d;
  }

  lemma DivUnique(v: nat, d: nat, q: nat, r: nat)
    requires d > 0 && v == q * d + r && r < d
    ensures v / d == q
  {
    var k := v / d - q;
    assert v / d * d == q * d + k * d;
    assert k * d == r - v % d;
    Scale(k, d);
  }

  lemma Scale(k: int, d: nat)
    requires d > 0
    ensures k >= 1 ==> k * d >= d
    ensures k <= -1 ==> k * d + d <= 0
  {
    if k >= 1 { assert (k - 1) * d >= 0; }
    if k <= -1 { assert (-1 - k) * d >= 0; }
  }

  method WriteBigEndian(value: nat, bytes: array<byte>, offset: nat, width: nat) returns (ok: bool)
    modifies bytes
    ensures ok == (offset + width <= bytes.Length)
    ensures ok ==> bytes[..] == Patch(old(bytes[..]), offset, Encode(value, width))
    ensures !ok ==> bytes[..] == old(bytes[..])
  {
    if offset > bytes.Length || width > bytes.Length - offset {
      return false;
    }
    for index := 0 to width
      invariant forall i :: 0 <= i < index ==> bytes[offset + i] == Encode(value, width)[i]
      invariant forall i :: 0 <= i < bytes.Length && !(offset <= i < offset + index) ==> bytes[i] == old(bytes[i])
    {
      EncodeAt(value, width, index);
      bytes[offset + index] := value / Pow256(width - index - 1) % 256;
    }
    assert bytes[offset..offset + width] == Encode(value, width);
    assert bytes[..] == bytes[..offset] + bytes[offset..offset + width] + bytes[offset + width..];
    return true;
  }

  /** Writing the next field of a header whose first `offset` bytes are in place. */
  method PutNext(bytes: array<byte>, offset: nat, value: nat, width: nat)
    requires offset + width <= bytes.Length
    modifies bytes
    ensures bytes[..offset + width] == old(bytes[..offset]) + Encode(value, width)
  {
    PatchAppends(bytes[..], offset, Encode(value, width));
    var ok := WriteBigEndian(value, bytes, offset, width);
  }

  /** A field write in the middle of a buffer: the field is in place and every
      slice wholly before or after it is kept. */
  method PutAt(bytes: array<byte>, offset: nat, value: nat, width: nat)
    requires offset + width <= bytes.Length
    modifies bytes
    ensures bytes[..][offset..offset + width] == Encode(value, width)
    ensures forall lo, hi {:trigger bytes[..][lo..hi]} ::
      0 <= lo <= hi <= bytes.Length && (hi <= offset || offset + width <= lo) ==>
        bytes[..][lo..hi] == old(bytes[..])[lo..hi]
  {
    PatchFrame(bytes[..], offset, Encode(value, width));
    var ok := WriteBigEndian(value, bytes, offset, width);
  }

  /** Copying a byte string into the middle of a buffer. */
  method CopyAt(bytes: array<byte>, offset: nat, source: Bytes)
    requires offset + |source| <= bytes.Length
    modifies bytes
    ensures bytes[..][offset..offset + |source|] == source
    ensures forall lo, hi {:trigger bytes[..][lo..hi]} ::
      0 <= lo <= hi <= bytes.Length && (hi <= offset || offset + |source| <= lo) ==>
        bytes[..][lo..hi] == old(bytes[..])[lo..hi]
  {
    PatchFrame(bytes[..], offset, source);
    CopyBytes(bytes, offset, source);
    assert bytes[..] == Patch(old(bytes[..]), offset, source) by {
      assert bytes[..] == bytes[..offset + |source|] + bytes[offset + |source|..];
    }
  }

  /** Copying a byte string into the buffer. */
  method CopyBytes(bytes: array<byte>, offset: nat, source: Bytes)
    requires offset + |source| <= bytes.Length
    modifies bytes
    ensures bytes[..offset + |source|] == old(bytes[..offset]) + source
    ensures bytes[offset + |source|..] == old(bytes[offset + |source|..])
  {
    for i := 0 to |source|
      invariant forall k :: 0 <= k < i ==> bytes[offset + k] == source[k]
      invariant forall k :: 0 <= k < bytes.Length && !(offset <= k < offset + i) ==> bytes[k] == old(bytes[k])
    {
      bytes[offset + i] := source[i];
    }
  }

  /** Writing the next field of a header whose first `off` bytes are in place. */
  lemma PatchAppends(s: Bytes, off: nat, e: Bytes)
    requires off + |e| <= |s|
    ensures Patch(s, off, e)[..off + |e|] == s[..off] + e
  {
  }
}
