/** 256-bit node identifiers, their exclusive-or distance and the bucket a distance falls into
    (crates/bitcord-dht/src/routing.rs). An identifier is a sequence of 32 bytes; `Value` gives the
    same bytes as one big-endian number. */
module NodeIds {
  import opened Bits
  import opened Wrappers

  type NodeId = s: seq<Byte> | |s| == 32 witness seq(32, i => 0)

  /** The big-endian number a byte string stands for. */
  function Value(s: seq<Byte>): nat {
    if s == [] then 0 else 256 * Value(s[..|s| - 1]) + s[|s| - 1]
  }

  function XorByte(x: Byte, y: Byte): Byte {
    assert Pow2(8) == 256;
    XorBelow(x, y, 8);
    Xor(x, y)
  }

  function XorBytes(a: seq<Byte>, b: seq<Byte>): (d: seq<Byte>)
    requires |a| == |b|
    ensures |d| == |a|
  {
    seq(|a|, i requires 0 <= i < |a| => XorByte(a[i], b[i]))
  }

  /** The distance between two identifiers as a number. */
  function Dist(a: NodeId, b: NodeId): nat {
    Value(XorBytes(a, b))
  }

  /** The bucket for a distance, read off the number instead of the bytes. */
  function BucketOf(dist: nat): Option<nat> {
    if dist == 0 then None else Some(BitLen(dist) - 1)
  }

  /** The order of Rust's byte arrays. */
  predicate LexLess(a: seq<Byte>, b: seq<Byte>)
    requires |a| == |b|
  {
    |a| > 0 && (a[0] < b[0] || (a[0] == b[0] && LexLess(a[1..], b[1..])))
  }

  // ---------- The two views of an identifier ----------

  lemma {:induction false} ValueBelow(s: seq<Byte>)
    ensures Value(s) < Pow2(8 * |s|)
  {
    if s == [] {
    } else {
      var t := s[..|s| - 1];
      ValueBelow(t);
      Pow2Byte(8 * |t|);
    }
  }

  lemma {:induction false} Pow2Byte(k: nat)
    ensures Pow2(k + 8) == 256 * Pow2(k)
  {
    assert Pow2(k + 2) == 4 * Pow2(k);
    assert Pow2(k + 4) == 4 * Pow2(k + 2);
    assert Pow2(k + 6) == 4 * Pow2(k + 4);
  }

  lemma {:induction false} ValueInjective(a: seq<Byte>, b: seq<Byte>)
    requires |a| == |b| && Value(a) == Value(b)
    ensures a == b
  {
    if a == [] {
    } else {
      var n := |a| - 1;
      ValueInjective(a[..n], b[..n]);
      assert a == a[..n] + [a[n]] && b == b[..n] + [b[n]];
    }
  }

  lemma {:induction false} LexLessSnoc(a: seq<Byte>, x: Byte, b: seq<Byte>, y: Byte)
    requires |a| == |b|
    ensures LexLess(a + [x], b + [y]) <==> LexLess(a, b) || (a == b && x < y)
  {
    if a == [] {
    } else {
      assert (a + [x])[1..] == a[1..] + [x] && (b + [y])[1..] == b[1..] + [y];
      LexLessSnoc(a[1..], x, b[1..], y);
      assert a == [a[0]] + a[1..] && b == [b[0]] + b[1..];
    }
  }

  /** Comparing byte arrays position by position is comparing the numbers they stand for. */
  lemma {:induction false} LexIsNumeric(a: seq<Byte>, b: seq<Byte>)
    requires |a| == |b|
    ensures LexLess(a, b) <==> Value(a) < Value(b)
  {
    if a == [] {
    } else {
      var n := |a| - 1;
      assert a == a[..n] + [a[n]] && b == b[..n] + [b[n]];
      LexLessSnoc(a[..n], a[n], b[..n], b[n]);
      LexIsNumeric(a[..n], b[..n]);
      if Value(a[..n]) == Value(b[..n]) {
        ValueInjective(a[..n], b[..n]);
      }
    }
  }

  /** Byte-wise exclusive or is exclusive or of the 256-bit numbers. */
  lemma {:induction false} XorBytesValue(a: seq<Byte>, b: seq<Byte>)
    requires |a| == |b|
    ensures Value(XorBytes(a, b)) == Xor(Value(a), Value(b))
  {
    if a == [] {
      XorZero(0);
    } else {
      var n := |a| - 1;
      XorBytesValue(a[..n], b[..n]);
      assert XorBytes(a, b)[..n] == XorBytes(a[..n], b[..n]);
      XorAppendByte(Value(a[..n]), a[n], Value(b[..n]), b[n]);
    }
  }

  // ---------- The metric ----------

  lemma {:induction false} DistIsXor(a: NodeId, b: NodeId)
    ensures Dist(a, b) == Xor(Value(a), Value(b)) < Pow2(256)
  {
    XorBytesValue(a, b);
    ValueBelow(XorBytes(a, b));
  }

  /** The exclusive-or distance is a metric on identifiers. */
  lemma {:induction false} DistIsMetric(a: NodeId, b: NodeId, c: NodeId)
    ensures Dist(a, b) == Dist(b, a)
    ensures Dist(a, b) == 0 <==> a == b
    ensures Dist(a, c) <= Dist(a, b) + Dist(b, c)
  {
    DistIsXor(a, b);
    DistIsXor(b, a);
    DistIsXor(b, c);
    DistIsXor(a, c);
    XorComm(Value(a), Value(b));
    XorSelf(Value(a));
    if Dist(a, b) == 0 {
      XorZeroOnlyIfEqual(Value(a), Value(b));
      ValueInjective(a, b);
    }
    XorVia(Value(b), Value(a), Value(c));
    XorAtMostSum(Xor(Value(b), Value(a)), Xor(Value(b), Value(c)));
  }

  /** No two identifiers are equally far from a third one. */
  lemma {:induction false} DistInjective(t: NodeId, a: NodeId, b: NodeId)
    requires Dist(t, a) == Dist(t, b)
    ensures a == b
  {
    DistIsXor(t, a);
    DistIsXor(t, b);
    XorCancel(Value(t), Value(a));
    XorCancel(Value(t), Value(b));
    ValueInjective(a, b);
  }

  /** Byte arrays of distances are ordered as the distances are. */
  lemma {:induction false} DistanceOrder(t: NodeId, a: NodeId, b: NodeId)
    ensures LexLess(XorBytes(t, a), XorBytes(t, b)) <==> Dist(t, a) < Dist(t, b)
  {
    LexIsNumeric(XorBytes(t, a), XorBytes(t, b));
  }

  /** Bucket `i` holds exactly the distances from 2^i up to, not including, 2^(i+1). */
  lemma {:induction false} BucketOfRange(a: NodeId, b: NodeId, i: nat)
    ensures BucketOf(Dist(a, b)) == Some(i) <==> Pow2(i) <= Dist(a, b) < Pow2(i + 1)
    ensures BucketOf(Dist(a, b)).Some? <==> a != b
    ensures BucketOf(Dist(a, b)).Some? ==> BucketOf(Dist(a, b)).value < 256
  {
    DistIsMetric(a, b, a);
    DistIsXor(a, b);
    hide Dist;
    BucketOfNumber(Dist(a, b), i);
  }

  lemma {:induction false} BucketOfNumber(d: nat, i: nat)
    requires d < Pow2(256)
    ensures BucketOf(d) == Some(i) <==> Pow2(i) <= d < Pow2(i + 1)
    ensures BucketOf(d).Some? <==> d > 0
    ensures BucketOf(d).Some? ==> BucketOf(d).value < 256
  {
    if d > 0 {
      BitLenBounds(d);
      BitLenAtMost(d, 256);
    }
    if Pow2(i) <= d < Pow2(i + 1) {
      BitLenUnique(d, i);
    }
  }

  // ---------- The source's loops ----------

  /** Fills the 32-byte distance position by position. */
  method Distance(a: NodeId, b: NodeId) returns (d: array<Byte>)
    ensures fresh(d) && d.Length == 32
    ensures d[..] == XorBytes(a, b)
    ensures Value(d[..]) == Dist(a, b)
  {
    d := new Byte[32](i => 0);
    for i := 0 to 32
      invariant forall j :: 0 <= j < i ==> d[j] == XorByte(a[j], b[j])
    {
      d[i] := XorByte(a[i], b[i]);
    }
    assert d[..] == XorBytes(a, b);
  }

  /** The number of zero bits above the highest set bit of a byte. */
  function LeadingZeros(b: Byte): (z: nat)
    ensures z <= 8
    ensures b > 0 ==> z < 8 && Pow2(7 - z) <= b < Pow2(8 - z)
  {
    assert Pow2(8) == 256;
    BitLenAtMost(b, 8);
    if b > 0 then BitLenBounds(b); 8 - BitLen(b) else 8
  }

  lemma {:induction false} ZerosHaveValueZero(s: seq<Byte>)
    requires forall i :: 0 <= i < |s| ==> s[i] == 0
    ensures Value(s) == 0
  {
    if s == [] {
    } else {
      ZerosHaveValueZero(s[..|s| - 1]);
    }
  }

  /** Only the first non-zero byte and the bytes after it count towards the bit length. */
  lemma {:induction false} BitLenFromFirstByte(s: seq<Byte>, k: nat)
    requires k < |s| && s[k] > 0
    requires forall i :: 0 <= i < k ==> s[i] == 0
    ensures Value(s) > 0 && BitLen(Value(s)) == BitLen(s[k]) + 8 * (|s| - 1 - k)
    decreases |s|
  {
    var n := |s| - 1;
    if k == n {
      ZerosHaveValueZero(s[..n]);
    } else {
      BitLenFromFirstByte(s[..n], k);
      BitLenAppendByte(Value(s[..n]), s[n]);
    }
  }

  /** Scans the bytes for the first non-zero one. */
  method BucketIndex(dist: NodeId) returns (r: Option<nat>)
    ensures r == BucketOf(Value(dist))
    ensures r.None? <==> Value(dist) == 0
    ensures r.Some? ==> r.value < 256 && Pow2(r.value) <= Value(dist) < Pow2(r.value + 1)
  {
    for byteIdx := 0 to 32
      invariant forall j :: 0 <= j < byteIdx ==> dist[j] == 0
    {
      if dist[byteIdx] != 0 {
        var leading := LeadingZeros(dist[byteIdx]);
        BitLenFromFirstByte(dist, byteIdx);
        BitLenBounds(Value(dist));
        return Some(255 - (byteIdx * 8 + leading));
      }
    }
    ZerosHaveValueZero(dist);
    return None;
  }
}
