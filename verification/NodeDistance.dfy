/** 256-bit node identifiers and the XOR distance between them. */
module NodeDistance {
  import opened Machine

  type NodeId = id: Bytes | |id| == 32 witness seq(32, _ => 0)

  // ---- bits ----

  function XorBits(a: nat, b: nat, width: nat): nat {
    if width == 0 then 0
    else 2 * XorBits(a / 2, b / 2, width - 1) + if a % 2 == b % 2 then 0 else 1
  }

  lemma {:induction false} XorFits(a: nat, b: nat, width: nat)
    ensures XorBits(a, b, width) < Pow2(width)
  {
    if width > 0 {
      XorFits(a / 2, b / 2, width - 1);
    }
  }

  lemma {:induction false} XorCancels(a: nat, x: nat, y: nat, width: nat)
    requires x < Pow2(width) && y < Pow2(width)
    ensures XorBits(a, x, width) == XorBits(a, y, width) <==> x == y
  {
    if width > 0 {
      XorCancels(a / 2, x / 2, y / 2, width - 1);
    }
  }

  lemma {:induction false} XorSelf(a: nat, width: nat)
    ensures XorBits(a, a, width) == 0
  {
    if width > 0 {
      XorSelf(a / 2, width - 1);
    }
  }

  lemma {:induction false} XorSymmetric(a: nat, b: nat, width: nat)
    ensures XorBits(a, b, width) == XorBits(b, a, width)
  {
    if width > 0 {
      XorSymmetric(a / 2, b / 2, width - 1);
    }
  }

  lemma Pow2Eight()
    ensures Pow2(8) == 256
  {
    assert Pow2(4) == 16;
  }

  function XorByte(a: byte, b: byte): byte {
    Pow2Eight();
    XorFits(a, b, 8);
    XorBits(a, b, 8)
  }

  /** Bit `k` of a number, counted from the lowest. */
  function BitOf(n: nat, k: nat): (bit: nat)
    ensures bit <= 1
  {
    Pow2Positive(k);
    n / Pow2(k) % 2
  }

  lemma BitOfHalf(n: nat, k: nat)
    requires k > 0
    ensures BitOf(n, k) == BitOf(n / 2, k - 1)
  {
    ShiftHalves(n, k);
  }

  lemma LowestBit(n: nat)
    ensures BitOf(n, 0) == n % 2
  {
  }

  /** A bit is set exactly where the two numbers differ. */
  lemma {:induction false} XorBit(a: nat, b: nat, width: nat, k: nat)
    requires k < width
    ensures BitOf(XorBits(a, b, width), k) == 1 <==> BitOf(a, k) != BitOf(b, k)
  {
    hide BitOf;
    if k == 0 {
      LowestBit(a);
      LowestBit(b);
      LowestBit(XorBits(a, b, width));
    } else {
      BitOfHalf(a, k);
      BitOfHalf(b, k);
      BitOfHalf(XorBits(a, b, width), k);
      XorBit(a / 2, b / 2, width - 1, k - 1);
    }
  }

  // ---- distances ----

  function XorDistance(a: NodeId, b: NodeId): NodeId {
    seq(32, i requires 0 <= i < 32 => XorByte(a[i], b[i]))
  }

  method ComputeDistance(a: NodeId, b: NodeId) returns (dist: array<byte>)
    ensures fresh(dist) && dist.Length == 32 && dist[..] == XorDistance(a, b)
  {
    dist := new byte[32](_ => 0);
    for i := 0 to 32
      invariant forall k :: 0 <= k < i ==> dist[k] == XorByte(a[k], b[k])
    {
      dist[i] := XorByte(a[i], b[i]);
    }
  }

  /** A byte string read as a big-endian number. */
  function Value(s: Bytes): nat {
    if s == [] then 0 else s[0] * Pow2(8 * (|s| - 1)) + Value(s[1..])
  }

  /** The distance as a 256-bit number. */
  function Dist(a: NodeId, b: NodeId): nat {
    Value(XorDistance(a, b))
  }

  lemma DoubleFirst(x: int, y: int)
    ensures (2 * x) * y == 2 * (x * y)
  {
  }

  lemma {:induction false} Pow2Add(a: nat, b: nat)
    ensures Pow2(a + b) == Pow2(a) * Pow2(b)
  {
    if a > 0 {
      Pow2Add(a - 1, b);
      DoubleFirst(Pow2(a - 1), Pow2(b));
    }
  }

  lemma {:induction false} Pow2Grows(a: nat, b: nat)
    requires a <= b
    ensures 0 < Pow2(a) <= Pow2(b)
  {
    if a < b {
      Pow2Grows(a, b - 1);
    } else if a > 0 {
      Pow2Grows(a - 1, a - 1);
    }
  }

  /** A leading digit between two others keeps the number between theirs. */
  lemma DigitBetween(lo: int, digit: int, hi: int, rest: int, unit: int)
    requires lo <= digit < hi && 0 <= rest < unit
    ensures lo * unit <= digit * unit + rest < hi * unit
  {
    MulOrder(lo, digit, unit);
    MulOrder(digit + 1, hi, unit);
    assert (digit + 1) * unit == digit * unit + unit;
  }

  lemma DigitDecides(x: int, y: int, u: int, v: int, unit: int)
    requires 0 <= u < unit && 0 <= v < unit
    ensures x * unit + u < y * unit + v <==> x < y || (x == y && u < v)
    ensures x * unit + u == y * unit + v <==> x == y && u == v
  {
    if x < y {
      DigitBetween(x, x, y, u, unit);
    } else if y < x {
      DigitBetween(y, y, x, v, unit);
    }
  }

  lemma {:induction false} ValueFits(s: Bytes)
    ensures Value(s) < Pow2(8 * |s|)
  {
    hide Pow2;
    if s == [] {
      Pow2Grows(0, 0);
    } else {
      ValueFits(s[1..]);
      Pow2Eight();
      Pow2Add(8, 8 * (|s| - 1));
      DigitBetween(0, s[0], 256, Value(s[1..]), Pow2(8 * (|s| - 1)));
    }
  }

  /** `Less` is the byte-by-byte comparison; it agrees with the numbers the bytes spell. */
  predicate Less(a: Bytes, b: Bytes)
    requires |a| == |b|
  {
    a != [] && (a[0] < b[0] || (a[0] == b[0] && Less(a[1..], b[1..])))
  }

  lemma {:induction false} LessIsNumeric(a: Bytes, b: Bytes)
    requires |a| == |b|
    ensures Less(a, b) <==> Value(a) < Value(b)
    ensures Value(a) == Value(b) <==> a == b
  {
    if a != [] {
      hide Pow2;
      LessIsNumeric(a[1..], b[1..]);
      ValueFits(a[1..]);
      ValueFits(b[1..]);
      DigitDecides(a[0], b[0], Value(a[1..]), Value(b[1..]), Pow2(8 * (|a| - 1)));
      assert a == [a[0]] + a[1..] && b == [b[0]] + b[1..];
    }
  }

  datatype Ordering = Smaller | Equal | Larger

  method CmpXor(a: NodeId, b: NodeId) returns (order: Ordering)
    ensures order == if Value(a) < Value(b) then Smaller else if Value(a) == Value(b) then Equal else Larger
  {
    LessIsNumeric(a, b);
    LessIsNumeric(b, a);
    for i := 0 to 32
      invariant a[..i] == b[..i]
      invariant Less(a, b) <==> Less(a[i..], b[i..])
      invariant Less(b, a) <==> Less(b[i..], a[i..])
    {
      assert a[i..][0] == a[i] && a[i..][1..] == a[i + 1..];
      assert b[i..][0] == b[i] && b[i..][1..] == b[i + 1..];
      if a[i] != b[i] {
        return if a[i] < b[i] then Smaller else Larger;
      }
    }
    assert a[..32] == a && b[..32] == b;
    return Equal;
  }

  /** Different identifiers lie at different distances from any point. */
  lemma DistInjective(a: NodeId, x: NodeId, y: NodeId)
    ensures Dist(a, x) == Dist(a, y) <==> x == y
  {
    var p, q := XorDistance(a, x), XorDistance(a, y);
    LessIsNumeric(p, q);
    Pow2Eight();
    forall i | 0 <= i < 32
      ensures p[i] == q[i] <==> x[i] == y[i]
    {
      XorCancels(a[i], x[i], y[i], 8);
    }
    assert p == q ==> forall i :: 0 <= i < 32 ==> p[i] == q[i];
  }

  lemma DistanceSymmetric(a: NodeId, b: NodeId)
    ensures XorDistance(a, b) == XorDistance(b, a)
  {
    forall i | 0 <= i < 32
      ensures XorByte(a[i], b[i]) == XorByte(b[i], a[i])
    {
      XorSymmetric(a[i], b[i], 8);
    }
  }

  lemma {:induction false} ValueZero(s: Bytes)
    requires forall i :: 0 <= i < |s| ==> s[i] == 0
    ensures Value(s) == 0
  {
    if s != [] {
      ValueZero(s[1..]);
    }
  }

  lemma DistZero(a: NodeId, b: NodeId)
    ensures Dist(a, b) == 0 <==> a == b
  {
    forall i | 0 <= i < 32
      ensures XorDistance(a, a)[i] == 0
    {
      XorSelf(a[i], 8);
    }
    ValueZero(XorDistance(a, a));
    DistInjective(a, a, b);
  }

  // ---- buckets ----

  const BUCKET_COUNT: nat := 256

  function LeadingZeros(b: byte): (z: nat)
    ensures z <= 8
    ensures b > 0 ==> z < 8
  {
    if b >= 128 then 0 else if b >= 64 then 1 else if b >= 32 then 2 else if b >= 16 then 3
    else if b >= 8 then 4 else if b >= 4 then 5 else if b >= 2 then 6 else if b >= 1 then 7 else 8
  }

  /** The position of the highest set bit of `s`, or None when there is none. */
  function HighestBit(s: Bytes): (r: Option<nat>)
    ensures r.Some? ==> r.value < 8 * |s|
  {
    if s == [] then None
    else if s[0] != 0 then Some(LeadingZeros(s[0]))
    else match HighestBit(s[1..]) case Some(i) => Some(i + 8) case None => None
  }

  function BucketIndex(local: NodeId, target: NodeId): (idx: nat)
    ensures idx < BUCKET_COUNT
  {
    match HighestBit(XorDistance(local, target)) case Some(i) => i case None => BUCKET_COUNT - 1
  }

  method ComputeBucketIndex(local: NodeId, target: NodeId) returns (idx: nat)
    ensures idx == BucketIndex(local, target)
  {
    var xor := ComputeDistance(local, target);
    ghost var d := xor[..];
    for i := 0 to 32
      invariant xor[..] == d
      invariant HighestBit(d) == match HighestBit(d[i..]) case Some(b) => Some(b + 8 * i) case None => None
    {
      assert d[i..][0] == xor[i] && d[i..][1..] == d[i + 1..];
      if xor[i] != 0 {
        return i * 8 + LeadingZeros(xor[i]);
      }
    }
    return BUCKET_COUNT - 1;
  }

  lemma LeadingZerosBracket(b: byte)
    requires b > 0
    ensures Pow2(7 - LeadingZeros(b)) <= b < Pow2(8 - LeadingZeros(b))
  {
    assert Pow2(0) == 1 && Pow2(1) == 2 && Pow2(2) == 4 && Pow2(3) == 8;
    assert Pow2(4) == 16 && Pow2(5) == 32 && Pow2(6) == 64 && Pow2(7) == 128;
    Pow2Eight();
  }

  lemma {:induction false} HighestBitBracket(s: Bytes)
    ensures match HighestBit(s)
            case None => Value(s) == 0
            case Some(i) => Pow2(8 * |s| - 1 - i) <= Value(s) < Pow2(8 * |s| - i)
  {
    hide Pow2, LeadingZeros;
    if s != [] {
      var rest := 8 * (|s| - 1);
      if s[0] == 0 {
        HighestBitBracket(s[1..]);
      } else {
        var z := LeadingZeros(s[0]);
        LeadingZerosBracket(s[0]);
        ValueFits(s[1..]);
        Pow2Add(7 - z, rest);
        Pow2Add(8 - z, rest);
        DigitBetween(Pow2(7 - z), s[0], Pow2(8 - z), Value(s[1..]), Pow2(rest));
      }
    }
  }

  /** Bucket `i` holds exactly the nodes at distance `[2^(255-i), 2^(256-i))`. */
  lemma BucketMeasuresDistance(local: NodeId, target: NodeId, i: nat)
    requires target != local && i < BUCKET_COUNT
    ensures BucketIndex(local, target) == i <==> Pow2(255 - i) <= Dist(local, target) < Pow2(256 - i)
  {
    DistZero(local, target);
    HighestBitBracket(XorDistance(local, target));
    var b := BucketIndex(local, target);
    if b < i {
      Pow2Grows(256 - i, 255 - b);
    } else if i < b {
      Pow2Grows(256 - b, 255 - i);
    }
  }

  /** So every node in a lower-numbered bucket is farther away than every node in a higher one. */
  lemma LowerBucketIsFarther(local: NodeId, x: NodeId, y: NodeId)
    requires x != local && y != local && BucketIndex(local, x) < BucketIndex(local, y)
    ensures Dist(local, x) > Dist(local, y)
  {
    BucketMeasuresDistance(local, x, BucketIndex(local, x));
    BucketMeasuresDistance(local, y, BucketIndex(local, y));
    Pow2Grows(256 - BucketIndex(local, y), 255 - BucketIndex(local, x));
  }

  // ---- buckets by common prefix ----

  /** Bit `i` of a byte string, counted from the front. */
  function BitAt(s: Bytes, i: nat): nat
    requires i < 8 * |s|
  {
    BitOf(s[i / 8], 7 - i % 8)
  }

  lemma DistanceBit(a: NodeId, b: NodeId, i: nat)
    requires i < 256
    ensures BitAt(XorDistance(a, b), i) == 1 <==> BitAt(a, i) != BitAt(b, i)
  {
    XorBit(a[i / 8], b[i / 8], 8, 7 - i % 8);
  }

  lemma LowBitsClear(n: nat, k: nat)
    requires n < Pow2(k)
    ensures BitOf(n, k) == 0
  {
    hide Pow2;
    Quotient(n, Pow2(k), 0, n);
  }

  lemma TopBitSet(n: nat, k: nat)
    requires Pow2(k) <= n < Pow2(k + 1)
    ensures BitOf(n, k) == 1
  {
    Pow2Doubles(k + 1);
    hide Pow2;
    Quotient(n, Pow2(k), 1, n - Pow2(k));
  }

  lemma LeadingBits(b: byte, j: nat)
    requires b > 0 && j <= LeadingZeros(b)
    ensures BitOf(b, 7 - j) == if j == LeadingZeros(b) then 1 else 0
  {
    LeadingZerosBracket(b);
    hide LeadingZeros, Pow2, BitOf;
    var z := LeadingZeros(b);
    if j == z {
      TopBitSet(b, 7 - z);
    } else {
      Pow2Grows(8 - z, 7 - j);
      LowBitsClear(b, 7 - j);
    }
  }

  lemma NoBits(j: nat)
    ensures BitOf(0, j) == 0
  {
    Pow2Positive(j);
    LowBitsClear(0, j);
  }

  lemma {:induction false} HighestBitIsFirst(s: Bytes, j: nat)
    requires j < 8 * |s|
    ensures match HighestBit(s)
            case None => BitAt(s, j) == 0
            case Some(i) => (j < i ==> BitAt(s, j) == 0) && (j == i ==> BitAt(s, j) == 1)
  {
    hide BitOf, LeadingZeros;
    if s[0] != 0 {
      if j <= LeadingZeros(s[0]) {
        LeadingBits(s[0], j);
      }
    } else if j < 8 {
      NoBits(7 - j);
    } else {
      HighestBitIsFirst(s[1..], j - 8);
      assert BitAt(s[1..], j - 8) == BitAt(s, j) by {
        assert (j - 8) / 8 == j / 8 - 1 && (j - 8) % 8 == j % 8;
      }
    }
  }

  /** The bucket of another node is the number of leading bits it shares with the local one. */
  lemma BucketIsCommonPrefix(local: NodeId, target: NodeId, j: nat)
    requires target != local && j <= BucketIndex(local, target)
    ensures BitAt(local, j) == BitAt(target, j) <==> j < BucketIndex(local, target)
  {
    hide BitAt, HighestBit;
    HighestBitIsFirst(XorDistance(local, target), j);
    DistanceBit(local, target, j);
    SomeBitDiffers(local, target);
  }

  lemma SomeBitDiffers(local: NodeId, target: NodeId)
    requires target != local
    ensures HighestBit(XorDistance(local, target)).Some?
  {
    DistZero(local, target);
    HighestBitBracket(XorDistance(local, target));
  }
}
