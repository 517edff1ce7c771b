/** The score of a byte sequence (`scoreBytes` in ord.go): its first six
    bytes, zero-padded, read as a big-endian number. The score stays below
    2^48, so Go's conversion to float64 is exact and the score is a `nat`
    here. It is a lossy, monotone proxy for the lexicographic order. */
module ScoreBytes {
  import opened Bytes

  /** Number of leading bytes that contribute to the score. */
  const Width: nat := 6

  function Pow256(n: nat): (r: nat)
    ensures r > 0
  {
    if n == 0 then 1 else 256 * Pow256(n - 1)
  }

  lemma MulMonotone(a: int, b: int, k: nat)
    requires a <= b
    ensures a * k <= b * k
  {
    assert b * k - a * k == (b - a) * k;
  }

  lemma Distribute(b: int, x: int, k: int)
    ensures (b * 256 + x) * k == b * (256 * k) + x * k
  {
  }

  /** The number whose base-256 digits, most significant first, are `s`. */
  function BigEndian(s: seq<byte>): (r: nat)
    ensures r < Pow256(|s|)
  {
    if s == [] then 0
    else
      var k := Pow256(|s| - 1);
      MulMonotone(s[0], 255, k);
      s[0] * k + BigEndian(s[1..])
  }

  /** The first `Width` bytes of `d`, with zero bytes added when `d` is shorter. */
  function Padded(d: seq<byte>): seq<byte>
  {
    seq(Width, j requires 0 <= j < Width => if j < |d| then d[j] else 0)
  }

  /** The score of `d`. */
  function Packed(d: seq<byte>): (r: nat)
    ensures r < 0x1_0000_0000_0000
  {
    assert Pow256(Width) == 0x1_0000_0000_0000;
    BigEndian(Padded(d))
  }

  /** `scoreBytes`: clamp the length to six, then place byte `i` at bits
      (5 - i) * 8 and up of the accumulator. The source combines with `|=`;
      the second invariant says that those bits are still zero when byte `i`
      arrives, so the OR and the addition written here agree. */
  method ScoreBytes(data: seq<byte>) returns (result: nat)
    ensures result == Packed(data)
  {
    var l := |data|;
    if l > Width {
      l := Width;
    }
    result := 0;
    var i := 0;
    while i < l
      invariant 0 <= i <= l <= Width
      invariant result == BigEndian(data[..i]) * Pow256(Width - i)
    {
      ghost var b := BigEndian(data[..i]);
      var k := Pow256(Width - 1 - i);
      assert data[..i + 1] == data[..i] + [data[i]];
      BigEndianSnoc(data[..i], data[i]);
      Distribute(b, data[i], k);
      result := result + data[i] * k;
      i := i + 1;
    }
    PackedValue(data);
  }

  /** Appending a byte shifts the number one digit up. */
  lemma {:induction false} BigEndianSnoc(s: seq<byte>, x: byte)
    ensures BigEndian(s + [x]) == BigEndian(s) * 256 + x
  {
    if s != [] {
      assert (s + [x])[1..] == s[1..] + [x];
      BigEndianSnoc(s[1..], x);
      var k := Pow256(|s| - 1);
      calc {
        BigEndian(s + [x]);
        s[0] * Pow256(|s|) + BigEndian(s[1..] + [x]);
        s[0] * (256 * k) + BigEndian(s[1..]) * 256 + x;
        (s[0] * k + BigEndian(s[1..])) * 256 + x;
      }
    }
  }

  function Zeros(n: nat): (z: seq<byte>)
  {
    if n == 0 then [] else [0] + Zeros(n - 1)
  }

  lemma {:induction false} ZerosAt(n: nat)
    ensures |Zeros(n)| == n && forall j :: 0 <= j < n ==> Zeros(n)[j] == 0
  {
    if n > 0 {
      ZerosAt(n - 1);
    }
  }

  /** Appending `n` zero bytes multiplies the number by 256^n. */
  lemma {:induction false} BigEndianZeros(s: seq<byte>, n: nat)
    ensures BigEndian(s + Zeros(n)) == BigEndian(s) * Pow256(n)
    decreases n
  {
    if n == 0 {
      assert s + Zeros(n) == s;
    } else {
      assert s + Zeros(n) == (s + [0]) + Zeros(n - 1);
      var b, k := BigEndian(s), Pow256(n - 1);
      calc {
        BigEndian(s + Zeros(n));
        BigEndian((s + [0]) + Zeros(n - 1));
        { BigEndianZeros(s + [0], n - 1); }
        BigEndian(s + [0]) * k;
        { BigEndianSnoc(s, 0); }
        (b * 256) * k;
        b * (256 * k);
      }
    }
  }

  /** The score is the big-endian value of the first min(6, |d|) bytes,
      shifted up by the bytes of padding. */
  lemma PackedValue(d: seq<byte>)
    ensures var l := if |d| < Width then |d| else Width;
      Packed(d) == BigEndian(d[..l]) * Pow256(Width - l)
  {
    var l := if |d| < Width then |d| else Width;
    ZerosAt(Width - l);
    assert Padded(d) == d[..l] + Zeros(Width - l);
    BigEndianZeros(d[..l], Width - l);
  }

  /** Bytes from index 6 on never affect the score. */
  lemma PackedIgnoresTail(d: seq<byte>, e: seq<byte>)
    requires |d| >= Width
    ensures Packed(d + e) == Packed(d) == BigEndian(d[..Width])
  {
    assert Padded(d + e) == Padded(d) == d[..Width];
  }

  /** A digit-wise smaller-or-equal number is smaller or equal. */
  lemma {:induction false} BigEndianPointwise(s: seq<byte>, t: seq<byte>)
    requires |s| == |t|
    requires forall j :: 0 <= j < |s| ==> s[j] <= t[j]
    ensures BigEndian(s) <= BigEndian(t)
  {
    if s != [] {
      BigEndianPointwise(s[1..], t[1..]);
      MulMonotone(s[0], t[0], Pow256(|s| - 1));
    }
  }

  /** Two numbers of the same length in digits are ordered by their first
      differing digit. */
  lemma {:induction false} BigEndianFirstDifference(s: seq<byte>, t: seq<byte>, i: nat)
    requires |s| == |t| && i < |s|
    requires forall j :: 0 <= j < i ==> s[j] == t[j]
    requires s[i] < t[i]
    ensures BigEndian(s) < BigEndian(t)
  {
    var k := Pow256(|s| - 1);
    assert BigEndian(s) == s[0] * k + BigEndian(s[1..]);
    assert BigEndian(t) == t[0] * k + BigEndian(t[1..]);
    if i == 0 {
      MulMonotone(s[0] + 1, t[0], k);
      assert (s[0] + 1) * k == s[0] * k + k;
    } else {
      BigEndianFirstDifference(s[1..], t[1..], i - 1);
    }
  }

  /** Non-strict monotonicity: lexicographic order never reverses the scores.
      This covers a proper prefix and sequences that first differ after
      byte 6 (which tie). */
  lemma PackedMonotone(a: seq<byte>, b: seq<byte>)
    requires LexLess(a, b)
    ensures Packed(a) <= Packed(b)
  {
    var k := CommonPrefix(a, b);
    var p, q := Padded(a), Padded(b);
    if k >= Width {
      assert p == q;
    } else if k == |a| {
      BigEndianPointwise(p, q);
    } else {
      BigEndianFirstDifference(p, q, k);
    }
  }

  /** `a` and `b` first differ at an index below `Width` that both have. */
  predicate DifferWithinWidth(a: seq<byte>, b: seq<byte>)
  {
    var k := CommonPrefix(a, b);
    k < Width && k < |a| && k < |b|
  }

  /** Strict monotonicity: sequences that first differ at an index below 6,
      with the smaller byte in `a`, have strictly ordered scores. */
  lemma PackedStrict(a: seq<byte>, b: seq<byte>, i: nat)
    requires i < Width && i < |a| && i < |b|
    requires forall j :: 0 <= j < i ==> a[j] == b[j]
    requires a[i] < b[i]
    ensures Packed(a) < Packed(b)
  {
    BigEndianFirstDifference(Padded(a), Padded(b), i);
  }

  /** Sequences that agree on their first six bytes tie, whatever follows. */
  lemma PackedTies(a: seq<byte>, b: seq<byte>)
    requires CommonPrefix(a, b) >= Width
    ensures Packed(a) == Packed(b)
  {
    assert Padded(a) == Padded(b);
  }

  /** The zero padding is lossy as well: a short sequence ties with itself
      extended by a zero byte, though it sorts strictly before it. */
  lemma PackedZeroPaddingTies(a: seq<byte>)
    requires |a| < Width
    ensures LexLess(a, a + [0])
    ensures Packed(a) == Packed(a + [0])
  {
    assert Padded(a) == Padded(a + [0]);
  }
}
