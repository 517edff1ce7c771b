/** Byte sequences and their lexicographic order.

    Go compares byte slices with `bytes.Compare` and strings with the built-in
    `<`; both order sequences of bytes lexicographically. `Compare` models the
    former as the usual first-difference recursion, `LexLess` defines the order
    itself through the longest common prefix, and `CompareMeaning` proves that
    the two agree. */
module Bytes {

  type byte = x: int | 0 <= x < 256

  /** Length of the longest common prefix of `a` and `b`. */
  function CommonPrefix(a: seq<byte>, b: seq<byte>): (k: nat)
    ensures k <= |a| && k <= |b|
    ensures forall j :: 0 <= j < k ==> a[j] == b[j]
    ensures k < |a| && k < |b| ==> a[k] != b[k]
  {
    if a == [] || b == [] || a[0] != b[0] then 0
    else 1 + CommonPrefix(a[1..], b[1..])
  }

  /** `a` comes strictly before `b`: either `a` is a proper prefix of `b`, or
      at the first index where they differ the byte of `a` is smaller. */
  predicate LexLess(a: seq<byte>, b: seq<byte>)
    ensures LexLess(a, b) ==> a != b
    ensures |a| < |b| && a == b[..|a|] ==> LexLess(a, b)
    ensures forall i :: 0 <= i < |a| && i < |b| && a[..i] == b[..i] && a[i] < b[i] ==> LexLess(a, b)
  {
    var k := CommonPrefix(a, b);
    k < |b| && (k == |a| || a[k] < b[k])
  }

  /** Go's `bytes.Compare`: -1 if `a` sorts first, 0 if equal, 1 otherwise. */
  function Compare(a: seq<byte>, b: seq<byte>): (r: int)
    ensures -1 <= r <= 1
  {
    if a == [] then (if b == [] then 0 else -1)
    else if b == [] then 1
    else if a[0] < b[0] then -1
    else if a[0] > b[0] then 1
    else Compare(a[1..], b[1..])
  }

  lemma {:induction false} CommonPrefixSymmetric(a: seq<byte>, b: seq<byte>)
    ensures CommonPrefix(a, b) == CommonPrefix(b, a)
  {
    if a != [] && b != [] && a[0] == b[0] {
      CommonPrefixSymmetric(a[1..], b[1..]);
    }
  }

  /** The sign of `Compare` is exactly the lexicographic order. */
  lemma {:induction false} CompareMeaning(a: seq<byte>, b: seq<byte>)
    ensures Compare(a, b) < 0 <==> LexLess(a, b)
    ensures Compare(a, b) == 0 <==> a == b
    ensures Compare(a, b) > 0 <==> LexLess(b, a)
  {
    CommonPrefixSymmetric(a, b);
    if a != [] && b != [] && a[0] == b[0] {
      CompareMeaning(a[1..], b[1..]);
      assert a == [a[0]] + a[1..] && b == [b[0]] + b[1..];
      assert CommonPrefix(b, a) == 1 + CommonPrefix(b[1..], a[1..]);
      CommonPrefixSymmetric(a[1..], b[1..]);
    }
  }

  /** A common prefix does not change the outcome of `Compare`. */
  lemma {:induction false} CompareSkipsCommonPrefix(p: seq<byte>, a: seq<byte>, b: seq<byte>)
    ensures Compare(p + a, p + b) == Compare(a, b)
  {
    if p == [] {
      assert p + a == a && p + b == b;
    } else {
      assert (p + a)[1..] == p[1..] + a && (p + b)[1..] == p[1..] + b;
      CompareSkipsCommonPrefix(p[1..], a, b);
    }
  }

  /** After a common prefix, the next byte decides the order, whatever
      follows it. */
  lemma LexLessAtDifference(p: seq<byte>, x: byte, y: byte, s: seq<byte>, t: seq<byte>)
    requires x < y
    ensures LexLess(p + [x] + s, p + [y] + t) && !LexLess(p + [y] + t, p + [x] + s)
  {
    CompareSkipsCommonPrefix(p, [x] + s, [y] + t);
    assert p + [x] + s == p + ([x] + s);
    assert p + [y] + t == p + ([y] + t);
    CompareMeaning(p + [x] + s, p + [y] + t);
  }

  /** Swapping the arguments of `Compare` flips its sign. */
  lemma CompareAntisymmetric(a: seq<byte>, b: seq<byte>)
    ensures Compare(a, b) == -Compare(b, a)
  {
    CompareMeaning(a, b);
    CompareMeaning(b, a);
  }

  /** `LexLess` is a strict order: irreflexive, asymmetric and transitive. */
  lemma {:induction false} LexLessStrictOrder(a: seq<byte>, b: seq<byte>, c: seq<byte>)
    ensures !LexLess(a, a)
    ensures LexLess(a, b) ==> !LexLess(b, a)
    ensures LexLess(a, b) && LexLess(b, c) ==> LexLess(a, c)
  {
    CommonPrefixSymmetric(a, b);
    if a != [] && b != [] && c != [] && a[0] == b[0] && b[0] == c[0] {
      LexLessStrictOrder(a[1..], b[1..], c[1..]);
    }
  }
}
