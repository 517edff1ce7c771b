/** What the dispatcher promises its callers: for every shape the comparator
    is a strict order, the score never contradicts it, the reversed variants
    mirror the ascending ones, and the four entry points agree. */
module OrdProperties {
  import opened Bytes
  import opened ScoreBytes
  import opened Ord

  /** A strict order: irreflexive, asymmetric and transitive. */
  ghost predicate StrictOrder<U(!new)>(less: (U, U) -> bool)
  {
    (forall x :: !less(x, x)) &&
    (forall x, y :: less(x, y) ==> !less(y, x)) &&
    (forall x, y, z :: less(x, y) && less(y, z) ==> less(x, z))
  }

  /** A score that never ranks a smaller value above a larger one. */
  ghost predicate ScoreConsistent<U(!new)>(less: (U, U) -> bool, score: U -> real)
  {
    forall x, y :: less(x, y) ==> score(x) <= score(y)
  }

  /** What the library asks of a user type: its `Less` is a strict order and
      its `Score`, when it has one, is consistent with it. */
  ghost predicate Lawful<U(!new)>(t: UserType<U>)
  {
    t.less.Some? ==>
      StrictOrder(t.less.value) && (t.score.Some? ==> ScoreConsistent(t.less.value, t.score.value))
  }

  /** `a` and `b` may be given to the closures built for `sh`: both have the
      shape, and user values are of one lawful type. */
  ghost predicate Compatible<U(!new)>(sh: Shape, a: Value<U>, b: Value<U>)
  {
    HasShape(sh, a) && HasShape(sh, b) &&
    (sh.FastShape? || sh.SlowShape? ==> a.t == b.t && Lawful(a.t))
  }

  /** The reversed closures are the ascending ones with the comparator's
      arguments swapped and the score negated, for every shape. */
  lemma ReversedMirrorsAscending<U>(sh: Shape, a: Value<U>, b: Value<U>)
    requires HasShape(sh, a) && HasShape(sh, b)
    ensures Comparator(sh, Descending).Less(a, b) == Comparator(sh, Ascending).Less(b, a)
    ensures Scorer(sh, Descending).Apply(a) == -Scorer(sh, Ascending).Apply(a)
  {
    if sh == BytesShape {
      CompareAntisymmetric(a.bytes, b.bytes);
    }
  }

  /** In either direction, the comparator of every shape is a strict order. */
  lemma LessIsStrictOrder<U(!new)>(sh: Shape, dir: Direction, a: Value<U>, b: Value<U>, c: Value<U>)
    requires Compatible(sh, a, b) && Compatible(sh, b, c)
    ensures !Comparator(sh, dir).Less(a, a)
    ensures Comparator(sh, dir).Less(a, b) ==> !Comparator(sh, dir).Less(b, a)
    ensures Comparator(sh, dir).Less(a, b) && Comparator(sh, dir).Less(b, c) ==> Comparator(sh, dir).Less(a, c)
    decreases if dir == Ascending then 0 else 1
  {
    if dir == Descending {
      LessIsStrictOrder(sh, Ascending, c, b, a);
      ReversedMirrorsAscending(sh, a, a);
      ReversedMirrorsAscending(sh, a, b);
      ReversedMirrorsAscending(sh, b, a);
      ReversedMirrorsAscending(sh, b, c);
      ReversedMirrorsAscending(sh, a, c);
      LessIsStrictOrder(sh, Ascending, a, b, c);
    } else {
      match sh
      case BytesShape =>
        CompareMeaning(a.bytes, a.bytes);
        CompareMeaning(a.bytes, b.bytes);
        CompareMeaning(b.bytes, a.bytes);
        CompareMeaning(b.bytes, c.bytes);
        CompareMeaning(a.bytes, c.bytes);
        LexLessStrictOrder(a.bytes, b.bytes, c.bytes);
      case StringShape =>
        LexLessStrictOrder(a.text, b.text, c.text);
      case _ =>
    }
  }

  /** The score never contradicts the comparator: in either direction, a
      value the comparator puts first gets a score no greater. */
  lemma ScoreMonotone<U(!new)>(sh: Shape, dir: Direction, a: Value<U>, b: Value<U>)
    requires Compatible(sh, a, b)
    requires Comparator(sh, dir).Less(a, b)
    ensures Scorer(sh, dir).Apply(a) <= Scorer(sh, dir).Apply(b)
    decreases if dir == Ascending then 0 else 1
  {
    if dir == Descending {
      ReversedMirrorsAscending(sh, a, b);
      ReversedMirrorsAscending(sh, b, a);
      ScoreMonotone(sh, Ascending, b, a);
    } else {
      match sh
      case BytesShape =>
        CompareMeaning(a.bytes, b.bytes);
        PackedMonotone(a.bytes, b.bytes);
      case StringShape =>
        PackedMonotone(a.text, b.text);
      case _ =>
    }
  }

  /** The score separates what the comparator separates for numbers, and for
      byte sequences and strings that first differ within their first six
      bytes. For numbers this holds of the exact scores of this model: Go's
      conversion to float64 rounds 64-bit integers beyond 2^53, and two such
      values may then tie. */
  lemma ScoreStrict<U(!new)>(sh: Shape, dir: Direction, a: Value<U>, b: Value<U>)
    requires sh.IntegerShape? || sh.FloatShape? || sh.BytesShape? || sh.StringShape?
    requires HasShape(sh, a) && HasShape(sh, b)
    requires sh.BytesShape? ==> DifferWithinWidth(a.bytes, b.bytes)
    requires sh.StringShape? ==> DifferWithinWidth(a.text, b.text)
    requires Comparator(sh, dir).Less(a, b)
    ensures Scorer(sh, dir).Apply(a) < Scorer(sh, dir).Apply(b)
    decreases if dir == Ascending then 0 else 1
  {
    if dir == Descending {
      ReversedMirrorsAscending(sh, a, b);
      ReversedMirrorsAscending(sh, b, a);
      if sh.BytesShape? {
        CommonPrefixSymmetric(a.bytes, b.bytes);
      } else if sh.StringShape? {
        CommonPrefixSymmetric(a.text, b.text);
      }
      ScoreStrict(sh, Ascending, b, a);
    } else if sh.BytesShape? {
      CompareMeaning(a.bytes, b.bytes);
      PackedStrict(a.bytes, b.bytes, CommonPrefix(a.bytes, b.bytes));
    } else if sh.StringShape? {
      PackedStrict(a.text, b.text, CommonPrefix(a.text, b.text));
    }
  }

  /** A `Slow` value has no score of its own: every value of that shape
      scores 0 in both directions, so any two tie. */
  lemma SlowScoresTie<U>(dir: Direction, a: Value<U>, b: Value<U>)
    requires HasShape(SlowShape, a) && HasShape(SlowShape, b)
    ensures Scorer(SlowShape, dir).Apply(a) == Scorer(SlowShape, dir).Apply(b) == 0.0
  {
  }

  /** A value that implements both interfaces resolves to `Fast`, though it
      also implements `Slow`: it is ordered and scored by its own methods. */
  lemma FastTakesPriority<U>(v: Value<U>)
    requires HasShape(FastShape, v)
    ensures HasShape(SlowShape, v)
    ensures Fns(v) == Success(Funcs(Comparator(FastShape, Ascending), Scorer(FastShape, Ascending)))
    ensures FnsReversed(v) == Success(Funcs(Comparator(FastShape, Descending), Scorer(FastShape, Descending)))
    ensures FnScore(v).Success? && FnScore(v).value.score == v.t.score.value(v.x)
    ensures FnScoreReversed(v).Success? && FnScoreReversed(v).value.score == -v.t.score.value(v.x)
  {
  }

  /** Exactly the values of a type without a `Less` method and of the other
      types are unsupported, and then all four entry points fail with the
      same message naming the type. */
  lemma UnsupportedIsFatal<U>(v: Value<U>)
    ensures Fns(v).Failure? <==> v.Other? || (v.User? && v.t.less.None?)
    ensures FnsReversed(v).Failure? == FnScore(v).Failure? == FnScoreReversed(v).Failure? == Fns(v).Failure?
    ensures Fns(v).Failure? ==>
      Fns(v).error == FnsReversed(v).error == FnScore(v).error == FnScoreReversed(v).error ==
      CannotOrder(TypeName(v))
  {
    if v.Other? {
      assert forall sh :: !HasShape(sh, v);
    }
  }

  /** The pairs for which the score must separate what the comparator
      separates: numbers, and byte sequences and strings that first differ
      within their first six bytes. */
  predicate Separable<U>(sh: Shape, a: Value<U>, b: Value<U>)
  {
    sh.IntegerShape? || sh.FloatShape? ||
    (sh.BytesShape? && a.ByteSlice? && b.ByteSlice? && DifferWithinWidth(a.bytes, b.bytes)) ||
    (sh.StringShape? && a.Str? && b.Str? && DifferWithinWidth(a.text, b.text))
  }

  /** What the package's tests check of `Fns` and `FnsReversed`, stated on
      the closures they return for `a`: applied to values compatible with
      `a`, the comparator is a strict order, and the score never contradicts
      it and separates what it separates, where `Separable`. */
  lemma FnsMonotone<U(!new)>(a: Value<U>, b: Value<U>, c: Value<U>)
    requires Resolve(a).Success?
    requires Compatible(Resolve(a).value, a, b) && Compatible(Resolve(a).value, b, c)
    ensures Fns(a).Success? && FnsReversed(a).Success?
    ensures var f := Fns(a).value;
      !f.less.Less(a, a) && (f.less.Less(a, b) ==> !f.less.Less(b, a)) &&
      (f.less.Less(a, b) && f.less.Less(b, c) ==> f.less.Less(a, c)) &&
      (f.less.Less(a, b) ==> f.score.Apply(a) <= f.score.Apply(b)) &&
      (f.less.Less(a, b) && Separable(f.less.shape, a, b) ==> f.score.Apply(a) < f.score.Apply(b))
    ensures var g := FnsReversed(a).value;
      !g.less.Less(a, a) && (g.less.Less(a, b) ==> !g.less.Less(b, a)) &&
      (g.less.Less(a, b) && g.less.Less(b, c) ==> g.less.Less(a, c)) &&
      (g.less.Less(a, b) ==> g.score.Apply(a) <= g.score.Apply(b)) &&
      (g.less.Less(a, b) && Separable(g.less.shape, a, b) ==> g.score.Apply(a) < g.score.Apply(b))
  {
    var sh := Resolve(a).value;
    LessIsStrictOrder(sh, Ascending, a, b, c);
    LessIsStrictOrder(sh, Descending, a, b, c);
    if Comparator(sh, Ascending).Less(a, b) {
      ScoreMonotone(sh, Ascending, a, b);
      if Separable(sh, a, b) {
        ScoreStrict(sh, Ascending, a, b);
      }
    }
    if Comparator(sh, Descending).Less(a, b) {
      ScoreMonotone(sh, Descending, a, b);
      if Separable(sh, a, b) {
        ScoreStrict(sh, Descending, a, b);
      }
    }
  }

  /** The cases of the type switch overlap only where a `Fast` value also
      implements `Slow`; every other value passes at most one case, so the
      order in which the source lists the concrete kinds is immaterial. */
  lemma CasesOverlapOnlyFastSlow<U>(v: Value<U>, sh1: Shape, sh2: Shape)
    requires HasShape(sh1, v) && HasShape(sh2, v) && sh1 != sh2
    ensures sh1 in {FastShape, SlowShape} && sh2 in {FastShape, SlowShape}
  {
  }

  /** `FnScore` applied to two compatible values separately gives one
      comparator, and scores that the comparator never contradicts and that
      separate what it separates, where `Separable`; likewise
      `FnScoreReversed`. */
  lemma FnScoreMonotone<U(!new)>(a: Value<U>, b: Value<U>)
    requires Resolve(a).Success? && Compatible(Resolve(a).value, a, b)
    ensures FnScore(a).Success? && FnScore(b).Success? && FnScore(a).value.less == FnScore(b).value.less
    ensures FnScore(a).value.less.Less(a, b) ==> FnScore(a).value.score <= FnScore(b).value.score
    ensures FnScore(a).value.less.Less(a, b) && Separable(Resolve(a).value, a, b) ==>
      FnScore(a).value.score < FnScore(b).value.score
    ensures FnScoreReversed(a).Success? && FnScoreReversed(b).Success?
    ensures FnScoreReversed(a).value.less == FnScoreReversed(b).value.less
    ensures FnScoreReversed(a).value.less.Less(a, b) ==>
      FnScoreReversed(a).value.score <= FnScoreReversed(b).value.score
    ensures FnScoreReversed(a).value.less.Less(a, b) && Separable(Resolve(a).value, a, b) ==>
      FnScoreReversed(a).value.score < FnScoreReversed(b).value.score
  {
    var sh := Resolve(a).value;
    assert Resolve(b) == Success(sh) by {
      if sh == SlowShape {
        assert a.t == b.t;
      }
    }
    if Comparator(sh, Ascending).Less(a, b) {
      ScoreMonotone(sh, Ascending, a, b);
      if Separable(sh, a, b) {
        ScoreStrict(sh, Ascending, a, b);
      }
    }
    if Comparator(sh, Descending).Less(a, b) {
      ScoreMonotone(sh, Descending, a, b);
      if Separable(sh, a, b) {
        ScoreStrict(sh, Descending, a, b);
      }
    }
  }

  /** The byte-sequence pair of the package's tests, "abcdef" < "abcdeg":
      ordered in both directions, and scored apart at byte index 5. */
  lemma BytesExample()
    ensures var a, b := Value<int>.ByteSlice([0x61, 0x62, 0x63, 0x64, 0x65, 0x66]),
                        Value<int>.ByteSlice([0x61, 0x62, 0x63, 0x64, 0x65, 0x67]);
      Fns(a) == Success(Funcs(Comparator(BytesShape, Ascending), Scorer(BytesShape, Ascending))) &&
      Comparator(BytesShape, Ascending).Less(a, b) && !Comparator(BytesShape, Ascending).Less(b, a) &&
      Comparator(BytesShape, Descending).Less(b, a) &&
      Scorer(BytesShape, Ascending).Apply(a) == 0x616263646566 as real &&
      Scorer(BytesShape, Ascending).Apply(b) == 0x616263646567 as real &&
      Scorer(BytesShape, Descending).Apply(b) < Scorer(BytesShape, Descending).Apply(a)
  {
    var p: seq<byte> := [0x61, 0x62, 0x63, 0x64, 0x65];
    PackedOfSix(p, 0x66);
    PackedOfSix(p, 0x67);
    var a, b := p + [0x66], p + [0x67];
    assert a == [0x61, 0x62, 0x63, 0x64, 0x65, 0x66] && b == [0x61, 0x62, 0x63, 0x64, 0x65, 0x67];
    CompareSkipsCommonPrefix(p, [0x66], [0x67]);
    CompareSkipsCommonPrefix(p, [0x67], [0x66]);
    assert Compare(a, b) == -1 && Compare(b, a) == 1;
  }

  /** The string pair of the package's tests, "abcdef" < "abcdei": ordered
      in both directions, scored 0x616263646566 and 0x616263646569, and
      negated when reversed. */
  lemma StringExample()
    ensures var a, b := Value<int>.Str([0x61, 0x62, 0x63, 0x64, 0x65, 0x66]),
                        Value<int>.Str([0x61, 0x62, 0x63, 0x64, 0x65, 0x69]);
      Comparator(StringShape, Ascending).Less(a, b) && !Comparator(StringShape, Ascending).Less(b, a) &&
      Comparator(StringShape, Descending).Less(b, a) && !Comparator(StringShape, Descending).Less(a, b) &&
      FnScore(a) == Success(LessScore(Comparator(StringShape, Ascending), 0x616263646566 as real)) &&
      FnScore(b) == Success(LessScore(Comparator(StringShape, Ascending), 0x616263646569 as real)) &&
      FnScoreReversed(b) == Success(LessScore(Comparator(StringShape, Descending), -(0x616263646569 as real)))
  {
    StringPairOrdered();
    StringPairScored();
  }

  /** The order half of `StringExample`: the pair first differs at byte 5. */
  lemma StringPairOrdered()
    ensures var a, b := Value<int>.Str([0x61, 0x62, 0x63, 0x64, 0x65, 0x66]),
                        Value<int>.Str([0x61, 0x62, 0x63, 0x64, 0x65, 0x69]);
      Comparator(StringShape, Ascending).Less(a, b) && !Comparator(StringShape, Ascending).Less(b, a) &&
      Comparator(StringShape, Descending).Less(b, a) && !Comparator(StringShape, Descending).Less(a, b)
  {
    var p: seq<byte> := [0x61, 0x62, 0x63, 0x64, 0x65];
    LexLessAtDifference(p, 0x66, 0x69, [], []);
    assert p + [0x66] + [] == [0x61, 0x62, 0x63, 0x64, 0x65, 0x66];
    assert p + [0x69] + [] == [0x61, 0x62, 0x63, 0x64, 0x65, 0x69];
  }

  /** The score half of `StringExample`. */
  lemma StringPairScored()
    ensures var a, b := Value<int>.Str([0x61, 0x62, 0x63, 0x64, 0x65, 0x66]),
                        Value<int>.Str([0x61, 0x62, 0x63, 0x64, 0x65, 0x69]);
      FnScore(a) == Success(LessScore(Comparator(StringShape, Ascending), 0x616263646566 as real)) &&
      FnScore(b) == Success(LessScore(Comparator(StringShape, Ascending), 0x616263646569 as real)) &&
      FnScoreReversed(b) == Success(LessScore(Comparator(StringShape, Descending), -(0x616263646569 as real)))
  {
    var p: seq<byte> := [0x61, 0x62, 0x63, 0x64, 0x65];
    PackedOfSix(p, 0x66);
    PackedOfSix(p, 0x69);
    var a, b := p + [0x66], p + [0x69];
    assert a == [0x61, 0x62, 0x63, 0x64, 0x65, 0x66] && b == [0x61, 0x62, 0x63, 0x64, 0x65, 0x69];
  }

  /** The integer pairs of the package's tests: 0 < 1 in every integer
      kind, with scores 0 and 1, and -1 < -0 reversed. */
  lemma IntegerExample(k: IntKind)
    ensures var a, b := Value<int>.Integer(k, 0), Value<int>.Integer(k, 1);
      Fns(a).Success? && Fns(a).value.less.Less(a, b) && !Fns(a).value.less.Less(b, a) &&
      Fns(a).value.score.Apply(a) == 0.0 && Fns(a).value.score.Apply(b) == 1.0 &&
      FnScoreReversed(b).value.less.Less(b, a) &&
      FnScoreReversed(b).value.score == -1.0 && FnScoreReversed(a).value.score == 0.0
  {
  }

  /** The score of five bytes followed by `x`. */
  lemma PackedOfSix(p: seq<byte>, x: byte)
    requires p == [0x61, 0x62, 0x63, 0x64, 0x65]
    ensures Packed(p + [x]) == 0x616263646500 + x
  {
    BigEndianSnoc([], 0x61);
    assert [] + [0x61] == [0x61];
    BigEndianSnoc([0x61], 0x62);
    assert [0x61] + [0x62] == [0x61, 0x62];
    BigEndianSnoc([0x61, 0x62], 0x63);
    assert [0x61, 0x62] + [0x63] == [0x61, 0x62, 0x63];
    BigEndianSnoc([0x61, 0x62, 0x63], 0x64);
    assert [0x61, 0x62, 0x63] + [0x64] == [0x61, 0x62, 0x63, 0x64];
    BigEndianSnoc([0x61, 0x62, 0x63, 0x64], 0x65);
    assert [0x61, 0x62, 0x63, 0x64] + [0x65] == p;
    BigEndianSnoc(p, x);
    PackedIgnoresTail(p + [x], []);
    assert (p + [x])[..Width] == p + [x];
  }
}
