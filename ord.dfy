/** The dispatcher of ord.go: given a value, pick the comparator and the
    score that ordered containers use for values of its shape.

    Go's `interface{}` values become the closed datatype `Value`; the case
    tests of the type switch become `HasShape`; the closures the four entry
    points return become the tagged datatypes `Comparator` and `Scorer`,
    applied through their member functions. */
module Ord {
  import opened Bytes
  import opened ScoreBytes

  datatype Option<T> = None | Some(value: T)

  /** A fatal error (Go's `panic`) carries its message. */
  datatype Result<T> = Success(value: T) | Failure(error: string)

  /** A type declared by the user of the library: its `%T` name and the
      methods it declares. `less` is a method `Less(interface{}) bool`,
      `score` a method `Score() float64`. */
  datatype UserType<!U> = UserType(name: string, less: Option<(U, U) -> bool>, score: Option<U -> real>)

  datatype FloatKind = Float32 | Float64

  /** The integer kinds of Go; `int`, `uint` and `uintptr` are platform-width. */
  datatype IntKind =
    | Int | Int16 | Int32 | Int64 | Int8
    | Uint | Uint16 | Uint32 | Uint64 | Uint8 | Uintptr
  {
    function Name(): string
    {
      match this
      case Int => "int" case Int16 => "int16" case Int32 => "int32"
      case Int64 => "int64" case Int8 => "int8" case Uint => "uint"
      case Uint16 => "uint16" case Uint32 => "uint32" case Uint64 => "uint64"
      case Uint8 => "uint8" case Uintptr => "uintptr"
    }
  }

  /** A Go value of unknown dynamic type. */
  datatype Value<!U> =
    | User(t: UserType<U>, x: U)              // a value of a user-declared type
    | ByteSlice(bytes: seq<byte>)             // []byte
    | Float(fk: FloatKind, f: real)           // float32 / float64, finite and not NaN
    | Integer(ik: IntKind, i: int)            // the integer kinds
    | Str(text: seq<byte>)                    // string, as its bytes
    | Other(typeName: string)                 // any other type, e.g. a struct or a map

  /** The cases of the type switch. The source tests `Fast` and `Slow`
      first; the concrete kinds after them are disjoint, so the order among
      them does not matter (`OrdProperties.CasesOverlapOnlyFastSlow`). */
  datatype Shape =
    | FastShape | SlowShape | BytesShape | FloatShape(fk: FloatKind)
    | IntegerShape(ik: IntKind) | StringShape

  /** `v` passes the type test (and the type assertion) of case `sh`. A value
      implementing `Fast` also implements `Slow`. */
  predicate HasShape<U>(sh: Shape, v: Value<U>)
  {
    match sh
    case FastShape => v.User? && v.t.less.Some? && v.t.score.Some?
    case SlowShape => v.User? && v.t.less.Some?
    case BytesShape => v.ByteSlice?
    case FloatShape(k) => v.Float? && v.fk == k
    case IntegerShape(k) => v.Integer? && v.ik == k
    case StringShape => v.Str?
  }

  /** What Go's `%T` prints for `v`. */
  function TypeName<U>(v: Value<U>): string
  {
    match v
    case User(t, _) => t.name
    case ByteSlice(_) => "[]uint8"
    case Float(k, _) => if k == Float32 then "float32" else "float64"
    case Integer(k, _) => k.Name()
    case Str(_) => "string"
    case Other(name) => name
  }

  /** The panic message for a value no case accepts: a fixed prefix, the
      type's name, a fixed suffix naming the missing method. */
  function CannotOrder(typeName: string): (m: string)
    ensures |m| == 18 + |typeName| + 39
    ensures m[..18] == "cannot order type "
    ensures m[18..18 + |typeName|] == typeName
    ensures m[18 + |typeName|..] == ": no method Less(a, b interface{}) bool"
  {
    "cannot order type " + typeName + ": no method Less(a, b interface{}) bool"
  }

  /** The type switch shared by the four entry points: the first case whose
      test `v` passes wins, so a `Fast` value never resolves to `Slow`; a
      value that passes none is a fatal error naming its type. */
  function Resolve<U>(v: Value<U>): (r: Result<Shape>)
    ensures r.Success? ==> HasShape(r.value, v)
    ensures forall sh :: HasShape(sh, v) ==>
      r.Success? && (r.value == sh || (sh == SlowShape && r.value == FastShape))
    ensures r.Failure? ==> r.error == CannotOrder(TypeName(v))
  {
    if HasShape(FastShape, v) then Success(FastShape)
    else if HasShape(SlowShape, v) then Success(SlowShape)
    else match v
      case ByteSlice(_) => Success(BytesShape)
      case Float(k, _) => Success(FloatShape(k))
      case Integer(k, _) => Success(IntegerShape(k))
      case Str(_) => Success(StringShape)
      case User(t, _) => Failure(CannotOrder(t.name))
      case Other(name) => Failure(CannotOrder(name))
  }

  datatype Direction = Ascending | Descending

  /** The `less` closure built for a shape and a direction. For the
      built-in kinds, Go asserts the type of both arguments; for `Fast` and
      `Slow` it asserts only the receiver and hands the other argument to the
      user's `Less`. Mixing shapes is outside the package's contract, so both
      arguments must have the shape here. */
  datatype Comparator = Comparator(shape: Shape, dir: Direction) {
    predicate Less<U>(a: Value<U>, b: Value<U>)
      requires HasShape(shape, a) && HasShape(shape, b)
      ensures shape == BytesShape ==>
        (Less(a, b) <==> if dir == Ascending then LexLess(a.bytes, b.bytes) else LexLess(b.bytes, a.bytes))
    {
      match shape
      case FastShape | SlowShape =>
        if dir == Ascending then a.t.less.value(a.x, b.x) else b.t.less.value(b.x, a.x)
      case BytesShape =>
        CompareMeaning(a.bytes, b.bytes);
        if dir == Ascending then Compare(a.bytes, b.bytes) < 0 else Compare(a.bytes, b.bytes) > 0
      case FloatShape(_) =>
        if dir == Ascending then a.f < b.f else a.f > b.f
      case IntegerShape(_) =>
        if dir == Ascending then a.i < b.i else a.i > b.i
      case StringShape =>
        if dir == Ascending then LexLess(a.text, b.text) else LexLess(b.text, a.text)
    }
  }

  /** The `score` closure built for a shape and a direction. Go's `Slow`
      closure ignores its argument; here every argument must have the shape,
      as for the comparator. */
  datatype Scorer = Scorer(shape: Shape, dir: Direction) {
    function Apply<U>(t: Value<U>): (r: real)
      requires HasShape(shape, t)
      ensures shape == BytesShape || shape == StringShape ==>
        (if dir == Ascending then 0.0 <= r < 0x1_0000_0000_0000 as real
         else -(0x1_0000_0000_0000 as real) < r <= 0.0)
      ensures shape == SlowShape ==> r == 0.0
    {
      var s := match shape
        case FastShape => t.t.score.value(t.x)
        case SlowShape => 0.0
        case BytesShape => Packed(t.bytes) as real
        case FloatShape(_) => t.f
        case IntegerShape(_) => t.i as real
        case StringShape => Packed(t.text) as real;
      if dir == Ascending then s else -s
    }
  }

  /** The pair of closures `Fns` and `FnsReversed` return. */
  datatype Funcs = Funcs(less: Comparator, score: Scorer)

  /** The comparator and the immediate score `FnScore` and `FnScoreReversed` return. */
  datatype LessScore = LessScore(less: Comparator, score: real)

  /** Both closures are built for the shape `v` resolves to, in direction `dir`. */
  ghost predicate BuiltFor<U>(f: Funcs, v: Value<U>, dir: Direction)
  {
    Resolve(v).Success? &&
    f.less == Comparator(Resolve(v).value, dir) && f.score == Scorer(Resolve(v).value, dir)
  }

  /** `Fns`: increasing order. */
  function Fns<U>(a: Value<U>): (r: Result<Funcs>)
    ensures r.Success? <==> Resolve(a).Success?
    ensures r.Success? ==> BuiltFor(r.value, a, Ascending) && HasShape(r.value.less.shape, a)
    ensures r.Failure? ==> r.error == CannotOrder(TypeName(a))
  {
    match Resolve(a)
    case Success(sh) => Success(Funcs(Comparator(sh, Ascending), Scorer(sh, Ascending)))
    case Failure(e) => Failure(e)
  }

  /** `FnsReversed`: decreasing order. */
  function FnsReversed<U>(a: Value<U>): (r: Result<Funcs>)
    ensures r.Success? <==> Resolve(a).Success?
    ensures r.Success? ==> BuiltFor(r.value, a, Descending) && HasShape(r.value.less.shape, a)
    ensures r.Failure? ==> r.error == CannotOrder(TypeName(a))
  {
    match Resolve(a)
    case Success(sh) => Success(Funcs(Comparator(sh, Descending), Scorer(sh, Descending)))
    case Failure(e) => Failure(e)
  }

  /** `FnScore`: the comparator `Fns` would return, and the score its score
      closure would give `v`, computed directly as the source does. */
  function FnScore<U>(v: Value<U>): (r: Result<LessScore>)
    ensures r.Success? <==> Fns(v).Success?
    ensures r.Success? ==>
      r.value.less == Fns(v).value.less && r.value.score == Fns(v).value.score.Apply(v)
    ensures r.Failure? ==> r.error == Fns(v).error
  {
    match Resolve(v)
    case Failure(e) => Failure(e)
    case Success(sh) =>
      var less := Comparator(sh, Ascending);
      match v
      case User(t, x) => Success(LessScore(less, if sh == FastShape then t.score.value(x) else 0.0))
      case ByteSlice(d) => Success(LessScore(less, Packed(d) as real))
      case Float(_, f) => Success(LessScore(less, f))
      case Integer(_, i) => Success(LessScore(less, i as real))
      case Str(s) => Success(LessScore(less, Packed(s) as real))
  }

  /** `FnScoreReversed`: the comparator `FnsReversed` would return, and the
      negated score. */
  function FnScoreReversed<U>(v: Value<U>): (r: Result<LessScore>)
    ensures r.Success? <==> FnsReversed(v).Success?
    ensures r.Success? ==>
      r.value.less == FnsReversed(v).value.less && r.value.score == FnsReversed(v).value.score.Apply(v)
    ensures r.Failure? ==> r.error == FnsReversed(v).error
  {
    match Resolve(v)
    case Failure(e) => Failure(e)
    case Success(sh) =>
      var less := Comparator(sh, Descending);
      match v
      case User(t, x) => Success(LessScore(less, if sh == FastShape then -t.score.value(x) else -0.0))
      case ByteSlice(d) => Success(LessScore(less, -(Packed(d) as real)))
      case Float(_, f) => Success(LessScore(less, -f))
      case Integer(_, i) => Success(LessScore(less, -(i as real)))
      case Str(s) => Success(LessScore(less, -(Packed(s) as real)))
  }
}
