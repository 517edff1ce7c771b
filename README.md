# ord: comparators and scores for ordered containers, in Dafny

Package `ord` gives generic ordered containers (heaps, sorted sets, priority
queues) two things for any supported value: a strict "less" comparator and a
numeric score. The score approximates the value's rank, so a container can index
by a plain number. The package has four entry points:

- `Fns` returns both as closures, in ascending order.
- `FnsReversed` returns both as closures, in descending order.
- `FnScore` returns the comparator and the score of one given value.
- `FnScoreReversed` is the descending version of `FnScore`.

All four use the same type switch. It first tries values implementing `Fast`
(their own `Less` and `Score`), then values implementing `Slow` (their own
`Less`, score 0). `Fast` must come first, because every `Fast` value also
implements `Slow`. After these come the concrete kinds: `[]byte`, `float32`,
`float64`, the signed integer kinds, `string`, and the unsigned integer kinds
and `uintptr`. These kinds are disjoint, so their order does not matter.

Any other value panics with a message naming its type. Byte slices and
strings score by `scoreBytes`. It packs the first six bytes big-endian, padding
with zeros, into a number below 2^48.

The model has four modules:

- `Bytes` (bytes.dfy) holds the byte type and `Compare`, which models Go's
  `bytes.Compare`. It also holds `LexLess`, the lexicographic order that Go's
  built-in string `<` uses, defined through the longest common prefix. The
  lemmas say that the two agree and that the order is strict.
- `ScoreBytes` (score_bytes.dfy) holds `Packed`, the specification of the score
  as a big-endian number. It also holds the imperative `ScoreBytes` method, which
  follows the source's loop and is proved equal to `Packed`. The lemmas say that
  the score is a monotone but lossy proxy for the lexicographic order.
- `Ord` (ord.dfy) models Go's `interface{}` values as the closed datatype
  `Value`. The type-switch cases are `HasShape`, and `Resolve` is the switch
  itself: first match wins, and an unsupported value gets the panic message.
  The returned closures become tagged datatypes (`Comparator`, `Scorer`) with
  member functions `Less` and `Apply`. The four entry points are `Fns`,
  `FnsReversed`, `FnScore` and `FnScoreReversed`.
- `OrdProperties` (ord_properties.dfy) holds the guarantees that the package's
  tests check for every shape: the comparator is a strict order, the score never
  contradicts it, the reversed variants mirror the ascending ones, `Slow` values
  tie, `Fast` takes priority over `Slow`, and unsupported values fail in all four
  entry points.

A user type is modelled as `UserType`: its `%T` name plus optional `less` and
`score` functions, which stand for the Go methods it declares. The library
asks that `Less` be a strict order and that `Score` agree with it. That
assumption is the ghost predicate `Lawful`. Results that depend on it require
it, through `Compatible`.

## Model

| member | source | states |
|---|---|---|
| Bytes.Compare | ord.go:58 | `bytes.Compare` returns -1, 0 or 1 |
| Bytes.CompareMeaning | ord.go:58 | `bytes.Compare(a, b) < 0` exactly when `a` sorts lexicographically before `b`; it is 0 exactly when they are equal; it is `> 0` exactly when `b` sorts first |
| Bytes.CompareAntisymmetric | ord.go:117 | swapping the arguments of `bytes.Compare` negates it, so the reversed test `Compare(a, b) > 0` is the ascending test on `(b, a)` |
| Bytes.LexLess | ord.go:82 | Go's string `<`: a string never sorts before itself, a proper prefix sorts first, and otherwise the first differing byte decides |
| Bytes.CommonPrefixSymmetric | ord.go:82 | the first index where two byte strings differ does not depend on argument order |
| Bytes.LexLessStrictOrder | ord.go:82 | the byte-wise string order is irreflexive, asymmetric and transitive |
| Bytes.CompareSkipsCommonPrefix | ord.go:58 | a shared prefix does not change the result of `bytes.Compare` |
| Bytes.LexLessAtDifference | ord.go:82 | after a shared prefix, the next byte decides the string order in both directions, whatever follows it |
| ScoreBytes.ScoreBytes | ord.go:287-297 | the clamp-and-pack loop returns `Packed(data)`; the loop invariant says the accumulator holds the first `i` bytes shifted into place, with its low bytes still zero |
| ScoreBytes.Packed | ord.go:287-297 | the score is always below 2^48, so the float64 conversion is exact |
| ScoreBytes.BigEndian | ord.go:294 | a number packed from `n` bytes is below 256^n |
| ScoreBytes.PackedValue | ord.go:288-296 | the score equals the big-endian number of the first min(6, len) bytes, times 256 for each padding byte |
| ScoreBytes.PackedIgnoresTail | ord.go:288-291 | bytes from index 6 on never change the score |
| ScoreBytes.PackedMonotone | ord.go:287-297 | if `a` sorts before `b` lexicographically, then score(a) <= score(b); this includes proper prefixes and late differences |
| ScoreBytes.PackedStrict | ord.go:287-297 | sequences that first differ at an index below 6, where `a` has the smaller byte, get strictly ordered scores |
| ScoreBytes.PackedTies | ord.go:288-291 | sequences that agree on their first six bytes get equal scores |
| ScoreBytes.PackedZeroPaddingTies | ord.go:292-296 | a sequence shorter than six bytes ties with itself plus a zero byte, though it sorts strictly first |
| Ord.Resolve | ord.go:50-103 | the shape found is one whose test the value passes; every case the value passes is the result, except `Slow`, which loses to `Fast`; failure carries "cannot order type %T: ..." |
| OrdProperties.CasesOverlapOnlyFastSlow | ord.go:50-101 | a value passes two cases of the type switch only when they are `Fast` and `Slow`, so the order of the concrete-kind cases does not matter |
| Ord.CannotOrder | ord.go:103 | the panic message is "cannot order type ", then the type's name, then ": no method Less(a, b interface{}) bool" |
| Ord.Comparator.Less | ord.go:52-159 | the less closures; the `[]byte` one, `bytes.Compare(a, b) < 0` (or `> 0` when reversed), is exactly the lexicographic order (or its reverse) |
| Ord.Scorer.Apply | ord.go:53-160 | the score closures; byte-slice and string scores are non-negative and below 2^48 (non-positive and above -2^48 when reversed), and `Slow` scores are 0 |
| Ord.Fns | ord.go:49-104 | succeeds exactly when the type switch does; both closures are built for the value's shape, ascending; otherwise the panic message names the type |
| Ord.FnsReversed | ord.go:108-163 | like `Fns`, with both closures descending |
| Ord.FnScore | ord.go:170-225 | returns the same comparator as `Fns`, and the score that `Fns`'s score closure gives the value; it fails exactly when `Fns` fails, with the same message |
| Ord.FnScoreReversed | ord.go:229-284 | relates to `FnsReversed` the way `FnScore` relates to `Fns` |
| OrdProperties.ReversedMirrorsAscending | ord.go:108-160 | for every shape, the reversed `less(a, b)` equals the ascending `less(b, a)`, and the reversed score is the negated ascending score |
| OrdProperties.LessIsStrictOrder | ord.go:49-101 | for every shape and both directions, the comparator is irreflexive, asymmetric and transitive |
| OrdProperties.ScoreMonotone | ord.go:49-101 | for every shape and both directions, if `less(a, b)` then score(a) <= score(b) |
| OrdProperties.ScoreStrict | ord.go:57-101 | for numbers, and for byte slices and strings that first differ within six bytes, `less(a, b)` implies score(a) < score(b), in both directions; for numbers this is about the exact scores, before float64 rounding |
| OrdProperties.SlowScoresTie | ord.go:54-56 | every `Slow` value scores 0 in both directions, so any two tie |
| OrdProperties.FastTakesPriority | ord.go:51-56 | a value implementing `Fast` also implements `Slow`, but all four entry points use its own `Less` and `Score` (negated when reversed) |
| OrdProperties.UnsupportedIsFatal | ord.go:103 | exactly the values with no `Less` method and outside the listed kinds are unsupported; then all four entry points fail with one message naming the type (ord.go lines 103, 162, 224, 283) |
| OrdProperties.FnsMonotone | ord_test.go:43-75 | for the closures `Fns(a)` and `FnsReversed(a)` return, applied to values compatible with `a`: the comparator is a strict order, the score never contradicts it, and the score separates numbers and sequences that differ within six bytes |
| OrdProperties.FnScoreMonotone | ord_test.go:77-111 | `FnScore` on two compatible values gives one comparator and scores it never contradicts, strictly ordered for `Separable` pairs; the same holds for `FnScoreReversed` |
| OrdProperties.BytesExample | ord_test.go:26 | `"abcdef" < "abcdeg"` as `[]byte` in both directions; their scores are 0x616263646566 and 0x616263646567 |
| OrdProperties.StringExample | ord_test.go:34 | `"abcdef" < "abcdei"` in both directions; the strings score 0x616263646566 and 0x616263646569, and the reversed score is negated |
| OrdProperties.IntegerExample | ord_test.go:27-40 | for every integer kind, 0 < 1 with scores 0 and 1, and with scores -1 and 0 when reversed |

## Left out

- Floating point: `float32` and `float64` values are their exact real numbers. NaN, the infinities, signed zero and rounding are not modelled. (The reversed `Slow` score `-float64(0.0)` is a Go constant expression, and Go constants have no negative zero, so it is +0, as here.)
- Score conversion to float64: scores are exact numbers. For bytes, strings and integers up to 32 bits the conversion is exact. For `int64`, `uint64`, `int`, `uint` and `uintptr` values beyond 2^53, Go rounds, and the model keeps the exact integer.
- Integer widths: integer values are unbounded `int`s tagged with their kind. Nothing in the comparator or the score depends on the range of the kind.
- User `Less` and `Score` methods are foreign code. They are arbitrary functions carried by `UserType`. That they form a strict order with a consistent score is an assumption (`Lawful`), not something proved.
- Go runtime type assertions: most closures assert the dynamic type of their arguments and panic on a value of another shape. Three kinds do less. The `Slow` score closures (ord.go:56, 115) ignore their argument and return 0 for any value. The `Fast` and `Slow` less closures (ord.go:52, 55, 111, 114) assert only the receiver, and pass the other argument to the user's own `Less`. Mixing shapes is outside the package's contract, so the model requires the closure's shape of every argument (`HasShape` in the requires of `Comparator.Less` and `Scorer.Apply`) even for these closures.
- `%T` formatting: `TypeName` gives Go's name for the built-in kinds, and a user type carries its own name.
- `ScoreBytes.ScoreBytes` uses `+` where the source uses `|=`. A loop invariant shows the accumulator's low bytes are still zero when each byte is added, so the two agree. Bit-vector arithmetic is not modelled.
- `bytes.Compare` and Go's string `<` come from Go's standard library and runtime. They are modelled by their documented lexicographic meaning, not by their implementation.
- A named type with no methods whose underlying type is `[]byte`, `string` or a number does not match those cases in Go's type switch. The model represents it, like any other unsupported type, as `Other(name)` or as a `UserType` without `less`.
