# Monkey runtime values in Dafny

This project models the runtime value model of the Monkey interpreter (Go
package `object`, file `object/object.go`). It covers three things:

- **Values and tags.** There are twelve value variants: Integer, Boolean, Null,
  ReturnValue, Error, Function, String, Builtin, Array, Hash, Quote and Macro.
  Each has a fixed `Type()` tag string.
- **Hash keys.** Integer, Boolean and String are the hashable variants. Each
  derives a `HashKey`, which is its tag paired with a 64-bit number. For a
  String that number is the 64-bit FNV-1a hash of its bytes, computed the way
  Go's `hash/fnv` does.
- **Rendering.** `Inspect()` is the human-readable rendering of every variant.

The model is purely functional. Go strings are byte sequences
(`GoStrings.Bytes`, a sequence of `byte`, the integers 0 to 255). Go's
`int64` and `uint64` are bounded integer newtypes. The FNV state is a `bv64`, so its multiplication wraps
modulo 2^64 as Go's does.

Modules, one file each:

| file | module | contents |
|---|---|---|
| `wrappers.dfy` | `Wrappers` | `Option` |
| `gostrings.dfy` | `GoStrings` | Go strings as bytes, ASCII literals, `strings.Join` |
| `int64.dfy` | `Int64` | `int64`/`uint64`, the conversion `uint64(i)` and its inverse |
| `decimal.dfy` | `Decimal` | `%d` formatting and a reference decimal parser |
| `fnv.dfy` | `Fnv` | FNV-1a-64: reference definition, Go's `Write` loop, `Sum64` |
| `object.dfy` | `Object` | `ObjectType` tags, `Value`, `HashKey`, `HashPair`, `Type()`, `HashKey()` |
| `inspect.dfy` | `ObjectInspect` | `Inspect()` and the properties of every rendering |

Design decisions:

- **Syntax-tree nodes.** The syntax tree is outside this model. A node
  (a function's parameters and body, a quoted node) is represented only by its
  `String()` rendering.
- **Opaque identities.** Environments and the host functions behind builtins
  are represented only by an identity.
- **Hash iteration order.** `Hash.Inspect` ranges over a Go map, and Go does not
  specify the iteration order. The model's `Inspect` therefore picks some
  order that lists every key exactly once (`IsIterationOrder`), and promises
  nothing about which order. That choice makes `Inspect` a ghost function.
  Every lemma about a Hash rendering holds for every iteration order.
- **Tag strings in keys.** `HashKey.typ` is the tag string itself, as in Go.
  Comparing keys therefore relies on the twelve tag strings being pairwise
  distinct, which `Object.TypeNamesDistinct` proves.

## Model

| member | source | states |
|---|---|---|
| `Object.TypeNamesDistinct` | object/object.go:14-27 | The twelve `ObjectType` constants are pairwise distinct strings. |
| `Object.TypeOf` | object/object.go:43-220 | Every variant's `Type()`. Its properties are stated by `Object.Ordinal` (the tag is one of the twelve constants, at the variant's declaration position) and by `Object.TypeOfSeparatesVariants`. |
| `Object.TypeOfSeparatesVariants` | object/object.go:43-220 | Two values have the same `Type()` exactly when the same variant built them. So every variant carries its own tag, shared with no other variant. |
| `Object.HashKeyOf` | object/object.go:151-177 | A hashable value's key carries the value's own `Type()`. Its number is below 2 for a Boolean, and is 1 exactly for `true`. For an Integer, the number read back as an int64 is the integer. For a String, the number is the FNV-1a-64 hash of the string's bytes. |
| `Object.HashKeyEquality` | object/object.go:151-177 | Two hashable values have equal keys exactly when they are the same variant and are equal integers, equal booleans, or strings with equal FNV-1a-64 hashes. |
| `Object.ScalarKeysInjective` | object/object.go:156-170 | For Integer and Boolean values, equal keys mean equal values, and the converse holds too. |
| `Object.StringKeys` | object/object.go:172-177 | Two strings get the same key exactly when their FNV-1a-64 hashes agree. |
| `Object.IntegerKeys` | object/object.go:167-169 | Two integers get the same key exactly when they are equal. |
| `Object.OneIsNotTrue` | object/object.go:165-169 | Integer 1 and Boolean true both hash to the number 1, yet their keys differ. |
| `Object.NegativeIntegerKey` | object/object.go:168-170 | A negative integer's key number is the integer plus 2^64, which is its two's-complement bit pattern. |
| `Int64.ToUint64` | object/object.go:169 | `uint64(i)` agrees with `i` modulo 2^64. It is at least 2^63 exactly when `i` is negative. |
| `Int64.FromUint64` | object/object.go:169 | Go's `int64(u)`, the inverse reinterpretation: it agrees with `u` modulo 2^64. `Int64.ToUint64RoundTrip` proves it undoes `uint64(i)`. |
| `Int64.ToUint64RoundTrip` | object/object.go:169 | `int64(uint64(i)) == i`, and every bit pattern is the image of exactly one int64. |
| `Int64.ToUint64Injective` | object/object.go:169 | Distinct integers have distinct `uint64` reinterpretations. |
| `Int64.FromBitsInjective` | object/object.go:176 | Reading the 64-bit hash state as an unsigned number loses nothing: distinct states give distinct numbers. |
| `Fnv.Hash` | object/object.go:172-177 | The reference FNV-1a-64 of a byte string: the offset basis followed by one round per byte. `Fnv.Write`, `Fnv.Sum64` and `Fnv.TestVectors` state its agreement with Go's loop and with the published values. |
| `Fnv.Write` | object/object.go:173-174 | Go's front-to-back `Write` loop reaches the same state as the reference FNV-1a definition. |
| `Fnv.Sum64` | object/object.go:173-176 | `New64a`, `Write` and `Sum64`, written as Go's loop, compute the FNV-1a-64 hash of the bytes. |
| `Fnv.ContinueConcat` | object/object.go:174 | Writing `a` and then `b` leaves the same state as writing `a + b` in one call. |
| `Fnv.TestVectors` | object/object.go:173-176 | The hash matches the published FNV-1a-64 test vectors for "", "a" and "foobar". |
| `Decimal.Digits` | object/object.go:45 | `%d` of a natural number is non-empty, all digits, and starts with `0` only for zero. |
| `Decimal.FormatInt` | object/object.go:45 | `%d` has Go's shape: `-` exactly for a negative number, then digits with no leading zero (only zero itself renders as `0`, and never as `-0`). |
| `Decimal.DigitsRoundTrip` | object/object.go:45 | The reference parser reads back the digits of `n` as `n`. |
| `Decimal.FormatIntRoundTrip` | object/object.go:45 | The reference parser reads back `%d` of any integer as that integer. |
| `Decimal.DigitsUnique` | object/object.go:45 | A digit string without leading zeros is the digits of the number it parses to. |
| `Decimal.FormatIntUnique` | object/object.go:45 | Any text of `%d`'s shape that the reference parser reads as `n` is exactly `%d` of `n`. With the round trip, `%d` is a bijection between the integers and the texts of that shape. |
| `Decimal.FormatIntInjective` | object/object.go:45 | Distinct integers format differently. |
| `ObjectInspect.Inspect` | object/object.go:45-238 | Every variant's `Inspect()`. Each variant's rendering is stated by the `ObjectInspect` lemmas in the rows below. |
| `ObjectInspect.InspectInteger` | object/object.go:45 | An Integer renders in `%d` form: `-` exactly when negative, then digits without leading zeros that parse back to the integer. No other text of that form parses back to it. |
| `ObjectInspect.InspectIntegerInjective` | object/object.go:45 | Distinct integers render differently. |
| `ObjectInspect.LeafRenderings` | object/object.go:45-61 | Booleans render as `true` and `false`, and Null as `null`. No two of these renderings, nor any integer's, coincide. |
| `ObjectInspect.InspectError` | object/object.go:79 | An Error renders as `ERROR: ` followed by its message. The message can be read back, so distinct messages render differently. |
| `ObjectInspect.InspectString` | object/object.go:115 | A String renders as its raw bytes, with no quotes. |
| `ObjectInspect.StringRendersLikeInteger` | object/object.go:115 | Since strings render unquoted, the String "5" and the Integer 5 render the same. |
| `ObjectInspect.InspectReturnValue` | object/object.go:68-70 | Any number of ReturnValue wrappers render exactly as the wrapped value. The wrapper still changes the `Type()` of a value that is not itself a ReturnValue. |
| `ObjectInspect.InspectArray` | object/object.go:136-149 | The empty array renders as `[]`. Every array rendering starts with `[` and ends with `]`. A one-element array renders as `[`, the element, `]`. |
| `ObjectInspect.InspectArrayConcat` | object/object.go:136-149 | The rendering of `a + b` is `a`'s rendering without its `]`, then `, `, then `b`'s rendering without its `[`. |
| `ObjectInspect.InspectArrayPush` | object/object.go:136-149 | Appending an element inserts `, ` and its rendering before the closing `]`. |
| `ObjectInspect.InspectHash` | object/object.go:190-202 | For any iteration order, a Hash renders as `{`, then a permutation of that order's `key: value` entries (one per stored pair) joined with `, `, then `}`. |
| `ObjectInspect.InspectSmallHash` | object/object.go:190-202 | An empty Hash renders as `{}`. A one-pair Hash renders as `{key: value}`. |
| `ObjectInspect.EntriesOfPermutation` | object/object.go:193-196 | Permuting the iteration order only permutes the rendered entries. |
| `ObjectInspect.InspectFunction` | object/object.go:90-106 | A function's rendering begins with `fn(` and ends with its body followed by `\n}`. The captured environment does not affect the rendering. |
| `ObjectInspect.InspectMacro` | object/object.go:222-238 | A macro's rendering begins with `macro(` and ends with its body followed by `\n}`. The captured environment does not affect the rendering. |
| `ObjectInspect.FunctionRendersUnlikeMacro` | object/object.go:90-106 | No function renders like any macro, whatever their parameters, bodies and environments. |
| `ObjectInspect.InspectQuote` | object/object.go:210-212 | A Quote renders as `QUOTE(`, the node's rendering, then `)`. The node's rendering can be read back. |
| `ObjectInspect.InspectBuiltin` | object/object.go:127 | Every Builtin renders as `builtin function`, whatever host function it wraps. |
| `GoStrings.Join` | object/object.go:100 | Go's `strings.Join`, which the Function, Array, Hash and Macro renderings use. `GoStrings.JoinConcat` and `GoStrings.JoinLength` state its properties. |
| `GoStrings.JoinConcat` | object/object.go:145 | `strings.Join` of two non-empty lists equals the two joins with one separator between them. |
| `GoStrings.JoinLength` | object/object.go:145 | A join is as long as its parts plus one separator per gap. |

## Left out

- Lexer, parser, AST, evaluator, macro expansion and `Environment`: the
  definitions are outside `object/object.go`, and the model has none of their
  logic. A syntax node is represented by its `String()` rendering, and an
  environment by an identity.
- `repl/repl.go`: interactive I/O over a scanner and a writer. This includes
  the backslash line continuation.
- `Builtin.Fn`: a host closure. It is represented by an identity and never
  called.
- Pointer identity of the `true`, `false` and `null` singletons: the evaluator
  allocates these, and values here are plain data.
- Go's per-iteration randomisation of map order: the model fixes one
  (unspecified) order per map, and no lemma depends on which one.
- Which values may be used as keys: Go's type assertion to `Hashable` lives in
  the evaluator. Here `Object.HashKeyOf` simply requires `Object.IsHashable`.
- Well-formedness of a `Hash` (that each stored pair's key hashes to its map
  key): the evaluator maintains this, and `object/object.go` does not.
- ObjectInspect.InspectFunction: states only the framing around the
  parameters and body. Their text comes from the syntax tree's `String()`,
  which is outside this model.
- ObjectInspect.InspectMacro: the same framing-only statement, for
  `Macro.Inspect`.
- Nil objects: Go's `Object` is an interface, and the evaluator can produce a
  nil one (the REPL tests `evaluated != nil` before printing). `Value` has no
  nil, so `Inspect` is total here. In Go, rendering a ReturnValue that wraps
  nil, an array holding nil, or a hash pair whose key or value is nil panics
  with a nil-pointer dereference (object/object.go:70, 141, 195).
- String hash collisions: no collision is exhibited. `Object.HashKeyEquality`
  says only that string keys are equal exactly when the FNV-1a-64 hashes are.
