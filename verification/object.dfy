/** The runtime values of the interpreter (Go package `object`): the closed set
    of variants, their type tags, and the hash keys of the hashable variants.
    Rendering (`Inspect`) is in module ObjectInspect. */
module Object {

  import opened GoStrings
  import opened Int64
  import Fnv

  /** Go's `ObjectType`: a string naming a variant. */
  type ObjectType = Bytes

  const INTEGER_OBJ: ObjectType := Ascii("INTEGER")
  const BOOLEAN_OBJ: ObjectType := Ascii("BOOLEAN")
  const NULL_OBJ: ObjectType := Ascii("NULL")
  const RETURN_VALUE_OBJ: ObjectType := Ascii("RETURN_VALUE")
  const ERROR_OBJ: ObjectType := Ascii("ERROR")
  const FUNCTION_OBJ: ObjectType := Ascii("FUNCTION")
  const STRING_OBJ: ObjectType := Ascii("STRING")
  const BUILTIN_OBJ: ObjectType := Ascii("BUILTIN")
  const ARRAY_OBJ: ObjectType := Ascii("ARRAY")
  const HASH_OBJ: ObjectType := Ascii("HASH")
  const QUOTE_OBJ: ObjectType := Ascii("QUOTE")
  const MACRO_OBJ: ObjectType := Ascii("MACRO")

  /** The twelve tags in declaration order. */
  const ALL_TYPES: seq<ObjectType> :=
    [INTEGER_OBJ, BOOLEAN_OBJ, NULL_OBJ, RETURN_VALUE_OBJ, ERROR_OBJ, FUNCTION_OBJ,
     STRING_OBJ, BUILTIN_OBJ, ARRAY_OBJ, HASH_OBJ, QUOTE_OBJ, MACRO_OBJ]

  /** A syntax-tree node. The syntax tree is not part of this model; a node is
      represented by its canonical rendering (the node's `String()`). */
  datatype Node = Node(text: Bytes)

  /** An environment (binding scope), known here only by its identity. */
  datatype Environment = Environment(id: nat)

  /** A host-language function behind a builtin, known only by its identity. */
  datatype BuiltinFunction = BuiltinFunction(id: nat)

  /** Go's `Object` interface, closed over its twelve implementations. */
  datatype Value =
    | Integer(intValue: int64)
    | Boolean(boolValue: bool)
    | Null
    | ReturnValue(wrapped: Value)
    | Error(message: Bytes)
    | Function(parameters: seq<Node>, body: Node, env: Environment)
    | String(strValue: Bytes)
    | Builtin(fn: BuiltinFunction)
    | Array(elements: seq<Value>)
    | Hash(pairs: map<HashKey, HashPair>)
    | Quote(node: Node)
    | Macro(parameters: seq<Node>, body: Node, env: Environment)

  /** A stored key value and the value it maps to. */
  datatype HashPair = HashPair(key: Value, value: Value)

  /** The key a Hash is indexed by: the tag of the key's variant and a 64-bit number. */
  datatype HashKey = HashKey(typ: ObjectType, value: uint64)

  /** Go's `Type()` method. */
  function TypeOf(v: Value): ObjectType {
    match v
    case Integer(_) => INTEGER_OBJ
    case Boolean(_) => BOOLEAN_OBJ
    case Null => NULL_OBJ
    case ReturnValue(_) => RETURN_VALUE_OBJ
    case Error(_) => ERROR_OBJ
    case Function(_, _, _) => FUNCTION_OBJ
    case String(_) => STRING_OBJ
    case Builtin(_) => BUILTIN_OBJ
    case Array(_) => ARRAY_OBJ
    case Hash(_) => HASH_OBJ
    case Quote(_) => QUOTE_OBJ
    case Macro(_, _, _) => MACRO_OBJ
  }

  /** Both values are built by the same constructor. */
  predicate SameVariant(v: Value, w: Value) {
    || (v.Integer? && w.Integer?)
    || (v.Boolean? && w.Boolean?)
    || (v.Null? && w.Null?)
    || (v.ReturnValue? && w.ReturnValue?)
    || (v.Error? && w.Error?)
    || (v.Function? && w.Function?)
    || (v.String? && w.String?)
    || (v.Builtin? && w.Builtin?)
    || (v.Array? && w.Array?)
    || (v.Hash? && w.Hash?)
    || (v.Quote? && w.Quote?)
    || (v.Macro? && w.Macro?)
  }

  /** The twelve tag strings are pairwise distinct: no two share both of their
      first two letters. */
  lemma TypeNamesDistinct()
    ensures forall i, j :: 0 <= i < j < |ALL_TYPES| ==> ALL_TYPES[i] != ALL_TYPES[j]
  {
    forall i, j | 0 <= i < j < |ALL_TYPES|
      ensures ALL_TYPES[i] != ALL_TYPES[j]
    {
      assert ALL_TYPES[i][0] != ALL_TYPES[j][0] || ALL_TYPES[i][1] != ALL_TYPES[j][1];
    }
  }

  /** The position of a value's constructor in the declaration. */
  function Ordinal(v: Value): (n: nat)
    ensures n < |ALL_TYPES| && ALL_TYPES[n] == TypeOf(v)
  {
    match v
    case Integer(_) => 0
    case Boolean(_) => 1
    case Null => 2
    case ReturnValue(_) => 3
    case Error(_) => 4
    case Function(_, _, _) => 5
    case String(_) => 6
    case Builtin(_) => 7
    case Array(_) => 8
    case Hash(_) => 9
    case Quote(_) => 10
    case Macro(_, _, _) => 11
  }

  /** `Type()` tells the variants apart: two values carry the same tag exactly
      when they are built by the same constructor. */
  lemma TypeOfSeparatesVariants(v: Value, w: Value)
    ensures TypeOf(v) == TypeOf(w) <==> SameVariant(v, w)
  {
    TypeNamesDistinct();
    var m, n := Ordinal(v), Ordinal(w);
    assert TypeOf(v) == TypeOf(w) <==> m == n;
  }

  /** Go's `Hashable` interface: only Integer, Boolean and String implement it. */
  predicate IsHashable(v: Value) {
    v.Integer? || v.Boolean? || v.String?
  }

  /** Go's `HashKey()` method of the hashable variants. The key carries the
      value's own tag; the number is 1 or 0 for a Boolean, the int64's bit
      pattern for an Integer, and the FNV-1a-64 hash of the bytes for a String. */
  function HashKeyOf(v: Value): (k: HashKey)
    requires IsHashable(v)
    ensures k.typ == TypeOf(v)
    ensures v.Boolean? ==> k.value < 2 && (k.value == 1 <==> v.boolValue)
    ensures v.Integer? ==> FromUint64(k.value) == v.intValue
    ensures v.String? ==> k.value == FromBits(Fnv.Hash(v.strValue))
  {
    match v
    case Boolean(b) => HashKey(TypeOf(v), if b then 1 else 0)
    case Integer(i) =>
      ToUint64RoundTrip(i, 0);
      HashKey(TypeOf(v), ToUint64(i))
    case String(s) => HashKey(TypeOf(v), FromBits(Fnv.Write(Fnv.OFFSET_BASIS, s)))
  }

  /** When two hashable values are the same key: same variant, and the same
      integer, the same boolean, or strings whose FNV-1a-64 hashes agree. */
  predicate KeyEquivalent(a: Value, b: Value) {
    match a
    case Integer(i) => b.Integer? && b.intValue == i
    case Boolean(x) => b.Boolean? && b.boolValue == x
    case String(s) => b.String? && Fnv.Hash(s) == Fnv.Hash(b.strValue)
    case _ => false
  }

  /** Two hash keys are equal exactly when the values are key-equivalent. In
      particular values of different variants never share a key, integers and
      booleans are keyed injectively, and equal strings always share a key. */
  lemma HashKeyEquality(a: Value, b: Value)
    requires IsHashable(a) && IsHashable(b)
    ensures HashKeyOf(a) == HashKeyOf(b) <==> KeyEquivalent(a, b)
  {
    if a.String? && b.String? {
      StringKeys(a.strValue, b.strValue);
    } else if a.Integer? && b.Integer? {
      IntegerKeys(a.intValue, b.intValue);
    } else if !(a.Boolean? && b.Boolean?) {
      TypeOfSeparatesVariants(a, b);
    }
  }

  /** String keys agree exactly when the FNV-1a-64 hashes do. */
  lemma StringKeys(s: Bytes, t: Bytes)
    ensures HashKeyOf(String(s)) == HashKeyOf(String(t)) <==> Fnv.Hash(s) == Fnv.Hash(t)
  {
    FromBitsInjective(Fnv.Hash(s), Fnv.Hash(t));
  }

  /** Integer keys agree exactly when the integers do. */
  lemma IntegerKeys(i: int64, j: int64)
    ensures HashKeyOf(Integer(i)) == HashKeyOf(Integer(j)) <==> i == j
  {
    var ki, kj := HashKeyOf(Integer(i)), HashKeyOf(Integer(j));
    assert ki == kj <==> FromUint64(ki.value) == FromUint64(kj.value);
  }

  /** For Integer and Boolean keys the key determines the value. */
  lemma ScalarKeysInjective(a: Value, b: Value)
    requires a.Integer? || a.Boolean?
    requires b.Integer? || b.Boolean?
    ensures HashKeyOf(a) == HashKeyOf(b) <==> a == b
  {
    HashKeyEquality(a, b);
  }

  /** Integer 1 and Boolean true carry the same number, 1, but different keys. */
  lemma OneIsNotTrue()
    ensures HashKeyOf(Integer(1)).value == HashKeyOf(Boolean(true)).value == 1
    ensures HashKeyOf(Integer(1)) != HashKeyOf(Boolean(true))
  {
    TypeOfSeparatesVariants(Integer(1), Boolean(true));
  }

  /** A negative integer is keyed by its two's-complement bit pattern. */
  lemma NegativeIntegerKey(i: int64)
    requires i < 0
    ensures HashKeyOf(Integer(i)).value as int == i as int + TWO_TO_64
  {
  }
}
