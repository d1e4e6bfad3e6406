/** Go's `Inspect()` method: the human-readable rendering of every runtime
    value. Rendering a Hash walks a Go map, whose iteration order is
    unspecified; the model therefore picks SOME order that lists every key
    exactly once and promises nothing about which. Because of that choice the
    rendering is a ghost function: every fact proved about it holds for every
    iteration order. */
module ObjectInspect {

  import opened Wrappers
  import opened GoStrings
  import opened Int64
  import opened Decimal
  import opened Object

  /** `keys` lists every element of `s` exactly once: a possible order of a
      `for ... range` over a Go map whose key set is `s`. */
  ghost predicate IsIterationOrder<K>(keys: seq<K>, s: set<K>) {
    && (forall i :: 0 <= i < |keys| ==> keys[i] in s)
    && (forall k :: k in s ==> k in keys)
    && (forall i, j :: 0 <= i < j < |keys| ==> keys[i] != keys[j])
  }

  lemma NoElementsEmpty<K>(s: set<K>)
    requires forall k :: k !in s
    ensures s == {}
  {
  }

  lemma Pick<K>(s: set<K>) returns (k: K)
    requires s != {}
    ensures k in s
  {
    if forall x :: x !in s {
      NoElementsEmpty(s);
    }
    k :| k in s;
  }

  /** Every finite key set can be iterated. */
  lemma {:induction false} IterationOrderExists<K>(s: set<K>)
    ensures exists keys :: IsIterationOrder(keys, s)
    decreases |s|
  {
    if s == {} {
      assert IsIterationOrder([], s);
    } else {
      var k := Pick(s);
      IterationOrderExists(s - {k});
      var rest :| IsIterationOrder(rest, s - {k});
      assert IsIterationOrder([k] + rest, s);
    }
  }

  /** Go's `Inspect()`. */
  ghost function Inspect(v: Value): Bytes
    decreases v, 1
  {
    match v
    case Integer(i) => FormatInt(i as int)
    case Boolean(b) => if b then Ascii("true") else Ascii("false")
    case Null => Ascii("null")
    case ReturnValue(w) => Inspect(w)
    case Error(m) => Ascii("ERROR: ") + m
    case Function(ps, body, _) => CallableText(Ascii("fn"), ps, body)
    case String(s) => s
    case Builtin(_) => Ascii("builtin function")
    case Array(es) => Ascii("[") + Join(Renderings(es), Ascii(", ")) + Ascii("]")
    case Hash(pairs) =>
      IterationOrderExists(pairs.Keys);
      var order :| IsIterationOrder(order, pairs.Keys);
      Ascii("{") + Join(Entries(pairs, order), Ascii(", ")) + Ascii("}")
    case Quote(n) => Ascii("QUOTE(") + n.text + Ascii(")")
    case Macro(ps, body, _) => CallableText(Ascii("macro"), ps, body)
  }

  /** The common rendering of functions and macros, which differ only in the
      keyword written first. */
  function CallableText(keyword: Bytes, ps: seq<Node>, body: Node): Bytes {
    keyword + Ascii("(") + Join(Texts(ps), Ascii(", ")) + Ascii(") {\n") + body.text + Ascii("\n}")
  }

  /** The renderings of the nodes (`p.String()` for each parameter). */
  function Texts(ns: seq<Node>): (r: seq<Bytes>)
    ensures |r| == |ns| && forall i :: 0 <= i < |ns| ==> r[i] == ns[i].text
  {
    seq(|ns|, i requires 0 <= i < |ns| => ns[i].text)
  }

  /** The renderings of array elements, in order. */
  ghost function Renderings(es: seq<Value>): (r: seq<Bytes>)
    ensures |r| == |es|
    decreases Array(es), 0
  {
    seq(|es|, i requires 0 <= i < |es| => Inspect(es[i]))
  }

  /** One `"key: value"` entry per key of `order`, in that order. */
  ghost function Entries(pairs: map<HashKey, HashPair>, order: seq<HashKey>): (r: seq<Bytes>)
    requires forall i :: 0 <= i < |order| ==> order[i] in pairs
    ensures |r| == |order|
    decreases Hash(pairs), 0
  {
    seq(|order|, i requires 0 <= i < |order| =>
      Inspect(pairs[order[i]].key) + Ascii(": ") + Inspect(pairs[order[i]].value))
  }

  // Leaf variants

  /** An Integer renders as its decimal form: an optional '-' (present exactly
      when the integer is negative) followed by digits without leading zeros,
      which the reference parser reads back as the same integer. No other text
      of that shape reads back as the integer. */
  lemma InspectInteger(i: int64)
    ensures IsCanonical(Inspect(Integer(i)))
    ensures ParseInt(Inspect(Integer(i))) == Some(i as int)
    ensures Inspect(Integer(i))[0] == MINUS <==> i < 0
    ensures i >= 0 ==> (Inspect(Integer(i))[0] == ZERO ==> i == 0)
    ensures i < 0 ==> |Inspect(Integer(i))| >= 2 && Inspect(Integer(i))[1] != ZERO
    ensures forall s :: IsCanonical(s) && ParseInt(s) == Some(i as int) ==> s == Inspect(Integer(i))
  {
    FormatIntRoundTrip(i as int);
    forall s | IsCanonical(s) && ParseInt(s) == Some(i as int)
      ensures s == Inspect(Integer(i))
    {
      FormatIntUnique(s, i as int);
    }
  }

  /** Distinct integers render differently. */
  lemma InspectIntegerInjective(i: int64, j: int64)
    ensures Inspect(Integer(i)) == Inspect(Integer(j)) <==> i == j
  {
    FormatIntInjective(i as int, j as int);
  }

  /** Booleans render as `true` and `false`, Null as `null`, and none of these
      can be mistaken for each other or for an integer. */
  lemma LeafRenderings(i: int64, b: bool)
    ensures Inspect(Boolean(true)) == Ascii("true")
    ensures Inspect(Boolean(false)) == Ascii("false")
    ensures Inspect(Null) == Ascii("null")
    ensures Inspect(Boolean(true)) != Inspect(Boolean(false))
    ensures Inspect(Boolean(b)) != Inspect(Null)
    ensures Inspect(Integer(i)) != Inspect(Boolean(b))
    ensures Inspect(Integer(i)) != Inspect(Null)
  {
    var r := Inspect(Integer(i));
    assert r[0] == MINUS || IsDigit(r[0]);
    assert Ascii("true")[0] as int == 't' as int;
    assert Ascii("false")[0] as int == 'f' as int;
    assert Ascii("null")[0] as int == 'n' as int;
    assert Ascii("true")[..] != Ascii("false");
  }

  /** An Error renders as `ERROR: ` followed by its message, so the message can
      be read back from the rendering. */
  lemma InspectError(m: Bytes, m': Bytes)
    ensures |Inspect(Error(m))| == 7 + |m|
    ensures Inspect(Error(m))[..7] == Ascii("ERROR: ")
    ensures Inspect(Error(m))[7..] == m
    ensures Inspect(Error(m)) == Inspect(Error(m')) <==> m == m'
  {
    assert Inspect(Error(m))[7..] == m;
    assert Inspect(Error(m'))[7..] == m';
  }

  /** A String renders as its raw bytes, with no quotes or escaping. */
  lemma InspectString(s: Bytes)
    ensures Inspect(String(s)) == s
  {
  }

  /** Because strings render without quotes, the rendering alone does not
      identify the variant: the string "5" and the integer 5 look the same. */
  lemma StringRendersLikeInteger()
    ensures Inspect(String(Ascii("5"))) == Inspect(Integer(5))
  {
    assert Digits(5) == [DigitByte(5)];
  }

  // Wrappers

  /** `v` inside `n` layers of ReturnValue. */
  function Wrap(v: Value, n: nat): Value
    decreases n
  {
    if n == 0 then v else ReturnValue(Wrap(v, n - 1))
  }

  /** The ReturnValue wrapper is invisible in a rendering, however deeply
      nested, though it does change the tag of a value that is not itself a
      ReturnValue. */
  lemma {:induction false} InspectReturnValue(v: Value, n: nat)
    ensures Inspect(Wrap(v, n)) == Inspect(v)
    ensures n > 0 && !v.ReturnValue? ==> TypeOf(Wrap(v, n)) != TypeOf(v)
    decreases n
  {
    if n > 0 {
      InspectReturnValue(v, n - 1);
      TypeOfSeparatesVariants(Wrap(v, n), v);
    }
  }

  // Arrays

  lemma RenderingsConcat(a: seq<Value>, b: seq<Value>)
    ensures Renderings(a + b) == Renderings(a) + Renderings(b)
  {
  }

  /** An array renders as `[`, the element renderings in order joined with
      `, `, and `]`; the empty array renders as `[]`. */
  lemma InspectArray(es: seq<Value>)
    ensures Inspect(Array([])) == Ascii("[]")
    ensures |Inspect(Array(es))| >= 2
    ensures Inspect(Array(es))[0] as int == '[' as int
    ensures Inspect(Array(es))[|Inspect(Array(es))| - 1] as int == ']' as int
    ensures |es| == 1 ==> Inspect(Array(es)) == Ascii("[") + Inspect(es[0]) + Ascii("]")
  {
    assert Ascii("[") + Join([], Ascii(", ")) + Ascii("]") == Ascii("[]");
  }

  /** The rendering of a concatenation splices the two renderings: drop the
      first's `]`, put `, `, drop the second's `[`. */
  lemma InspectArrayConcat(a: seq<Value>, b: seq<Value>)
    requires |a| > 0 && |b| > 0
    ensures Inspect(Array(a + b))
         == Inspect(Array(a))[..|Inspect(Array(a))| - 1] + Ascii(", ") + Inspect(Array(b))[1..]
  {
    var sep, open, close := Ascii(", "), Ascii("["), Ascii("]");
    var ja, jb := Join(Renderings(a), sep), Join(Renderings(b), sep);
    RenderingsConcat(a, b);
    JoinConcat(Renderings(a), Renderings(b), sep);
    assert Inspect(Array(a + b)) == open + (ja + sep + jb) + close;
    Splice(open, ja, jb, close, sep);
  }

  lemma Splice(open: Bytes, ja: Bytes, jb: Bytes, close: Bytes, sep: Bytes)
    requires |open| == 1 && |close| == 1
    ensures open + (ja + sep + jb) + close
         == (open + ja + close)[..|open + ja + close| - 1] + sep + (open + jb + close)[1..]
  {
    assert (open + ja + close)[..|open + ja + close| - 1] == open + ja;
    assert (open + jb + close)[1..] == jb + close;
  }

  /** Appending one element appends `, ` and its rendering before the `]`. */
  lemma InspectArrayPush(a: seq<Value>, x: Value)
    requires |a| > 0
    ensures Inspect(Array(a + [x]))
         == Inspect(Array(a))[..|Inspect(Array(a))| - 1] + Ascii(", ") + Inspect(x) + Ascii("]")
  {
    InspectArrayConcat(a, [x]);
    InspectArray([x]);
    assert Inspect(Array([x]))[1..] == Inspect(x) + Ascii("]");
  }

  // Hashes

  /** The shape of a Hash rendering, for the iteration order the model picked. */
  lemma InspectHashShape(pairs: map<HashKey, HashPair>) returns (order: seq<HashKey>)
    ensures IsIterationOrder(order, pairs.Keys)
    ensures Inspect(Hash(pairs)) == Ascii("{") + Join(Entries(pairs, order), Ascii(", ")) + Ascii("}")
  {
    IterationOrderExists(pairs.Keys);
    order :| IsIterationOrder(order, pairs.Keys)
      && Inspect(Hash(pairs)) == Ascii("{") + Join(Entries(pairs, order), Ascii(", ")) + Ascii("}");
  }

  /** An iteration order is exactly as long as the key set is large. */
  lemma {:induction false} IterationOrderLength<K>(keys: seq<K>, s: set<K>)
    requires IsIterationOrder(keys, s)
    ensures |keys| == |s|
    decreases |keys|
  {
    if |keys| == 0 {
      NoElementsEmpty(s);
    } else {
      var n := |keys|;
      var last := keys[n - 1];
      assert IsIterationOrder(keys[..n - 1], s - {last}) by {
        forall k | k in s - {last}
          ensures k in keys[..n - 1]
        {
          var i :| 0 <= i < n && keys[i] == k;
        }
      }
      IterationOrderLength(keys[..n - 1], s - {last});
    }
  }

  /** A duplicate-free sequence holds each of its elements once. */
  lemma {:induction false} DistinctCount<K>(keys: seq<K>, k: K)
    requires forall i, j :: 0 <= i < j < |keys| ==> keys[i] != keys[j]
    ensures multiset(keys)[k] == if k in keys then 1 else 0
    decreases |keys|
  {
    if |keys| > 0 {
      var n := |keys|;
      assert keys == keys[..n - 1] + [keys[n - 1]];
      DistinctCount(keys[..n - 1], k);
    }
  }

  /** Two iteration orders of the same key set are permutations of each other. */
  lemma OrdersArePermutations<K>(o1: seq<K>, o2: seq<K>, s: set<K>)
    requires IsIterationOrder(o1, s) && IsIterationOrder(o2, s)
    ensures multiset(o1) == multiset(o2)
  {
    forall k
      ensures multiset(o1)[k] == multiset(o2)[k]
    {
      DistinctCount(o1, k);
      DistinctCount(o2, k);
    }
  }

  lemma EntriesConcat(pairs: map<HashKey, HashPair>, a: seq<HashKey>, b: seq<HashKey>)
    requires forall i :: 0 <= i < |a| ==> a[i] in pairs
    requires forall i :: 0 <= i < |b| ==> b[i] in pairs
    ensures Entries(pairs, a + b) == Entries(pairs, a) + Entries(pairs, b)
  {
  }

  /** Removing the key at `j` removes exactly its entry. */
  lemma EntriesRemoveAt(pairs: map<HashKey, HashPair>, o: seq<HashKey>, j: nat, rest: seq<HashKey>)
    requires forall i :: 0 <= i < |o| ==> o[i] in pairs
    requires j < |o| && rest == o[..j] + o[j + 1..]
    ensures forall i :: 0 <= i < |rest| ==> rest[i] in pairs
    ensures multiset(Entries(pairs, o))
         == multiset(Entries(pairs, rest)) + multiset(Entries(pairs, [o[j]]))
  {
    assert o == o[..j] + [o[j]] + o[j + 1..];
    EntriesConcat(pairs, o[..j] + [o[j]], o[j + 1..]);
    EntriesConcat(pairs, o[..j], [o[j]]);
    EntriesConcat(pairs, o[..j], o[j + 1..]);
  }

  /** Cancelling one occurrence of the same element on both sides keeps two
      sequences permutations of each other. */
  lemma RemoveMatching<K>(o1: seq<K>, o2: seq<K>, j: nat)
    requires multiset(o1) == multiset(o2)
    requires 0 < |o1| && j < |o2| && o2[j] == o1[|o1| - 1]
    ensures multiset(o1[..|o1| - 1]) == multiset(o2[..j] + o2[j + 1..])
  {
    var n, k := |o1|, o1[|o1| - 1];
    var a, b, c := o1[..n - 1], o2[..j], o2[j + 1..];
    assert o1 == a + [k];
    assert o2 == b + [k] + c;
    assert multiset(o1) == multiset(a) + multiset{k};
    assert multiset(o2) == multiset(b) + multiset{k} + multiset(c);
    assert multiset(a) + multiset{k} == multiset(b + c) + multiset{k};
    forall x
      ensures multiset(a)[x] == multiset(b + c)[x]
    {
      assert (multiset(a) + multiset{k})[x] == (multiset(b + c) + multiset{k})[x];
    }
  }

  /** Entries of permuted keys are a permutation of the entries. */
  lemma {:induction false} EntriesOfPermutation(pairs: map<HashKey, HashPair>, o1: seq<HashKey>, o2: seq<HashKey>)
    requires forall i :: 0 <= i < |o1| ==> o1[i] in pairs
    requires forall i :: 0 <= i < |o2| ==> o2[i] in pairs
    requires multiset(o1) == multiset(o2)
    ensures multiset(Entries(pairs, o1)) == multiset(Entries(pairs, o2))
    decreases |o1|
  {
    if |o1| > 0 {
      var n := |o1|;
      assert o1[n - 1] in multiset(o2);
      var j :| 0 <= j < |o2| && o2[j] == o1[n - 1];
      var rest1, rest2 := o1[..n - 1], o2[..j] + o2[j + 1..];
      RemoveMatching(o1, o2, j);
      assert rest1 == o1[..n - 1] + o1[n..];
      EntriesRemoveAt(pairs, o1, n - 1, rest1);
      EntriesRemoveAt(pairs, o2, j, rest2);
      EntriesOfPermutation(pairs, rest1, rest2);
    }
  }

  /** Whatever order Go's map iteration takes, a Hash renders as `{`, then
      exactly one `key: value` entry per stored pair joined with `, `, then
      `}`: the entries are a permutation of those listed in any given
      iteration order. */
  lemma InspectHash(pairs: map<HashKey, HashPair>, order: seq<HashKey>)
    requires IsIterationOrder(order, pairs.Keys)
    ensures exists entries: seq<Bytes> ::
      && multiset(entries) == multiset(Entries(pairs, order))
      && Inspect(Hash(pairs)) == Ascii("{") + Join(entries, Ascii(", ")) + Ascii("}")
  {
    var chosen := InspectHashShape(pairs);
    OrdersArePermutations(chosen, order, pairs.Keys);
    EntriesOfPermutation(pairs, chosen, order);
  }

  /** An empty Hash renders as `{}`; a Hash with one pair renders that pair
      alone, so for these two sizes the rendering is fully determined. */
  lemma InspectSmallHash(k: HashKey, p: HashPair)
    ensures Inspect(Hash(map[])) == Ascii("{}")
    ensures Inspect(Hash(map[k := p]))
         == Ascii("{") + Inspect(p.key) + Ascii(": ") + Inspect(p.value) + Ascii("}")
  {
    var none: map<HashKey, HashPair> := map[];
    var empty := InspectHashShape(none);
    IterationOrderLength(empty, none.Keys);
    assert Ascii("{") + Join([], Ascii(", ")) + Ascii("}") == Ascii("{}");
    var one := InspectHashShape(map[k := p]);
    IterationOrderLength(one, {k});
    assert k in one;
    assert one == [k];
  }

  // Variants that render syntax or host code

  lemma CallableFraming(keyword: Bytes, ps: seq<Node>, body: Node)
    ensures var r := CallableText(keyword, ps, body);
      && r[..|keyword| + 1] == keyword + Ascii("(")
      && r[|r| - 2 - |body.text|..] == body.text + Ascii("\n}")
  {
    var r := CallableText(keyword, ps, body);
    var middle := Join(Texts(ps), Ascii(", ")) + Ascii(") {\n");
    assert r == (keyword + Ascii("(")) + middle + (body.text + Ascii("\n}"));
  }

  /** A function renders as `fn(`, the parameter names joined with `, `,
      `) {`, a newline, the body, a newline and `}`; the captured environment
      does not show. */
  lemma InspectFunction(ps: seq<Node>, body: Node, env: Environment, env': Environment)
    ensures Inspect(Function(ps, body, env)) == Inspect(Function(ps, body, env'))
    ensures Inspect(Function(ps, body, env))[..3] == Ascii("fn(")
    ensures var r := Inspect(Function(ps, body, env));
      r[|r| - 2 - |body.text|..] == body.text + Ascii("\n}")
  {
    var r := Inspect(Function(ps, body, env));
    assert r == CallableText(Ascii("fn"), ps, body);
    assert Inspect(Function(ps, body, env')) == r;
    CallableFraming(Ascii("fn"), ps, body);
    assert Ascii("fn") + Ascii("(") == Ascii("fn(");
  }

  /** A macro renders like a function, with `macro` in place of `fn`. */
  lemma InspectMacro(ps: seq<Node>, body: Node, env: Environment, env': Environment)
    ensures Inspect(Macro(ps, body, env)) == Inspect(Macro(ps, body, env'))
    ensures Inspect(Macro(ps, body, env))[..6] == Ascii("macro(")
    ensures var r := Inspect(Macro(ps, body, env));
      r[|r| - 2 - |body.text|..] == body.text + Ascii("\n}")
  {
    var r := Inspect(Macro(ps, body, env));
    assert r == CallableText(Ascii("macro"), ps, body);
    assert Inspect(Macro(ps, body, env')) == r;
    CallableFraming(Ascii("macro"), ps, body);
    assert Ascii("macro") + Ascii("(") == Ascii("macro(");
  }

  /** No function renders like any macro: the first letters differ. */
  lemma FunctionRendersUnlikeMacro(ps: seq<Node>, body: Node, env: Environment,
                                   ps': seq<Node>, body': Node, env': Environment)
    ensures Inspect(Function(ps, body, env)) != Inspect(Macro(ps', body', env'))
  {
    InspectFunction(ps, body, env, env);
    InspectMacro(ps', body', env', env');
    assert Ascii("fn(")[0] != Ascii("macro(")[0];
  }

  /** A Quote renders as `QUOTE(`, the quoted node's rendering, and `)`, so
      the node's rendering can be read back. */
  lemma InspectQuote(n: Node)
    ensures var r := Inspect(Quote(n));
      && |r| == |n.text| + 7
      && r[..6] == Ascii("QUOTE(")
      && r[6..|r| - 1] == n.text
      && r[|r| - 1] as int == ')' as int
  {
  }

  /** Every builtin renders the same way, whatever host function it wraps. */
  lemma InspectBuiltin(f: BuiltinFunction, g: BuiltinFunction)
    ensures Inspect(Builtin(f)) == Inspect(Builtin(g)) == Ascii("builtin function")
  {
  }
}
