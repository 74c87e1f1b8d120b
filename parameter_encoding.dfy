/**
  The query-string side of `NDURLEncoding` (NDParameterEncoding.swift): the array and
  boolean encodings, the recursive flattening of a parameter value into percent-escaped
  `(key, value)` components, `queryComponents` and `query`.

  Swift's `[String: Any]` parameters become the closed `ParameterValue` datatype. A nested
  dictionary is the sequence of its entries in the order Swift's dictionary iteration yields
  them (an order the language leaves unspecified); only the top-level keys are sorted.
 */
module ParameterEncoding {
  import opened PercentEscape
  import opened KeyOrder

  /** How the key of an array element is written. */
  datatype ArrayEncoding = Brackets | NoBrackets

  /** How a boolean value is written. */
  datatype BoolEncoding = Numeric | Literal

  /** `ArrayEncoding.encode(key:)`. */
  function EncodeArrayKey(encoding: ArrayEncoding, key: string): (r: string)
    ensures key <= r
    ensures r == key <==> encoding == NoBrackets
  {
    match encoding
    case Brackets => key + "[]"
    case NoBrackets => key
  }

  /** `BoolEncoding.encode(value:)`. */
  function EncodeBool(encoding: BoolEncoding, value: bool): (r: string)
    ensures value <==> r == "1" || r == "true"
    ensures |r| == 1 <==> encoding == Numeric
  {
    match encoding
    case Numeric => if value then "1" else "0"
    case Literal => if value then "true" else "false"
  }

  /** The configuration an `NDURLEncoding` instance carries. */
  datatype URLEncoding = URLEncoding(arrayEncoding: ArrayEncoding, boolEncoding: BoolEncoding)

  /** `NDURLEncoding.init()`: brackets for arrays, `1`/`0` for booleans. */
  const DefaultEncoding := URLEncoding(Brackets, Numeric)

  /**
    A value of a parameter dictionary: the cases `queryComponents(fromKey:value:)` tells apart.
    A nested dictionary is a sequence of entries in iteration order. The sequence may repeat a
    name, which a Swift dictionary cannot; no property below relies on the names being distinct.
   */
  datatype ParameterValue =
    | Str(text: string)
    | Number(number: int)
    | Flag(flag: bool)
    | Items(items: seq<ParameterValue>)
    | Dict(entries: seq<Entry>)

  /** One entry of a nested dictionary. */
  datatype Entry = Entry(name: string, value: ParameterValue)

  type Parameters = map<string, ParameterValue>

  /** A query component: an escaped key and an escaped value. */
  type Component = (string, string)

  /** The key under which the entry `nested` of a dictionary stored at `key` is flattened. */
  function NestedKey(key: string, nested: string): string {
    key + "[" + nested + "]"
  }

  function DigitChar(d: int): char
    requires 0 <= d < 10
  {
    "0123456789"[d]
  }

  function NaturalText(n: nat): (r: string)
    ensures |r| >= 1
    ensures forall i :: 0 <= i < |r| ==> '0' <= r[i] <= '9'
  {
    if n < 10 then [DigitChar(n)] else NaturalText(n / 10) + [DigitChar(n % 10)]
  }

  /** The description of an integer `NSNumber`: decimal digits, with `-` when negative. */
  function NumberText(n: int): string {
    if n < 0 then "-" + NaturalText(-n) else NaturalText(n)
  }

  predicate AllEscaped(cs: seq<Component>) {
    forall i :: 0 <= i < |cs| ==> Escaped(cs[i].0) && Escaped(cs[i].1)
  }

  lemma AllEscapedAppend(a: seq<Component>, b: seq<Component>)
    requires AllEscaped(a) && AllEscaped(b)
    ensures AllEscaped(a + b)
  {
    forall i | 0 <= i < |a + b|
      ensures Escaped((a + b)[i].0) && Escaped((a + b)[i].1)
    {
      if i >= |a| {
        assert (a + b)[i] == b[i - |a|];
      }
    }
  }

  /** The components `queryComponents(fromKey: key, value: value)` produces. */
  function Components(enc: URLEncoding, key: string, value: ParameterValue): seq<Component>
    decreases value
  {
    match value
    case Dict(entries) => EntryComponents(enc, key, entries)
    case Items(items) => ItemComponents(enc, EncodeArrayKey(enc.arrayEncoding, key), items)
    case Number(n) => [(Escape(key), Escape(NumberText(n)))]
    case Flag(b) => [(Escape(key), Escape(EncodeBool(enc.boolEncoding, b)))]
    case Str(s) => [(Escape(key), Escape(s))]
  }

  /** The components of the entries of a dictionary stored at `key`, in iteration order. */
  function EntryComponents(enc: URLEncoding, key: string, entries: seq<Entry>): seq<Component>
    decreases entries
  {
    if entries == [] then []
    else
      var last := entries[|entries| - 1];
      EntryComponents(enc, key, entries[..|entries| - 1])
        + Components(enc, NestedKey(key, last.name), last.value)
  }

  /** The components of the elements of an array, every one under the same array key. */
  function ItemComponents(enc: URLEncoding, arrayKey: string, items: seq<ParameterValue>): seq<Component>
    decreases items
  {
    if items == [] then []
    else
      ItemComponents(enc, arrayKey, items[..|items| - 1])
        + Components(enc, arrayKey, items[|items| - 1])
  }

  /** The components of the keys `keys` of `parameters`, key after key. */
  function KeyComponents(enc: URLEncoding, parameters: Parameters, keys: seq<string>): seq<Component>
    requires forall k :: k in keys ==> k in parameters
  {
    if keys == [] then []
    else
      var key := keys[|keys| - 1];
      KeyComponents(enc, parameters, keys[..|keys| - 1]) + Components(enc, key, parameters[key])
  }

  /** What `queryComponents(parameters)` returns: each top-level key's components, keys in ascending order. */
  function QueryComponentsOf(enc: URLEncoding, parameters: Parameters): seq<Component> {
    KeyComponents(enc, parameters, SortedKeys(parameters.Keys))
  }

  // ---------------------------------------------------------------------------------------
  // The methods of `NDURLEncoding`.

  /** `queryComponents(fromKey:value:)`. */
  method QueryComponentsFromKey(enc: URLEncoding, key: string, value: ParameterValue)
    returns (components: seq<Component>)
    ensures components == Components(enc, key, value)
    decreases value
  {
    components := [];
    match value {
      case Dict(entries) =>
        for i := 0 to |entries|
          invariant components == EntryComponents(enc, key, entries[..i])
        {
          var nested := QueryComponentsFromKey(enc, NestedKey(key, entries[i].name), entries[i].value);
          assert entries[..i + 1][..i] == entries[..i];
          components := components + nested;
        }
        assert entries[..|entries|] == entries;
      case Items(items) =>
        var arrayKey := EncodeArrayKey(enc.arrayEncoding, key);
        for i := 0 to |items|
          invariant components == ItemComponents(enc, arrayKey, items[..i])
        {
          var element := QueryComponentsFromKey(enc, arrayKey, items[i]);
          assert items[..i + 1][..i] == items[..i];
          components := components + element;
        }
        assert items[..|items|] == items;
      case Number(n) =>
        components := components + [(Escape(key), Escape(NumberText(n)))];
      case Flag(b) =>
        components := components + [(Escape(key), Escape(EncodeBool(enc.boolEncoding, b)))];
      case Str(s) =>
        components := components + [(Escape(key), Escape(s))];
    }
  }

  /** `queryComponents(_:)`: the top-level keys sorted with `<`, each flattened in turn. */
  method QueryComponents(enc: URLEncoding, parameters: Parameters) returns (components: seq<Component>)
    ensures components == QueryComponentsOf(enc, parameters)
  {
    components := [];
    var keys := SortedKeys(parameters.Keys);
    for i := 0 to |keys|
      invariant forall k :: k in keys ==> k in parameters
      invariant components == KeyComponents(enc, parameters, keys[..i])
    {
      var key := keys[i];
      var own := QueryComponentsFromKey(enc, key, parameters[key]);
      KeyComponentsStep(enc, parameters, keys, i);
      components := components + own;
    }
    assert keys[..|keys|] == keys;
  }

  lemma KeyComponentsStep(enc: URLEncoding, parameters: Parameters, keys: seq<string>, i: nat)
    requires i < |keys| && forall k :: k in keys ==> k in parameters
    ensures KeyComponents(enc, parameters, keys[..i + 1])
         == KeyComponents(enc, parameters, keys[..i]) + Components(enc, keys[i], parameters[keys[i]])
  {
    assert keys[..i + 1][..i] == keys[..i];
  }

  /** `query(_:)`: the same components, written `key=value` and joined with `&`. */
  method Query(enc: URLEncoding, parameters: Parameters) returns (query: string)
    ensures query == Join(QueryComponentsOf(enc, parameters))
  {
    var components := [];
    var keys := SortedKeys(parameters.Keys);
    for i := 0 to |keys|
      invariant forall k :: k in keys ==> k in parameters
      invariant components == KeyComponents(enc, parameters, keys[..i])
    {
      var key := keys[i];
      var own := QueryComponentsFromKey(enc, key, parameters[key]);
      KeyComponentsStep(enc, parameters, keys, i);
      components := components + own;
    }
    assert keys[..|keys|] == keys;
    query := Join(components);
  }

  // ---------------------------------------------------------------------------------------
  // Joining components into a query string, and reading them back.

  function PairText(c: Component): string {
    c.0 + "=" + c.1
  }

  /** `components.map { "\($0)=\($1)" }.joined(separator: "&")`. */
  function Join(cs: seq<Component>): (r: string)
    ensures r == "" <==> cs == []
    ensures cs != [] ==> PairText(cs[0]) <= r
  {
    if cs == [] then ""
    else if |cs| == 1 then PairText(cs[0])
    else PairText(cs[0]) + "&" + Join(cs[1..])
  }

  /** The position of the first `sep` in `s`, or `|s|` when there is none. */
  function IndexOf(s: string, sep: char): (i: nat)
    ensures i <= |s|
    ensures forall j :: 0 <= j < i ==> s[j] != sep
    ensures i < |s| ==> s[i] == sep
  {
    if s == [] then 0
    else if s[0] == sep then 0
    else 1 + IndexOf(s[1..], sep)
  }

  /** Reads one `key=value` pair, splitting at the first `=`. */
  function SplitPair(text: string): Component {
    var i := IndexOf(text, '=');
    (text[..i], if i == |text| then "" else text[i + 1..])
  }

  function SplitPairs(q: string): seq<Component>
    decreases |q|
  {
    var i := IndexOf(q, '&');
    [SplitPair(q[..i])] + if i == |q| then [] else SplitPairs(q[i + 1..])
  }

  /** Splits a query string at every `&`, then every piece at its first `=`. */
  function SplitQuery(q: string): seq<Component> {
    if q == "" then [] else SplitPairs(q)
  }

  lemma IndexOfAfter(a: string, sep: char, b: string)
    requires forall j :: 0 <= j < |a| ==> a[j] != sep
    ensures IndexOf(a + [sep] + b, sep) == |a|
  {
    var s := a + [sep] + b;
    var i := IndexOf(s, sep);
    assert s[|a|] == sep;
    assert forall j :: 0 <= j < |a| ==> s[j] == a[j];
  }

  lemma IndexOfNone(a: string, sep: char)
    requires forall j :: 0 <= j < |a| ==> a[j] != sep
    ensures IndexOf(a, sep) == |a|
  {
  }

  /**
    Every key and value of the components is escaped, which is what makes the joined query
    string unambiguous.
   */
  lemma {:induction false} ComponentsEscaped(enc: URLEncoding, key: string, value: ParameterValue)
    ensures AllEscaped(Components(enc, key, value))
    decreases value
  {
    match value
    case Dict(entries) => EntryComponentsEscaped(enc, key, entries);
    case Items(items) => ItemComponentsEscaped(enc, EncodeArrayKey(enc.arrayEncoding, key), items);
    case Number(n) => EscapeEscaped(key); EscapeEscaped(NumberText(n));
    case Flag(b) => EscapeEscaped(key); EscapeEscaped(EncodeBool(enc.boolEncoding, b));
    case Str(s) => EscapeEscaped(key); EscapeEscaped(s);
  }

  lemma {:induction false} EntryComponentsEscaped(enc: URLEncoding, key: string, entries: seq<Entry>)
    ensures AllEscaped(EntryComponents(enc, key, entries))
    decreases entries
  {
    if entries != [] {
      var last := entries[|entries| - 1];
      EntryComponentsEscaped(enc, key, entries[..|entries| - 1]);
      ComponentsEscaped(enc, NestedKey(key, last.name), last.value);
      AllEscapedAppend(EntryComponents(enc, key, entries[..|entries| - 1]),
        Components(enc, NestedKey(key, last.name), last.value));
    }
  }

  lemma {:induction false} ItemComponentsEscaped(enc: URLEncoding, arrayKey: string, items: seq<ParameterValue>)
    ensures AllEscaped(ItemComponents(enc, arrayKey, items))
    decreases items
  {
    if items != [] {
      ItemComponentsEscaped(enc, arrayKey, items[..|items| - 1]);
      ComponentsEscaped(enc, arrayKey, items[|items| - 1]);
      AllEscapedAppend(ItemComponents(enc, arrayKey, items[..|items| - 1]),
        Components(enc, arrayKey, items[|items| - 1]));
    }
  }

  lemma {:induction false} KeyComponentsEscaped(enc: URLEncoding, parameters: Parameters, keys: seq<string>)
    requires forall k :: k in keys ==> k in parameters
    ensures AllEscaped(KeyComponents(enc, parameters, keys))
  {
    if keys != [] {
      var key := keys[|keys| - 1];
      KeyComponentsEscaped(enc, parameters, keys[..|keys| - 1]);
      ComponentsEscaped(enc, key, parameters[key]);
      AllEscapedAppend(KeyComponents(enc, parameters, keys[..|keys| - 1]),
        Components(enc, key, parameters[key]));
    }
  }

  lemma EscapedHasNo(s: string, c: char)
    requires Escaped(s) && IsReservedToEncode(c)
    ensures forall j :: 0 <= j < |s| ==> s[j] != c
  {
  }

  lemma SplitPairText(c: Component)
    requires Escaped(c.0) && Escaped(c.1)
    ensures SplitPair(PairText(c)) == c
    ensures forall j :: 0 <= j < |PairText(c)| ==> PairText(c)[j] != '&'
  {
    EscapedHasNo(c.0, '=');
    EscapedHasNo(c.1, '&');
    IndexOfAfter(c.0, '=', c.1);
    var t := PairText(c);
    assert t == c.0 + ['='] + c.1;
    assert t[..|c.0|] == c.0;
    assert t[|c.0| + 1..] == c.1;
    forall j | 0 <= j < |t|
      ensures t[j] != '&'
    {
      if j < |c.0| { assert t[j] == c.0[j]; }
      else if j > |c.0| { assert t[j] == c.1[j - |c.0| - 1]; }
    }
  }

  lemma SplitPairsLast(piece: string)
    requires forall j :: 0 <= j < |piece| ==> piece[j] != '&'
    ensures SplitPairs(piece) == [SplitPair(piece)]
  {
    IndexOfNone(piece, '&');
    assert piece[..|piece|] == piece;
  }

  lemma SplitPairsNext(piece: string, rest: string)
    requires forall j :: 0 <= j < |piece| ==> piece[j] != '&'
    ensures SplitPairs(piece + "&" + rest) == [SplitPair(piece)] + SplitPairs(rest)
  {
    var q := piece + "&" + rest;
    IndexOfAfter(piece, '&', rest);
    assert q[..|piece|] == piece;
    assert q[|piece| + 1..] == rest;
  }

  lemma AllEscapedTail(cs: seq<Component>)
    requires cs != [] && AllEscaped(cs)
    ensures AllEscaped(cs[1..])
  {
    assert forall i :: 0 <= i < |cs| - 1 ==> cs[1..][i] == cs[i + 1];
  }

  /** One pair followed by the rest of the query splits into that pair and the rest's components. */
  lemma SplitJoinStep(cs: seq<Component>)
    requires |cs| >= 2 && Escaped(cs[0].0) && Escaped(cs[0].1)
    requires SplitQuery(Join(cs[1..])) == cs[1..]
    ensures SplitQuery(Join(cs)) == cs
  {
    var first, rest := PairText(cs[0]), Join(cs[1..]);
    SplitPairText(cs[0]);
    assert |rest| >= 1;
    calc {
      SplitQuery(Join(cs));
      { assert Join(cs) == first + "&" + rest; }
      SplitPairs(first + "&" + rest);
      { SplitPairsNext(first, rest); }
      [SplitPair(first)] + SplitPairs(rest);
      [cs[0]] + cs[1..];
    }
  }

  /** The query string determines its components: splitting it gives them back. */
  lemma {:induction false} SplitJoin(cs: seq<Component>)
    requires AllEscaped(cs)
    ensures SplitQuery(Join(cs)) == cs
  {
    if |cs| == 1 {
      SplitPairText(cs[0]);
      SplitPairsLast(PairText(cs[0]));
    } else if |cs| >= 2 {
      AllEscapedTail(cs);
      SplitJoin(cs[1..]);
      SplitJoinStep(cs);
    }
  }

  // ---------------------------------------------------------------------------------------
  // Properties of the flattening.

  /** Under `Brackets` the key of every array element gains an escaped `[]`; under `NoBrackets` it is kept. */
  lemma ArrayKeyEscaped(encoding: ArrayEncoding, key: string)
    ensures Escape(EncodeArrayKey(encoding, key))
         == if encoding == Brackets then Escape(key) + "%5B%5D" else Escape(key)
  {
    if encoding == Brackets {
      EscapeAppend(key, "[]");
      assert Escape("[]") == "%5B%5D" by {
        assert Utf8('[') == [0x5B] && Utf8(']') == [0x5D];
        assert Escape("[]") == EscapeChar('[') + Escape("]");
        assert Escape("]") == EscapeChar(']') + Escape("");
      }
    }
  }

  /** Both renderings of a boolean tell the two values apart and pass through `escape` unchanged. */
  lemma BoolTextPlain(encoding: BoolEncoding, value: bool)
    ensures EncodeBool(encoding, true) != EncodeBool(encoding, false)
    ensures Escape(EncodeBool(encoding, value)) == EncodeBool(encoding, value)
  {
    var text := EncodeBool(encoding, value);
    assert AllAllowed(text) by {
      forall i | 0 <= i < |text|
        ensures IsAllowed(text[i])
      {
        assert IsAsciiAlphanumeric(text[i]);
      }
    }
    EscapeIdentity(text);
  }

  /** A number is written with digits and `-` only, so `escape` leaves it as it is. */
  lemma NumberTextPlain(n: int)
    ensures Escape(NumberText(n)) == NumberText(n)
  {
    var text := NumberText(n);
    assert AllAllowed(text) by {
      var digits := NaturalText(if n < 0 then -n else n);
      assert text == if n < 0 then "-" + digits else digits;
      forall i | 0 <= i < |text|
        ensures IsAllowed(text[i])
      {
        if n < 0 && i > 0 {
          assert text[i] == digits[i - 1];
        }
      }
    }
    EscapeIdentity(text);
  }

  /** An empty array contributes no component at all; an empty dictionary neither. */
  lemma EmptyContainersVanish(enc: URLEncoding, key: string)
    ensures Components(enc, key, Items([])) == []
    ensures Components(enc, key, Dict([])) == []
  {
  }

  /** Every component key starts with `prefix`. */
  predicate KeysStartWith(cs: seq<Component>, prefix: string) {
    forall i :: 0 <= i < |cs| ==> prefix <= cs[i].0
  }

  lemma KeysStartWithAppend(a: seq<Component>, b: seq<Component>, prefix: string)
    requires KeysStartWith(a, prefix) && KeysStartWith(b, prefix)
    ensures KeysStartWith(a + b, prefix)
  {
    forall i | 0 <= i < |a + b|
      ensures prefix <= (a + b)[i].0
    {
      if i >= |a| {
        assert (a + b)[i] == b[i - |a|];
      }
    }
  }

  lemma KeysStartWithShorter(cs: seq<Component>, prefix: string, longer: string)
    requires KeysStartWith(cs, longer) && prefix <= longer
    ensures KeysStartWith(cs, prefix)
  {
    forall i | 0 <= i < |cs|
      ensures prefix <= cs[i].0
    {
      assert cs[i].0[..|prefix|] == longer[..|prefix|];
    }
  }

  lemma EscapePrefix(key: string, suffix: string)
    ensures Escape(key) <= Escape(key + suffix)
  {
    EscapeAppend(key, suffix);
  }

  /**
    Every component of a value stored at `key` is filed under a key that begins with the
    escaped `key`: flattening only ever extends the key.
   */
  lemma {:induction false} ComponentKeysExtend(enc: URLEncoding, key: string, value: ParameterValue)
    ensures KeysStartWith(Components(enc, key, value), Escape(key))
    decreases value
  {
    match value
    case Dict(entries) =>
      EntryKeysExtend(enc, key, entries);
      EscapePrefix(key, "[");
      KeysStartWithShorter(Components(enc, key, value), Escape(key), Escape(key + "["));
    case Items(items) =>
      var arrayKey := EncodeArrayKey(enc.arrayEncoding, key);
      ItemKeysExtend(enc, arrayKey, items);
      if enc.arrayEncoding == Brackets {
        EscapePrefix(key, "[]");
      }
      KeysStartWithShorter(Components(enc, key, value), Escape(key), Escape(arrayKey));
    case Number(_) =>
    case Flag(_) =>
    case Str(_) =>
  }

  /** The entries of a dictionary stored at `key` are all filed under the escaped `key[`. */
  lemma {:induction false} EntryKeysExtend(enc: URLEncoding, key: string, entries: seq<Entry>)
    ensures KeysStartWith(EntryComponents(enc, key, entries), Escape(key + "["))
    decreases entries
  {
    if entries != [] {
      var last := entries[|entries| - 1];
      var nestedKey := NestedKey(key, last.name);
      EntryKeysExtend(enc, key, entries[..|entries| - 1]);
      ComponentKeysExtend(enc, nestedKey, last.value);
      assert nestedKey == (key + "[") + (last.name + "]");
      EscapePrefix(key + "[", last.name + "]");
      KeysStartWithShorter(Components(enc, nestedKey, last.value), Escape(key + "["), Escape(nestedKey));
      KeysStartWithAppend(EntryComponents(enc, key, entries[..|entries| - 1]),
        Components(enc, nestedKey, last.value), Escape(key + "["));
    }
  }

  lemma {:induction false} ItemKeysExtend(enc: URLEncoding, arrayKey: string, items: seq<ParameterValue>)
    ensures KeysStartWith(ItemComponents(enc, arrayKey, items), Escape(arrayKey))
    decreases items
  {
    if items != [] {
      ItemKeysExtend(enc, arrayKey, items[..|items| - 1]);
      ComponentKeysExtend(enc, arrayKey, items[|items| - 1]);
      KeysStartWithAppend(ItemComponents(enc, arrayKey, items[..|items| - 1]),
        Components(enc, arrayKey, items[|items| - 1]), Escape(arrayKey));
    }
  }

  /** A nested dictionary at `key` is flattened under `key[...]`, written `key%5B...` once escaped. */
  lemma NestedKeysBracketed(enc: URLEncoding, key: string, entries: seq<Entry>)
    ensures KeysStartWith(Components(enc, key, Dict(entries)), Escape(key) + "%5B")
  {
    EntryKeysExtend(enc, key, entries);
    EscapeAppend(key, "[");
    assert Escape("[") == "%5B" by {
      assert Utf8('[') == [0x5B];
      assert Escape("[") == EscapeChar('[') + Escape("");
    }
  }

  /** With `Brackets`, every element of an array at `key` is filed under `key%5B%5D`. */
  lemma ArrayKeysBracketed(enc: URLEncoding, key: string, items: seq<ParameterValue>)
    requires enc.arrayEncoding == Brackets
    ensures KeysStartWith(Components(enc, key, Items(items)), Escape(key) + "%5B%5D")
  {
    ItemKeysExtend(enc, EncodeArrayKey(enc.arrayEncoding, key), items);
    ArrayKeyEscaped(enc.arrayEncoding, key);
  }

  /** A string, number or boolean: a value that yields exactly one component. */
  predicate IsScalar(value: ParameterValue) {
    value.Str? || value.Number? || value.Flag?
  }

  /** The text a scalar is written as before escaping. */
  function ScalarText(enc: URLEncoding, value: ParameterValue): string
    requires IsScalar(value)
  {
    match value
    case Str(s) => s
    case Number(n) => NumberText(n)
    case Flag(b) => EncodeBool(enc.boolEncoding, b)
  }

  lemma ScalarComponents(enc: URLEncoding, key: string, value: ParameterValue)
    requires IsScalar(value)
    ensures Components(enc, key, value) == [(Escape(key), Escape(ScalarText(enc, value)))]
  {
  }

  /** For scalar values, each key contributes exactly one component. */
  lemma {:induction false} FlatKeyCount(enc: URLEncoding, parameters: Parameters, keys: seq<string>)
    requires forall k :: k in keys ==> k in parameters && IsScalar(parameters[k])
    ensures |KeyComponents(enc, parameters, keys)| == |keys|
  {
    if keys != [] {
      var n := |keys| - 1;
      FlatKeyCount(enc, parameters, keys[..n]);
      ScalarComponents(enc, keys[n], parameters[keys[n]]);
    }
  }

  /** ... and the `i`-th component is the `i`-th key, escaped, with its escaped text. */
  lemma {:induction false} FlatKeyAt(enc: URLEncoding, parameters: Parameters, keys: seq<string>, i: int)
    requires forall k :: k in keys ==> k in parameters && IsScalar(parameters[k])
    requires 0 <= i < |keys|
    ensures |KeyComponents(enc, parameters, keys)| == |keys|
    ensures KeyComponents(enc, parameters, keys)[i]
         == (Escape(keys[i]), Escape(ScalarText(enc, parameters[keys[i]])))
  {
    var n := |keys| - 1;
    var front := keys[..n];
    FlatKeyCount(enc, parameters, front);
    FlatKeyCount(enc, parameters, keys);
    ScalarComponents(enc, keys[n], parameters[keys[n]]);
    if i < n {
      FlatKeyAt(enc, parameters, front, i);
      assert front[i] == keys[i];
    }
  }

  /**
    For parameters whose values are all scalars, the components are one pair per key, the
    escaped key with its escaped text, in the order of the keys.
   */
  lemma FlatKeyComponents(enc: URLEncoding, parameters: Parameters, keys: seq<string>)
    requires forall k :: k in keys ==> k in parameters && IsScalar(parameters[k])
    ensures |KeyComponents(enc, parameters, keys)| == |keys|
    ensures forall i :: 0 <= i < |keys| ==>
      KeyComponents(enc, parameters, keys)[i] == (Escape(keys[i]), Escape(ScalarText(enc, parameters[keys[i]])))
  {
    FlatKeyCount(enc, parameters, keys);
    forall i | 0 <= i < |keys|
      ensures KeyComponents(enc, parameters, keys)[i] == (Escape(keys[i]), Escape(ScalarText(enc, parameters[keys[i]])))
    {
      FlatKeyAt(enc, parameters, keys, i);
    }
  }

  lemma FlatQueryComponents(enc: URLEncoding, parameters: Parameters)
    requires forall k :: k in parameters ==> IsScalar(parameters[k])
    ensures var keys := SortedKeys(parameters.Keys);
      && |QueryComponentsOf(enc, parameters)| == |keys|
      && forall i :: 0 <= i < |keys| ==>
           QueryComponentsOf(enc, parameters)[i] == (Escape(keys[i]), Escape(ScalarText(enc, parameters[keys[i]])))
  {
    FlatKeyComponents(enc, parameters, SortedKeys(parameters.Keys));
  }

  /** No parameters, no components, and the empty query string. */
  lemma EmptyQuery(enc: URLEncoding)
    ensures QueryComponentsOf(enc, map[]) == []
    ensures Join(QueryComponentsOf(enc, map[])) == ""
  {
    var empty: Parameters := map[];
    assert SortedKeys(empty.Keys) == [];
  }

  /** The string `query` builds can be split back into the components `queryComponents` returns. */
  lemma QueryDeterminesComponents(enc: URLEncoding, parameters: Parameters)
    ensures SplitQuery(Join(QueryComponentsOf(enc, parameters))) == QueryComponentsOf(enc, parameters)
  {
    KeyComponentsEscaped(enc, parameters, SortedKeys(parameters.Keys));
    SplitJoin(QueryComponentsOf(enc, parameters));
  }
}
