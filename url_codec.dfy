/**
  `NDURLEncoding.encode(_:with:)` and `NDURLEncoding.decode(_:)` (NDParameterEncoding.swift):
  applying parameters onto a URL's query items, and reading them back into a dictionary.

  A URL is seen through `URLComponents`: either it cannot be taken apart, or it is the part
  before the query together with the list of query items (`nil` when there is no query).
  Items hold names and values as `URLQueryItem` does, without the percent-encoding Foundation
  adds when it writes them into the URL text.
 */
module UrlCodec {
  import opened Wrappers
  import opened KeyOrder
  import opened PercentEscape
  import opened ParameterEncoding

  /** A `URLQueryItem`: `?a` has no value, `?a=` has the empty one. */
  datatype QueryItem = QueryItem(name: string, value: Option<string>)

  datatype Url =
    | Unparsable(text: string)
    | Parsed(base: string, queryItems: Option<seq<QueryItem>>)

  /** The query items of a URL, none when it has no query. */
  function ExistingItems(url: Url): seq<QueryItem> {
    if url.Parsed? then url.queryItems.GetOr([]) else []
  }

  /** One `URLQueryItem(name: key, value: value)` per component, in order. */
  function ItemsOf(cs: seq<Component>): (items: seq<QueryItem>)
    ensures |items| == |cs|
    ensures forall i :: 0 <= i < |cs| ==> items[i] == QueryItem(cs[i].0, Some(cs[i].1))
  {
    if cs == [] then []
    else ItemsOf(cs[..|cs| - 1]) + [QueryItem(cs[|cs| - 1].0, Some(cs[|cs| - 1].1))]
  }

  lemma ItemsOfStep(cs: seq<Component>, i: nat)
    requires i < |cs|
    ensures ItemsOf(cs[..i + 1]) == ItemsOf(cs[..i]) + [QueryItem(cs[i].0, Some(cs[i].1))]
  {
    assert cs[..i + 1][..i] == cs[..i];
  }

  /**
    The query items after appending one item per component: the list is created when the URL
    had none, and left as it is when there is nothing to append.
   */
  function AppendedItems(queryItems: Option<seq<QueryItem>>, cs: seq<Component>): Option<seq<QueryItem>> {
    if cs == [] then queryItems else Some(queryItems.GetOr([]) + ItemsOf(cs))
  }

  lemma AppendedItemsStep(queryItems: Option<seq<QueryItem>>, cs: seq<Component>, i: nat)
    requires i < |cs|
    ensures AppendedItems(queryItems, cs[..i + 1])
         == Some(AppendedItems(queryItems, cs[..i]).GetOr([]) + [QueryItem(cs[i].0, Some(cs[i].1))])
  {
    ItemsOfStep(cs, i);
    assert |cs[..i + 1]| == i + 1;
    var existing := queryItems.GetOr([]);
    if i == 0 {
      assert cs[..0] == [];
      assert ItemsOf(cs[..1]) == [QueryItem(cs[0].0, Some(cs[0].1))];
    } else {
      assert cs[..i] != [];
      assert AppendedItems(queryItems, cs[..i]).GetOr([]) == existing + ItemsOf(cs[..i]);
      assert existing + ItemsOf(cs[..i + 1])
          == existing + ItemsOf(cs[..i]) + [QueryItem(cs[i].0, Some(cs[i].1))];
    }
  }

  /** The URL that `encode(url, with: parameters)` returns. */
  function EncodedUrl(enc: URLEncoding, url: Url, parameters: Option<Parameters>): Url {
    match parameters
    case None => url
    case Some(p) =>
      if url.Unparsable? || p == map[] then url
      else Parsed(url.base, AppendedItems(url.queryItems, QueryComponentsOf(enc, p)))
  }

  /**
    `encode(_:with:)`: nil parameters, an empty dictionary or a URL that `URLComponents`
    cannot take apart leave the URL as it is; otherwise the components are appended to the
    query items one by one, creating the list when the URL had no query.
   */
  method Encode(enc: URLEncoding, url: Url, parameters: Option<Parameters>) returns (encoded: Url)
    ensures encoded == EncodedUrl(enc, url, parameters)
  {
    encoded := url;
    if parameters.None? {
      return;
    }
    var p := parameters.value;
    if url.Parsed? && p != map[] {
      var queryItems := url.queryItems;
      var components := QueryComponents(enc, p);
      for i := 0 to |components|
        invariant queryItems == AppendedItems(url.queryItems, components[..i])
      {
        if queryItems.None? {
          queryItems := Some([]);
        }
        AppendedItemsStep(url.queryItems, components, i);
        queryItems := Some(queryItems.value + [QueryItem(components[i].0, Some(components[i].1))]);
      }
      assert components[..|components|] == components;
      encoded := Parsed(url.base, queryItems);
    }
  }

  /** The names of the query items. */
  function Names(items: seq<QueryItem>): set<string> {
    set i | 0 <= i < |items| :: items[i].name
  }

  /** Where a name of the items occurs. */
  lemma NameIndex(items: seq<QueryItem>, name: string) returns (i: int)
    requires name in Names(items)
    ensures 0 <= i < |items| && items[i].name == name
  {
    i :| 0 <= i < |items| && items[i].name == name;
  }

  /**
    The dictionary `decode` fills: `params[item.name] = item.value` for each item in turn.
    A later item overrides an earlier one of the same name, and an item without a value
    removes the name again, as assigning nil to a Swift dictionary entry does. Every value
    is a string and every key is the name of some item.
   */
  function ItemsToParameters(items: seq<QueryItem>): (params: Parameters)
    ensures forall k :: k in params ==> params[k].Str?
    ensures params.Keys <= Names(items)
  {
    if items == [] then map[]
    else
      var last := items[|items| - 1];
      var front := ItemsToParameters(items[..|items| - 1]);
      assert Names(items[..|items| - 1]) <= Names(items) by {
        forall k | k in Names(items[..|items| - 1])
          ensures k in Names(items)
        {
          var i :| 0 <= i < |items| - 1 && items[..|items| - 1][i].name == k;
          assert items[i].name == k;
        }
      }
      assert last.name in Names(items);
      match last.value
      case Some(v) => front[last.name := Str(v)]
      case None => front - {last.name}
  }

  /** What `decode(url)` returns: the empty dictionary when there is no query to read. */
  function DecodedParameters(url: Url): (params: Parameters)
    ensures forall k :: k in params ==> params[k].Str?
  {
    match url
    case Unparsable(_) => map[]
    case Parsed(_, None) => map[]
    case Parsed(_, Some(items)) => ItemsToParameters(items)
  }

  /** `decode(_:)`. */
  method Decode(url: Url) returns (params: Parameters)
    ensures params == DecodedParameters(url)
  {
    params := map[];
    if url.Parsed? && url.queryItems.Some? {
      var queryItems := url.queryItems.value;
      for i := 0 to |queryItems|
        invariant params == ItemsToParameters(queryItems[..i])
      {
        var item := queryItems[i];
        assert queryItems[..i + 1][..i] == queryItems[..i];
        match item.value {
          case Some(v) => params := params[item.name := Str(v)];
          case None => params := params - {item.name};
        }
      }
      assert queryItems[..|queryItems|] == queryItems;
    }
  }

  // ---------------------------------------------------------------------------------------
  // Properties.

  /** Item `i` is the last one carrying its name. */
  predicate IsLastOfName(items: seq<QueryItem>, i: int) {
    0 <= i < |items| && forall j :: i < j < |items| ==> items[j].name != items[i].name
  }

  /**
    For duplicate names the last occurrence wins: the decoded value of a name is the value of
    its last item, and the name is absent when that item has no value.
   */
  lemma {:induction false} LastOccurrenceWins(items: seq<QueryItem>, i: int)
    requires IsLastOfName(items, i)
    ensures var params := ItemsToParameters(items);
      match items[i].value
      case Some(v) => items[i].name in params && params[items[i].name] == Str(v)
      case None => items[i].name !in params
  {
    var n := |items| - 1;
    if i < n {
      var front := items[..n];
      assert IsLastOfName(front, i) by {
        forall j | i < j < |front|
          ensures front[j].name != front[i].name
        {
          assert front[j] == items[j];
        }
      }
      LastOccurrenceWins(front, i);
      assert items[n].name != items[i].name;
      assert front[i] == items[i];
    }
  }

  /** No query, no parameters. */
  lemma DecodeWithoutQuery(url: Url)
    requires url.Unparsable? || url.queryItems.None? || url.queryItems == Some([])
    ensures DecodedParameters(url) == map[]
  {
  }

  /** The cases in which `encode` hands back the URL it was given. */
  lemma EncodeLeavesUrl(enc: URLEncoding, url: Url, parameters: Option<Parameters>)
    requires parameters.None? || parameters == Some(map[]) || url.Unparsable?
    ensures EncodedUrl(enc, url, parameters) == url
  {
  }

  /**
    Otherwise the existing query items are kept, in order, and one item per component follows
    them, in the order of `queryComponents`.
   */
  lemma EncodeAppendsComponents(enc: URLEncoding, url: Url, parameters: Parameters)
    requires url.Parsed? && parameters != map[]
    ensures var encoded := EncodedUrl(enc, url, Some(parameters));
      var cs := QueryComponentsOf(enc, parameters);
      && encoded.Parsed? && encoded.base == url.base
      && ExistingItems(encoded) == ExistingItems(url) + ItemsOf(cs)
      && (encoded.queryItems.None? <==> url.queryItems.None? && cs == [])
  {
  }

  /** No two items share a name, and every item has a value. */
  predicate DistinctValued(items: seq<QueryItem>) {
    && (forall i, j :: 0 <= i < j < |items| ==> items[i].name != items[j].name)
    && (forall i :: 0 <= i < |items| ==> items[i].value.Some?)
  }

  /** Items of distinct names decode to exactly their names, each with its own value. */
  lemma DistinctItemsDecode(items: seq<QueryItem>)
    requires DistinctValued(items)
    ensures ItemsToParameters(items).Keys == Names(items)
    ensures forall i :: 0 <= i < |items| ==>
      ItemsToParameters(items)[items[i].name] == Str(items[i].value.value)
  {
    var decoded := ItemsToParameters(items);
    forall i | 0 <= i < |items|
      ensures items[i].name in decoded && decoded[items[i].name] == Str(items[i].value.value)
    {
      LastOccurrenceWins(items, i);
    }
  }

  /** `encode` appends one item per scalar parameter. */
  lemma FlatItemCount(enc: URLEncoding, parameters: Parameters)
    requires forall k :: k in parameters ==> IsScalar(parameters[k])
    ensures |ItemsOf(QueryComponentsOf(enc, parameters))| == |parameters|
  {
    FlatQueryComponents(enc, parameters);
  }

  /**
    The item `encode` appends for the `i`-th smallest key of scalar parameters: named by the
    escaped key and carrying the escaped text.
   */
  lemma FlatItemAt(enc: URLEncoding, parameters: Parameters, i: int)
    requires forall k :: k in parameters ==> IsScalar(parameters[k])
    requires 0 <= i < |parameters|
    ensures var keys := SortedKeys(parameters.Keys);
      var items := ItemsOf(QueryComponentsOf(enc, parameters));
      && |items| == |keys|
      && items[i] == QueryItem(Escape(keys[i]), Some(Escape(ScalarText(enc, parameters[keys[i]]))))
  {
    FlatQueryComponents(enc, parameters);
  }

  /** Distinct positions of a strictly sorted key list hold keys that escape differently. */
  lemma EscapedKeysDiffer(keys: seq<string>, i: int, j: int)
    requires StrictlySorted(keys) && 0 <= i < j < |keys|
    ensures Escape(keys[i]) != Escape(keys[j])
  {
    LessIrreflexive(keys[i]);
    if Escape(keys[i]) == Escape(keys[j]) {
      EscapeInjective(keys[i], keys[j]);
    }
  }

  /** No two of the items `encode` appends for scalar parameters share a name. */
  lemma FlatItemsDistinct(enc: URLEncoding, parameters: Parameters)
    requires forall k :: k in parameters ==> IsScalar(parameters[k])
    ensures DistinctValued(ItemsOf(QueryComponentsOf(enc, parameters)))
  {
    var keys := SortedKeys(parameters.Keys);
    var items := ItemsOf(QueryComponentsOf(enc, parameters));
    FlatItemCount(enc, parameters);
    forall i, j | 0 <= i < j < |items|
      ensures items[i].name != items[j].name
    {
      FlatItemAt(enc, parameters, i);
      FlatItemAt(enc, parameters, j);
      EscapedKeysDiffer(keys, i, j);
    }
  }

  /** `encode` onto a URL without a query yields exactly the items of the components. */
  lemma EncodeOntoBareUrl(enc: URLEncoding, base: string, parameters: Parameters)
    requires QueryComponentsOf(enc, parameters) != []
    ensures EncodedUrl(enc, Parsed(base, None), Some(parameters))
      == Parsed(base, Some(ItemsOf(QueryComponentsOf(enc, parameters))))
  {
    assert parameters != map[] by {
      if parameters == map[] {
        EmptyQuery(enc);
      }
    }
    assert [] + ItemsOf(QueryComponentsOf(enc, parameters)) == ItemsOf(QueryComponentsOf(enc, parameters));
  }

  /** Decoding such a URL reads back those items. */
  lemma DecodeBareEncoded(enc: URLEncoding, base: string, parameters: Parameters)
    requires QueryComponentsOf(enc, parameters) != []
    ensures DecodedParameters(EncodedUrl(enc, Parsed(base, None), Some(parameters)))
      == ItemsToParameters(ItemsOf(QueryComponentsOf(enc, parameters)))
  {
    EncodeOntoBareUrl(enc, base, parameters);
    var url := EncodedUrl(enc, Parsed(base, None), Some(parameters));
    assert url.queryItems == Some(ItemsOf(QueryComponentsOf(enc, parameters)));
  }

  /** Which key an escaped key was escaped from. */
  lemma EscapedKeyOf(parameters: Parameters, name: string) returns (k: string)
    requires name in (set k | k in parameters :: Escape(k))
    ensures k in parameters && name == Escape(k)
  {
    k :| k in parameters && name == Escape(k);
  }

  /** Reading back the items of scalar parameters finds each key's escaped text under its escaped name. */
  lemma FlatItemsDecodeValues(enc: URLEncoding, parameters: Parameters)
    requires forall k :: k in parameters ==> IsScalar(parameters[k])
    ensures var decoded := ItemsToParameters(ItemsOf(QueryComponentsOf(enc, parameters)));
      forall k :: k in parameters ==>
        Escape(k) in decoded && decoded[Escape(k)] == Str(Escape(ScalarText(enc, parameters[k])))
  {
    var keys := SortedKeys(parameters.Keys);
    var items := ItemsOf(QueryComponentsOf(enc, parameters));
    var decoded := ItemsToParameters(items);
    forall k | k in parameters
      ensures Escape(k) in decoded && decoded[Escape(k)] == Str(Escape(ScalarText(enc, parameters[k])))
    {
      var i :| 0 <= i < |keys| && keys[i] == k;
      FlatItemAt(enc, parameters, i);
      FlatItemsDistinct(enc, parameters);
      LastOccurrenceWins(items, i);
    }
  }

  /** A name read back from the items of scalar parameters is an escaped key. */
  lemma FlatDecodedName(enc: URLEncoding, parameters: Parameters, name: string)
    requires forall k :: k in parameters ==> IsScalar(parameters[k])
    requires name in ItemsToParameters(ItemsOf(QueryComponentsOf(enc, parameters)))
    ensures name in (set k | k in parameters :: Escape(k))
  {
    var keys := SortedKeys(parameters.Keys);
    var items := ItemsOf(QueryComponentsOf(enc, parameters));
    FlatItemCount(enc, parameters);
    var i := NameIndex(items, name);
    FlatItemAt(enc, parameters, i);
    assert keys[i] in parameters;
  }

  /** ... and no name other than the escaped keys. */
  lemma FlatItemsDecodeKeys(enc: URLEncoding, parameters: Parameters)
    requires forall k :: k in parameters ==> IsScalar(parameters[k])
    ensures ItemsToParameters(ItemsOf(QueryComponentsOf(enc, parameters))).Keys
      == (set k | k in parameters :: Escape(k))
  {
    var decoded := ItemsToParameters(ItemsOf(QueryComponentsOf(enc, parameters)));
    forall name | name in decoded
      ensures name in (set k | k in parameters :: Escape(k))
    {
      FlatDecodedName(enc, parameters, name);
    }
    forall name | name in (set k | k in parameters :: Escape(k))
      ensures name in decoded
    {
      var k := EscapedKeyOf(parameters, name);
      FlatItemsDecodeValues(enc, parameters);
    }
  }

  /**
    Decoding what `encode` wrote onto a URL without a query gives back every parameter of
    scalar value under its escaped key, with its escaped text as a string, and nothing else.
   */
  lemma DecodeEncodeRoundTrip(enc: URLEncoding, base: string, parameters: Parameters)
    requires parameters != map[]
    requires forall k :: k in parameters ==> IsScalar(parameters[k])
    ensures DecodedParameters(EncodedUrl(enc, Parsed(base, None), Some(parameters))).Keys
      == (set k | k in parameters :: Escape(k))
    ensures var decoded := DecodedParameters(EncodedUrl(enc, Parsed(base, None), Some(parameters)));
      forall k :: k in parameters ==>
        Escape(k) in decoded && decoded[Escape(k)] == Str(Escape(ScalarText(enc, parameters[k])))
  {
    assert QueryComponentsOf(enc, parameters) != [] by {
      FlatItemAt(enc, parameters, 0);
    }
    DecodeBareEncoded(enc, base, parameters);
    FlatItemsDecodeValues(enc, parameters);
    FlatItemsDecodeKeys(enc, parameters);
  }
}
