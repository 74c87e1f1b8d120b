/**
  The handling of the login callback URL in `AppDelegate` (AppDelegate.swift): reading its
  parameters back through `NDURLEncoding`, checking the `sign` parameter against a signature
  recomputed from four fixed fields, and classifying the result of a login.

  Base64 and MD5 are not part of this model: they are passed in as functions, `base64` being
  allowed to fail as `nd_base64()` may.
 */
module AuthHandshake {
  import opened Wrappers
  import opened KeyOrder
  import opened PercentEscape
  import opened ParameterEncoding
  import opened UrlCodec

  // ---------------------------------------------------------------------------------------
  // parseParamters(url:)

  /** What `parseParamters(url:)` returns: the decoded parameters as query components. */
  function ParsedPairs(url: Url): seq<Component> {
    QueryComponentsOf(DefaultEncoding, DecodedParameters(url))
  }

  /** `parseParamters(url:)`: `decode`, then `queryComponents` with the default encoding. */
  method ParseParameters(url: Url) returns (pairs: seq<Component>)
    ensures pairs == ParsedPairs(url)
  {
    var param := Decode(url);
    pairs := QueryComponents(DefaultEncoding, param);
  }

  /**
    The pairs are the decoded keys in ascending order, each escaped, with its escaped value:
    what the signature is later computed over are escaped values.
   */
  lemma ParsedPairAt(url: Url, i: int)
    requires 0 <= i < |DecodedParameters(url)|
    ensures var d := DecodedParameters(url);
      var keys := SortedKeys(d.Keys);
      && |ParsedPairs(url)| == |keys|
      && ParsedPairs(url)[i] == (Escape(keys[i]), Escape(d[keys[i]].text))
  {
    var d := DecodedParameters(url);
    FlatKeyAt(DefaultEncoding, d, SortedKeys(d.Keys), i);
  }

  /** No two pairs share a key. */
  lemma ParsedPairsDistinct(url: Url, i: int, j: int)
    requires 0 <= i < j < |ParsedPairs(url)|
    ensures ParsedPairs(url)[i].0 != ParsedPairs(url)[j].0
  {
    var d := DecodedParameters(url);
    FlatKeyCount(DefaultEncoding, d, SortedKeys(d.Keys));
    ParsedPairAt(url, i);
    ParsedPairAt(url, j);
    EscapedKeysDiffer(SortedKeys(d.Keys), i, j);
  }

  // ---------------------------------------------------------------------------------------
  // buildSign(_:)

  /** `parameters[name] ?? ""`. */
  function Field(parameters: map<string, string>, name: string): string {
    if name in parameters then parameters[name] else ""
  }

  /**
    The string that is signed: the four fields in a fixed order, each as `name=value`,
    separated by `&`.
   */
  function SigningText(errCode: string, onceCode: string, timestamp: string, kind: string): string {
    "errCode=" + errCode + "&" + "onceCode=" + onceCode + "&" + "timestamp=" + timestamp + "&" + "type=" + kind
  }

  function SigningString(parameters: map<string, string>): string {
    SigningText(Field(parameters, "errCode"), Field(parameters, "onceCode"),
      Field(parameters, "timestamp"), Field(parameters, "type"))
  }

  /** `text.nd_base64()?.nd_md5()`: base64 first, then MD5, nil when base64 fails. */
  function Signature(text: string, base64: string -> Option<string>, md5: string -> string): Option<string> {
    match base64(text)
    case Some(encoded) => Some(md5(encoded))
    case None => None
  }

  /** `buildSign(_:)`: the signing string is built field by field, then hashed. */
  method BuildSign(parameters: map<string, string>, base64: string -> Option<string>, md5: string -> string)
    returns (sign: Option<string>)
    ensures sign == Signature(SigningString(parameters), base64, md5)
  {
    var str := "";
    str := str + "errCode=" + Field(parameters, "errCode") + "&";
    str := str + "onceCode=" + Field(parameters, "onceCode") + "&";
    str := str + "timestamp=" + Field(parameters, "timestamp") + "&";
    str := str + "type=" + Field(parameters, "type");
    assert "" + "errCode=" == "errCode=";
    var encoded := base64(str);
    sign := if encoded.Some? then Some(md5(encoded.value)) else None;
  }

  /** Only the four fields enter the signature: any other parameter may change freely. */
  lemma SignatureFrame(p: map<string, string>, q: map<string, string>,
                       base64: string -> Option<string>, md5: string -> string)
    requires forall name :: name in ["errCode", "onceCode", "timestamp", "type"] ==> Field(p, name) == Field(q, name)
    ensures Signature(SigningString(p), base64, md5) == Signature(SigningString(q), base64, md5)
  {
    assert Field(p, "errCode") == Field(q, "errCode");
    assert Field(p, "onceCode") == Field(q, "onceCode");
    assert Field(p, "timestamp") == Field(q, "timestamp");
    assert Field(p, "type") == Field(q, "type");
  }

  // ---------------------------------------------------------------------------------------
  // _handle(openUrl:)

  /** The `sign` the URL carries: the value of the last pair named `sign`, if any. */
  function ProvidedSign(pairs: seq<Component>): Option<string> {
    if pairs == [] then None
    else if pairs[|pairs| - 1].0 == "sign" then Some(pairs[|pairs| - 1].1)
    else ProvidedSign(pairs[..|pairs| - 1])
  }

  /** `checkParams`: every pair except those named `sign`, later pairs overwriting earlier ones. */
  function CheckParams(pairs: seq<Component>): (check: map<string, string>)
    ensures "sign" !in check
  {
    if pairs == [] then map[]
    else
      var (key, value) := pairs[|pairs| - 1];
      var rest := CheckParams(pairs[..|pairs| - 1]);
      if key == "sign" then rest else rest[key := value]
  }

  /** `checkParams[name] as? String`. */
  function Lookup(parameters: map<string, string>, name: string): Option<string> {
    if name in parameters then Some(parameters[name]) else None
  }

  /** The alert `_handle` presents for a login result. */
  datatype Alert = TokenIssued(onceCode: string) | UserDenied | UserCancelled | TokenFetchFailed | UnknownError

  /** The `switch errCode` of a login result; an absent `errCode` is an unknown error. */
  function Classify(errCode: Option<string>, onceCode: Option<string>): (alert: Alert)
    ensures alert.TokenIssued? <==> errCode == Some("-1")
    ensures alert.TokenIssued? ==> alert.onceCode == onceCode.GetOr("")
    ensures alert == UserDenied <==> errCode == Some("1100")
    ensures alert == UserCancelled <==> errCode == Some("1200")
    ensures alert == TokenFetchFailed <==> errCode == Some("1300")
    ensures alert.UnknownError? <==> errCode !in {Some("-1"), Some("1100"), Some("1200"), Some("1300")}
  {
    if errCode == Some("-1") then TokenIssued(onceCode.GetOr(""))
    else if errCode == Some("1100") then UserDenied
    else if errCode == Some("1200") then UserCancelled
    else if errCode == Some("1300") then TokenFetchFailed
    else UnknownError
  }

  /** What `_handle` returns, with the alert it presents, if any. */
  datatype Outcome = Outcome(handled: bool, alert: Option<Alert>)

  /** The decision `_handle` takes on the parsed pairs. */
  function Verdict(pairs: seq<Component>, base64: string -> Option<string>, md5: string -> string): Outcome {
    var sign := ProvidedSign(pairs);
    var check := CheckParams(pairs);
    if sign.None? || Signature(SigningString(check), base64, md5) != Some(sign.value) then
      Outcome(false, None)
    else if Lookup(check, "type") == Some("1000") then
      Outcome(true, Some(Classify(Lookup(check, "errCode"), Lookup(check, "onceCode"))))
    else
      Outcome(true, None)
  }

  /** The loop of `_handle` that takes `sign` out of the parsed pairs. */
  method SplitSign(params: seq<Component>) returns (originSign: Option<string>, checkParams: map<string, string>)
    ensures originSign == ProvidedSign(params)
    ensures checkParams == CheckParams(params)
  {
    originSign := None;
    checkParams := map[];
    for i := 0 to |params|
      invariant originSign == ProvidedSign(params[..i])
      invariant checkParams == CheckParams(params[..i])
    {
      assert params[..i + 1][..i] == params[..i];
      var (key, value) := params[i];
      if key == "sign" {
        originSign := Some(value);
      } else {
        checkParams := checkParams[key := value];
      }
    }
    assert params[..|params|] == params;
  }

  /**
    `_handle(openUrl:)`: parse the URL, split off `sign`, recompute the signature over the rest,
    reject a missing or mismatching sign, and classify a login result.
   */
  method Handle(url: Url, base64: string -> Option<string>, md5: string -> string) returns (outcome: Outcome)
    ensures outcome == Verdict(ParsedPairs(url), base64, md5)
  {
    var params := ParseParameters(url);
    var originSign, checkParams := SplitSign(params);
    if originSign.None? {
      return Outcome(false, None);
    }
    var sign := originSign.value;
    var checkSign := BuildSign(checkParams, base64, md5);
    if checkSign != Some(sign) {
      return Outcome(false, None);
    }
    var kind := Lookup(checkParams, "type");
    var errCode := Lookup(checkParams, "errCode");
    var onceCode := Lookup(checkParams, "onceCode");
    var alert: Option<Alert> := None;
    if kind == Some("1000") {
      var a: Alert;
      if errCode == Some("-1") {
        a := TokenIssued(if onceCode.Some? then onceCode.value else "");
      } else if errCode == Some("1100") {
        a := UserDenied;
      } else if errCode == Some("1200") {
        a := UserCancelled;
      } else if errCode == Some("1300") {
        a := TokenFetchFailed;
      } else {
        a := UnknownError;
      }
      alert := Some(a);
    }
    return Outcome(true, alert);
  }

  // ---------------------------------------------------------------------------------------
  // The sign split, on any sequence of pairs

  /** The provided sign is the value of the last pair named `sign`. */
  lemma {:induction false} ProvidedSignAt(pairs: seq<Component>, i: int)
    requires 0 <= i < |pairs| && pairs[i].0 == "sign"
    requires forall j :: i < j < |pairs| ==> pairs[j].0 != "sign"
    ensures ProvidedSign(pairs) == Some(pairs[i].1)
  {
    var n := |pairs| - 1;
    if i < n {
      assert pairs[n].0 != "sign";
      ProvidedSignAt(pairs[..n], i);
    }
  }

  /** Without a pair named `sign` there is no provided sign. */
  lemma {:induction false} ProvidedSignAbsent(pairs: seq<Component>)
    requires forall j :: 0 <= j < |pairs| ==> pairs[j].0 != "sign"
    ensures ProvidedSign(pairs) == None
  {
    if pairs != [] {
      ProvidedSignAbsent(pairs[..|pairs| - 1]);
    }
  }

  /** Every pair not named `sign` is kept in `checkParams`, the last of its name winning. */
  lemma {:induction false} CheckParamsAt(pairs: seq<Component>, i: int)
    requires 0 <= i < |pairs| && pairs[i].0 != "sign"
    requires forall j :: i < j < |pairs| ==> pairs[j].0 != pairs[i].0
    ensures pairs[i].0 in CheckParams(pairs) && CheckParams(pairs)[pairs[i].0] == pairs[i].1
  {
    var n := |pairs| - 1;
    if i < n {
      assert pairs[n].0 != pairs[i].0;
      CheckParamsAt(pairs[..n], i);
      assert pairs[..n][i] == pairs[i];
    }
  }

  /** ... and nothing else is: `checkParams` invents no key. */
  lemma {:induction false} CheckParamsAbsent(pairs: seq<Component>, name: string)
    requires forall j :: 0 <= j < |pairs| ==> pairs[j].0 != name
    ensures name !in CheckParams(pairs)
  {
    if pairs != [] {
      CheckParamsAbsent(pairs[..|pairs| - 1], name);
    }
  }

  // ---------------------------------------------------------------------------------------
  // The verdict in terms of the decoded URL

  /**
    A decoded parameter as `_handle` sees it once `parseParamters` is done: its value,
    escaped, if the URL carries it.
   */
  function DecodedField(url: Url, name: string): Option<string> {
    var d := DecodedParameters(url);
    if name in d then Some(Escape(d[name].text)) else None
  }

  /** Written with ASCII letters, digits and `-` only, as the field names and codes `_handle` uses. */
  predicate PlainName(s: string) {
    forall c :: c in s ==> IsAsciiAlphanumeric(c) || c == '-'
  }

  /** The names `_handle` reads, and the codes it compares with, are plain. */
  lemma FieldNamesPlain()
    ensures PlainName("sign") && PlainName("type") && PlainName("errCode")
    ensures PlainName("onceCode") && PlainName("timestamp")
    ensures PlainName("1000") && PlainName("-1") && PlainName("1100") && PlainName("1200") && PlainName("1300")
  {
  }

  /** A plain name passes through `escape` unchanged. */
  lemma PlainText(s: string)
    requires PlainName(s)
    ensures Escape(s) == s
  {
    assert AllAllowed(s) by {
      forall i | 0 <= i < |s|
        ensures IsAllowed(s[i])
      {
        assert s[i] in s;
      }
    }
    EscapeIdentity(s);
  }

  lemma ParsedPairCount(url: Url)
    ensures |ParsedPairs(url)| == |SortedKeys(DecodedParameters(url).Keys)|
  {
    var d := DecodedParameters(url);
    FlatKeyCount(DefaultEncoding, d, SortedKeys(d.Keys));
  }

  /** A plain name the URL carries becomes exactly one pair, holding its escaped value. */
  lemma ParsedFieldAt(url: Url, name: string) returns (i: int)
    requires PlainName(name) && name in DecodedParameters(url)
    ensures 0 <= i < |ParsedPairs(url)|
    ensures ParsedPairs(url)[i] == (name, Escape(DecodedParameters(url)[name].text))
    ensures forall j :: 0 <= j < |ParsedPairs(url)| && j != i ==> ParsedPairs(url)[j].0 != name
  {
    var d := DecodedParameters(url);
    var keys := SortedKeys(d.Keys);
    ParsedPairCount(url);
    PlainText(name);
    i :| 0 <= i < |keys| && keys[i] == name;
    ParsedPairAt(url, i);
    forall j | 0 <= j < |ParsedPairs(url)| && j != i
      ensures ParsedPairs(url)[j].0 != name
    {
      if j < i {
        ParsedPairsDistinct(url, j, i);
      } else {
        ParsedPairsDistinct(url, i, j);
      }
    }
  }

  /** A plain name the URL does not carry names no pair. */
  lemma ParsedFieldAbsent(url: Url, name: string)
    requires PlainName(name) && name !in DecodedParameters(url)
    ensures forall j :: 0 <= j < |ParsedPairs(url)| ==> ParsedPairs(url)[j].0 != name
  {
    var d := DecodedParameters(url);
    var keys := SortedKeys(d.Keys);
    ParsedPairCount(url);
    PlainText(name);
    forall j | 0 <= j < |ParsedPairs(url)|
      ensures ParsedPairs(url)[j].0 != name
    {
      ParsedPairAt(url, j);
      if Escape(keys[j]) == name {
        EscapeInjective(keys[j], name);
      }
    }
  }

  /** The sign `_handle` checks against is the URL's `sign` parameter, escaped. */
  lemma ParsedSign(url: Url)
    ensures ProvidedSign(ParsedPairs(url)) == DecodedField(url, "sign")
  {
    FieldNamesPlain();
    if "sign" in DecodedParameters(url) {
      var i := ParsedFieldAt(url, "sign");
      ProvidedSignAt(ParsedPairs(url), i);
    } else {
      ParsedFieldAbsent(url, "sign");
      ProvidedSignAbsent(ParsedPairs(url));
    }
  }

  /** Any other plain field `_handle` reads is the URL's parameter of that name, escaped. */
  lemma ParsedCheckField(url: Url, name: string)
    requires PlainName(name) && name != "sign"
    ensures Lookup(CheckParams(ParsedPairs(url)), name) == DecodedField(url, name)
  {
    if name in DecodedParameters(url) {
      var i := ParsedFieldAt(url, name);
      CheckParamsAt(ParsedPairs(url), i);
    } else {
      ParsedFieldAbsent(url, name);
      CheckParamsAbsent(ParsedPairs(url), name);
    }
  }

  /** The signature `_handle` expects for a URL: over its four fields, escaped, absent ones empty. */
  function ExpectedSign(url: Url, base64: string -> Option<string>, md5: string -> string): Option<string> {
    Signature(SigningText(DecodedField(url, "errCode").GetOr(""), DecodedField(url, "onceCode").GetOr(""),
      DecodedField(url, "timestamp").GetOr(""), DecodedField(url, "type").GetOr("")), base64, md5)
  }

  /** `checkParams[name] ?? ""` for a plain name: the URL's parameter, escaped, or empty. */
  lemma CheckedField(url: Url, name: string)
    requires PlainName(name) && name != "sign"
    ensures Field(CheckParams(ParsedPairs(url)), name) == DecodedField(url, name).GetOr("")
  {
    ParsedCheckField(url, name);
  }

  lemma SigningFields(url: Url)
    ensures SigningString(CheckParams(ParsedPairs(url)))
         == SigningText(DecodedField(url, "errCode").GetOr(""), DecodedField(url, "onceCode").GetOr(""),
              DecodedField(url, "timestamp").GetOr(""), DecodedField(url, "type").GetOr(""))
  {
    var check := CheckParams(ParsedPairs(url));
    FieldNamesPlain();
    assert Field(check, "errCode") == DecodedField(url, "errCode").GetOr("") by { CheckedField(url, "errCode"); }
    assert Field(check, "onceCode") == DecodedField(url, "onceCode").GetOr("") by { CheckedField(url, "onceCode"); }
    assert Field(check, "timestamp") == DecodedField(url, "timestamp").GetOr("") by { CheckedField(url, "timestamp"); }
    assert Field(check, "type") == DecodedField(url, "type").GetOr("") by { CheckedField(url, "type"); }
  }

  /**
    `_handle` accepts a URL exactly when it carries a `sign` and that sign, escaped, equals
    the signature of its four fields; a missing sign, a mismatch and a failed base64 all reject.
   */
  lemma HandleAccepts(url: Url, base64: string -> Option<string>, md5: string -> string)
    ensures Verdict(ParsedPairs(url), base64, md5).handled
        <==> "sign" in DecodedParameters(url) && ExpectedSign(url, base64, md5) == DecodedField(url, "sign")
  {
    var pairs := ParsedPairs(url);
    var signed := Signature(SigningString(CheckParams(pairs)), base64, md5);
    assert Verdict(pairs, base64, md5).handled <==> ProvidedSign(pairs).Some? && signed == ProvidedSign(pairs);
    ParsedSign(url);
    SigningFields(url);
  }

  /**
    Once accepted, a login result (`type` 1000) is classified by its `errCode`, and any other
    `type` is accepted without an alert.
   */
  lemma HandleClassifies(url: Url, base64: string -> Option<string>, md5: string -> string)
    ensures var outcome := Verdict(ParsedPairs(url), base64, md5);
      outcome.alert.Some? <==> outcome.handled && DecodedField(url, "type") == Some("1000")
    ensures var outcome := Verdict(ParsedPairs(url), base64, md5);
      outcome.alert.Some? ==>
        outcome.alert.value == Classify(DecodedField(url, "errCode"), DecodedField(url, "onceCode"))
  {
    var check := CheckParams(ParsedPairs(url));
    FieldNamesPlain();
    VerdictAlert(ParsedPairs(url), base64, md5);
    assert Lookup(check, "type") == DecodedField(url, "type") by { ParsedCheckField(url, "type"); }
    assert Lookup(check, "errCode") == DecodedField(url, "errCode") by { ParsedCheckField(url, "errCode"); }
    assert Lookup(check, "onceCode") == DecodedField(url, "onceCode") by { ParsedCheckField(url, "onceCode"); }
  }

  /** The alert of a verdict, on any pairs: only for accepted login results, classified by `errCode`. */
  lemma VerdictAlert(pairs: seq<Component>, base64: string -> Option<string>, md5: string -> string)
    ensures var outcome := Verdict(pairs, base64, md5);
      outcome.alert.Some? <==> outcome.handled && Lookup(CheckParams(pairs), "type") == Some("1000")
    ensures var outcome := Verdict(pairs, base64, md5);
      outcome.alert.Some? ==>
        outcome.alert.value == Classify(Lookup(CheckParams(pairs), "errCode"), Lookup(CheckParams(pairs), "onceCode"))
  {
  }

  /**
    Comparing an escaped field with a plain code, as `_handle` does for `type` and `errCode`,
    is the same as comparing the decoded value itself.
   */
  lemma FieldIsCode(url: Url, name: string, code: string)
    requires PlainName(code)
    ensures DecodedField(url, name) == Some(code)
        <==> name in DecodedParameters(url) && DecodedParameters(url)[name] == Str(code)
  {
    PlainText(code);
    var d := DecodedParameters(url);
    if name in d && Escape(d[name].text) == code {
      EscapeInjective(d[name].text, code);
    }
  }
}
