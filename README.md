# NDAuthLogin: query encoding and callback signature check

This project models the two parts of the NDAuthLogin demo app that carry its logic:

- **`NDURLEncoding`** (`NDParameterEncoding.swift`), the query-string encoder and decoder. It
  flattens a parameter dictionary into `(key, value)` components: top-level keys in ascending
  order, nested dictionaries under `key[nested]`, arrays under `key[]` or `key`, and booleans
  as `1`/`0` or `true`/`false`. It percent-escapes keys and values with the RFC 3986 policy of
  section 3.4 (every reserved character except `?` and `/` is escaped). It also appends the
  components to a URL's query items, and reads query items back into a dictionary where the
  last item of a name wins.
- **The callback check of `AppDelegate`** (`AppDelegate.swift`). It reads a callback URL's
  parameters back through `NDURLEncoding`, so they come out sorted and escaped. It takes out
  `sign` and recomputes the signature as MD5 of the base64 of
  `errCode=…&onceCode=…&timestamp=…&type=…`. It rejects a missing or different sign. For
  accepted login results (`type` 1000) it classifies `errCode` into the alert it presents.

Modules:

- `Wrappers`: Swift optionals.
- `KeyOrder`: the order of `keys.sorted(by: <)`.
- `PercentEscape`: `escape`, in both its single-call and batched forms, with a left inverse
  that proves it injective.
- `ParameterEncoding`: the encodings and `query` / `queryComponents`.
- `UrlCodec`: `encode(_:with:)` and `decode(_:)` over a structured URL.
- `AuthHandshake`: `parseParamters`, `buildSign` and `_handle`.

Where the source grows an array, a dictionary or a string in a loop, the model is a method
with that loop, proved equal to a function. The properties are proved about that function.

Base64 and MD5 are parameters of the model (`base64: string -> Option<string>`,
`md5: string -> string`). MD5 comes from CommonCrypto and `nd_base64` is not part of this
model, so every statement about the signature holds for any choice of the two.
`buildSign` (AppDelegate.swift:132-142) signs exactly the four fields `errCode`, `onceCode`,
`timestamp` and `type`. No key is lower-cased, and no signature covers the whole query.

## Model

| member | source | states |
|---|---|---|
| KeyOrder.LessTransitive | NDAuthLoginDemo/NDParameterEncoding.swift:72 | The string order used to sort keys is transitive. |
| KeyOrder.LessTotal | NDAuthLoginDemo/NDParameterEncoding.swift:72 | Two distinct keys are ordered one way and never both ways. |
| KeyOrder.SortedKeys | NDAuthLoginDemo/NDParameterEncoding.swift:72 | The sorted keys are strictly ascending and hold each key of the dictionary exactly once, nothing else. |
| PercentEscape.ReservedToEncodeListed | NDAuthLoginDemo/NDParameterEncoding.swift:136-140 | The characters taken out of the allowed set are exactly `:#[]@` and `!$&'()*+,;=`. |
| PercentEscape.AllowedCharacters | NDAuthLoginDemo/NDParameterEncoding.swift:139-140 | What `escape` lets through is exactly the ASCII letters and digits and `-._~?/`. |
| PercentEscape.EscapeEscaped | NDAuthLoginDemo/NDParameterEncoding.swift:156 | Every character of an escaped string is an allowed character or `%`. |
| PercentEscape.Escape | NDAuthLoginDemo/NDParameterEncoding.swift:155-156 | The one-call branch of `escape` never shortens a string. What it keeps and what it encodes is stated by the lemmas below. |
| PercentEscape.EscapeOmitsReserved | NDAuthLoginDemo/NDParameterEncoding.swift:136-140 | No escaped string contains any of the reserved characters to encode. |
| PercentEscape.EscapeLength | NDAuthLoginDemo/NDParameterEncoding.swift:156 | Escaping keeps the length exactly when every character is allowed. |
| PercentEscape.EscapeIdentity | NDAuthLoginDemo/NDParameterEncoding.swift:156 | `escape` is the identity exactly on strings made of allowed characters. |
| PercentEscape.EscapeKeepsAllowed | NDAuthLoginDemo/NDParameterEncoding.swift:156 | An allowed character passes through unchanged wherever it stands. |
| PercentEscape.EscapeAppend | NDAuthLoginDemo/NDParameterEncoding.swift:157-171 | Escaping distributes over concatenation, which is why batching is harmless. |
| PercentEscape.EscapeBatch | NDAuthLoginDemo/NDParameterEncoding.swift:161-170 | Escaping the next batch extends the escape of the prefix done so far. |
| PercentEscape.EscapeInBatches | NDAuthLoginDemo/NDParameterEncoding.swift:157-171 | The batched loop over slices of 50 characters yields the same string as escaping in one call. |
| PercentEscape.PercentByteDecodes | NDAuthLoginDemo/NDParameterEncoding.swift:156 | A `%XX` triple reads back as the byte it was written for. |
| PercentEscape.Utf8Decodes | NDAuthLoginDemo/NDParameterEncoding.swift:156 | The percent-encoded UTF-8 bytes of a disallowed character read back as that character. |
| PercentEscape.UnescapeEscape | NDAuthLoginDemo/NDParameterEncoding.swift:156 | Percent-decoding undoes `escape` on every string. |
| PercentEscape.EscapeInjective | NDAuthLoginDemo/NDParameterEncoding.swift:156 | Distinct strings escape to distinct strings. |
| ParameterEncoding.EncodeArrayKey | NDAuthLoginDemo/NDParameterEncoding.swift:35-42 | The array key always starts with the key, and equals it exactly when no brackets are used. |
| ParameterEncoding.EncodeBool | NDAuthLoginDemo/NDParameterEncoding.swift:52-59 | The rendering is `1` or `true` exactly for true, and is one character long exactly with the numeric encoding. |
| ParameterEncoding.ArrayKeyEscaped | NDAuthLoginDemo/NDParameterEncoding.swift:35-42 | With brackets an array key becomes the escaped key followed by `%5B%5D`; without brackets it is the escaped key. |
| ParameterEncoding.BoolTextPlain | NDAuthLoginDemo/NDParameterEncoding.swift:52-59 | Both boolean renderings tell true from false and pass through `escape` unchanged. |
| ParameterEncoding.NumberTextPlain | NDAuthLoginDemo/NDParameterEncoding.swift:110 | The decimal text of an integer passes through `escape` unchanged. |
| ParameterEncoding.QueryComponentsFromKey | NDAuthLoginDemo/NDParameterEncoding.swift:95-119 | The recursive loop over nested dictionaries and arrays yields the flattening of the value. |
| ParameterEncoding.ScalarComponents | NDAuthLoginDemo/NDParameterEncoding.swift:106-116 | A string, number or boolean yields exactly one pair: the escaped key and its escaped rendering. |
| ParameterEncoding.EmptyContainersVanish | NDAuthLoginDemo/NDParameterEncoding.swift:98-105 | An empty array or an empty dictionary yields no component. |
| ParameterEncoding.ComponentKeysExtend | NDAuthLoginDemo/NDParameterEncoding.swift:95-119 | Every component a value yields has a key that starts with the escaped key. |
| ParameterEncoding.NestedKeysBracketed | NDAuthLoginDemo/NDParameterEncoding.swift:98-101 | A nested dictionary's components all have keys starting with the escaped `key[`. |
| ParameterEncoding.ArrayKeysBracketed | NDAuthLoginDemo/NDParameterEncoding.swift:102-105 | With brackets, an array's components all have keys starting with the escaped `key[]`. |
| ParameterEncoding.ComponentsEscaped | NDAuthLoginDemo/NDParameterEncoding.swift:95-119 | Every key and value produced is in escaped form. |
| ParameterEncoding.KeyComponentsEscaped | NDAuthLoginDemo/NDParameterEncoding.swift:79-87 | All components of a dictionary are in escaped form. |
| ParameterEncoding.QueryComponents | NDAuthLoginDemo/NDParameterEncoding.swift:79-87 | The loop over the sorted keys concatenates each key's components, in key order. |
| ParameterEncoding.FlatKeyAt | NDAuthLoginDemo/NDParameterEncoding.swift:82-85 | For scalar values, the i-th component is the i-th key, escaped, with its escaped text. |
| ParameterEncoding.FlatQueryComponents | NDAuthLoginDemo/NDParameterEncoding.swift:79-87 | For scalar values, the components are one pair per key in ascending key order. |
| ParameterEncoding.Query | NDAuthLoginDemo/NDParameterEncoding.swift:69-77 | `query` renders the same components as `queryComponents`, as `k=v` joined by `&`. |
| ParameterEncoding.Join | NDAuthLoginDemo/NDParameterEncoding.swift:76 | The joined text is empty exactly when there are no components, and otherwise starts with the first `k=v`. |
| ParameterEncoding.EmptyQuery | NDAuthLoginDemo/NDParameterEncoding.swift:69-87 | The empty dictionary gives no components and the empty query string. |
| ParameterEncoding.SplitPairText | NDAuthLoginDemo/NDParameterEncoding.swift:76 | An escaped pair's `k=v` text splits back into the pair and contains no `&`. |
| ParameterEncoding.SplitJoin | NDAuthLoginDemo/NDParameterEncoding.swift:76 | Splitting the joined text of escaped components on `&` and `=` gives them back. |
| ParameterEncoding.QueryDeterminesComponents | NDAuthLoginDemo/NDParameterEncoding.swift:69-87 | The query string determines the components it was built from. |
| UrlCodec.ItemsOf | NDAuthLoginDemo/NDParameterEncoding.swift:209-214 | Each component becomes one query item with the same name and value, in order. |
| UrlCodec.Encode | NDAuthLoginDemo/NDParameterEncoding.swift:200-220 | The loop that appends items, creating the list when there is none, yields the encoded URL. |
| UrlCodec.EncodeLeavesUrl | NDAuthLoginDemo/NDParameterEncoding.swift:203-207 | Nil or empty parameters, or a URL that cannot be taken apart, leave the URL unchanged. |
| UrlCodec.EncodeAppendsComponents | NDAuthLoginDemo/NDParameterEncoding.swift:207-216 | Otherwise the existing items are kept in order, the new items follow in component order, and the query stays absent only if it was absent and nothing was appended. |
| UrlCodec.ItemsToParameters | NDAuthLoginDemo/NDParameterEncoding.swift:235-238 | Decoded values are strings, and every decoded key is the name of some query item. |
| UrlCodec.Decode | NDAuthLoginDemo/NDParameterEncoding.swift:228-242 | The loop over the query items yields the decoded dictionary, empty when there is no query. |
| UrlCodec.DecodeWithoutQuery | NDAuthLoginDemo/NDParameterEncoding.swift:230-233 | A URL without query items decodes to the empty dictionary. |
| UrlCodec.LastOccurrenceWins | NDAuthLoginDemo/NDParameterEncoding.swift:235-238 | A name's decoded value is that of its last item, and the name is absent when that item has no value. |
| UrlCodec.DistinctItemsDecode | NDAuthLoginDemo/NDParameterEncoding.swift:235-238 | Items with distinct names and values decode to exactly those names, each with its own value. |
| UrlCodec.FlatItemsDistinct | NDAuthLoginDemo/NDParameterEncoding.swift:209-214 | The items appended for scalar parameters have distinct names and all carry values. |
| UrlCodec.DecodeEncodeRoundTrip | NDAuthLoginDemo/NDParameterEncoding.swift:200-242 | Decoding a query-less URL encoded with scalar parameters gives back the escaped keys, each with its escaped value. |
| AuthHandshake.ParseParameters | NDAuthLoginDemo/AppDelegate.swift:124-130 | Parsing is decoding the URL, then taking the query components with the default encoding. |
| AuthHandshake.ParsedPairAt | NDAuthLoginDemo/AppDelegate.swift:124-130 | The parsed pairs are the decoded keys in ascending order, escaped, each with its escaped value. |
| AuthHandshake.ParsedPairsDistinct | NDAuthLoginDemo/AppDelegate.swift:124-130 | No two parsed pairs share a key. |
| AuthHandshake.BuildSign | NDAuthLoginDemo/AppDelegate.swift:132-142 | The signature is MD5 of the base64 of `errCode=e&onceCode=o&timestamp=t&type=ty`, absent fields empty, and nil when base64 fails. |
| AuthHandshake.SignatureFrame | NDAuthLoginDemo/AppDelegate.swift:134-138 | Parameters that agree on the four signed fields get the same signature, whatever else they hold. |
| AuthHandshake.CheckParams | NDAuthLoginDemo/AppDelegate.swift:55-64 | `checkParams` never holds `sign`. |
| AuthHandshake.SplitSign | NDAuthLoginDemo/AppDelegate.swift:55-64 | The loop over the pairs yields the provided sign and `checkParams`. |
| AuthHandshake.ProvidedSignAt | NDAuthLoginDemo/AppDelegate.swift:55-59 | The provided sign is the value of the last pair named `sign`. |
| AuthHandshake.ProvidedSignAbsent | NDAuthLoginDemo/AppDelegate.swift:55-68 | Without a pair named `sign` there is no provided sign. |
| AuthHandshake.CheckParamsAt | NDAuthLoginDemo/AppDelegate.swift:55-64 | Every pair not named `sign` is kept in `checkParams`, the last of its name winning. |
| AuthHandshake.CheckParamsAbsent | NDAuthLoginDemo/AppDelegate.swift:55-64 | `checkParams` holds no key that no pair has. |
| AuthHandshake.Classify | NDAuthLoginDemo/AppDelegate.swift:93-113 | A token is issued exactly for `errCode` `-1`, carrying `onceCode ?? ""`; the user denied, cancelled or the token fetch failed exactly for `1100`, `1200` and `1300`. An unknown error is reported exactly when `errCode` is none of `-1`, `1100`, `1200` and `1300`, absent included. |
| AuthHandshake.Handle | NDAuthLoginDemo/AppDelegate.swift:46-121 | `_handle` takes the decision of the verdict on the parsed pairs: reject without a sign or on a mismatch, otherwise accept and classify login results. |
| AuthHandshake.ParsedFieldAt | NDAuthLoginDemo/AppDelegate.swift:124-130 | A plain name the URL carries becomes exactly one pair, holding its escaped value. |
| AuthHandshake.ParsedFieldAbsent | NDAuthLoginDemo/AppDelegate.swift:124-130 | A plain name the URL does not carry names no pair. |
| AuthHandshake.ParsedSign | NDAuthLoginDemo/AppDelegate.swift:49-66 | The sign that `_handle` checks is the URL's `sign` parameter, escaped. |
| AuthHandshake.ParsedCheckField | NDAuthLoginDemo/AppDelegate.swift:80-86 | The `type`, `errCode` and `onceCode` that `_handle` reads are the URL's parameters, escaped. |
| AuthHandshake.SigningFields | NDAuthLoginDemo/AppDelegate.swift:71 | The recomputed signature is taken over the URL's four fields, escaped, with absent fields empty. |
| AuthHandshake.HandleAccepts | NDAuthLoginDemo/AppDelegate.swift:66-76 | A URL is accepted exactly when it carries a `sign` equal to the expected signature. A missing sign, a mismatch and a failed base64 all reject. |
| AuthHandshake.HandleClassifies | NDAuthLoginDemo/AppDelegate.swift:88-120 | An alert is shown exactly for accepted URLs whose `type` is 1000, and it is the classification of `errCode`. Any other accepted `type` returns true without an alert. |
| AuthHandshake.FieldIsCode | NDAuthLoginDemo/AppDelegate.swift:80-95 | Comparing an escaped field with a plain code such as `1000` or `-1` is the same as comparing the decoded value. |

## Left out

- UIKit: `UIAlertController`, `present` and the `window` are not modelled. The alert is returned as an `Alert` value. The three URL entry points (AppDelegate.swift:27-42) only forward to `_handle`; `didFinishLaunchingWithOptions` (AppDelegate.swift:16-19) just returns `true`.
- ViewController.swift is not part of this model. Its login action reads the clock and opens a URL, and `nd_md5` wraps CommonCrypto.
- MD5 and base64 are function parameters, so the example URL and sign in the comment above `_handle` cannot be checked.
- `URLComponents` parsing and the URL text are not modelled. A URL is either unparsable or a base with an optional list of query items. The percent-encoding Foundation applies when it writes items into the URL text, and undoes when it reads them, is left out.
- UrlCodec.Encode: `urlComponents.url ?? url` is modelled as always succeeding, so the fallback to the original URL after a failed rebuild is not captured.
- `NSNumber` floats, the `isBool` type test and the `"\(value)"` description of other types are left out. Numbers are integers written in decimal, and booleans are a separate case.
- PercentEscape.Escape: the `?? string` fallback of `addingPercentEncoding` is not modelled. Dafny characters are Unicode scalar values, so the encoding never fails. The `#available(iOS 8.3, *)` test chooses between the one-call and the batched forms, and both are modelled and proved equal.
- KeyOrder.Less: Swift's `<` and `==` on `String` compare after Unicode canonical equivalence. The model compares code points, which agrees on normalised strings only. Map keys and name equality are also compared by code point. So two names that are canonically equivalent but spelled differently, such as U+00E9 and `e` followed by U+0301, stay two keys in `UrlCodec.ItemsToParameters` (`params[item.name] = item.value`) and in `AuthHandshake.CheckParams` (`checkParams[key] = value`). Swift merges them into one. `UrlCodec.LastOccurrenceWins` picks the last item with exactly the same code points, not the last equivalent one. The verdict of `_handle` is unaffected, because the five names it reads are ASCII.
- ParameterEncoding.Components: a nested dictionary is a sequence of entries. Swift's dictionary iteration order is unspecified, and the model takes whatever order the sequence gives.
- UrlCodec.DecodeEncodeRoundTrip: stated only for scalar values on a URL without a query. Nested keys such as `a[b]` do not decode back into a nested dictionary, and existing items may share names with the new ones.
