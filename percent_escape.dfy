/**
  `NDURLEncoding.escape` (NDParameterEncoding.swift): percent-escaping of a query-string
  key or value following the reserved-character policy of section 3.4 of RFC 3986.

  The allowed set is Foundation's `CharacterSet.urlQueryAllowed` with the general delimiters
  `:#[]@` and the sub-delimiters `!$&'()*+,;=` removed; `?` and `/` stay allowed so that a
  query value may carry a URL. A character outside that set is replaced by its UTF-8 bytes,
  each written `%XX` in upper-case hexadecimal, as `addingPercentEncoding` does.
 */
module PercentEscape {
  import opened Wrappers

  /** One byte of the UTF-8 form of a character. */
  type Byte = b: int | 0 <= b < 0x100

  /** General delimiters that are escaped; `?` and `/` are deliberately not among them. */
  const GeneralDelimitersToEncode: string := ":#[]@"
  const SubDelimitersToEncode: string := "!$&'()*+,;="

  /** Every reserved character that `escape` never lets through literally. */
  const ReservedToEncode: string := GeneralDelimitersToEncode + SubDelimitersToEncode

  predicate IsAsciiAlphanumeric(c: char) {
    ('a' <= c <= 'z') || ('A' <= c <= 'Z') || ('0' <= c <= '9')
  }

  /** Foundation's `CharacterSet.urlQueryAllowed`. */
  predicate InUrlQueryAllowed(c: char) {
    || IsAsciiAlphanumeric(c)
    || c == '-' || c == '.' || c == '_' || c == '~'
    || c == '!' || c == '$' || c == '&' || c == '\'' || c == '(' || c == ')'
    || c == '*' || c == '+' || c == ',' || c == ';' || c == '='
    || c == ':' || c == '@' || c == '/' || c == '?'
  }

  /** The `allowedCharacterSet` of `escape`: urlQueryAllowed minus the delimiters to encode. */
  predicate IsAllowed(c: char) {
    InUrlQueryAllowed(c) && !IsReservedToEncode(c)
  }

  predicate IsReservedToEncode(c: char) {
    || c == ':' || c == '#' || c == '[' || c == ']' || c == '@'
    || c == '!' || c == '$' || c == '&' || c == '\'' || c == '(' || c == ')'
    || c == '*' || c == '+' || c == ',' || c == ';' || c == '='
  }

  lemma ReservedToEncodeListed(c: char)
    ensures IsReservedToEncode(c) <==> c in ReservedToEncode
  {
  }

  /** What is left of the allowed set: ASCII letters and digits and `-._~?/`. */
  lemma AllowedCharacters(c: char)
    ensures IsAllowed(c) <==> IsAsciiAlphanumeric(c) || c in "-._~?/"
  {
  }

  predicate AllAllowed(s: string) {
    forall i :: 0 <= i < |s| ==> IsAllowed(s[i])
  }

  /** Every character is a percent sign or an allowed character: the output alphabet of `Escape`. */
  predicate Escaped(s: string) {
    forall i :: 0 <= i < |s| ==> IsAllowed(s[i]) || s[i] == '%'
  }

  lemma EscapedAppend(a: string, b: string)
    requires Escaped(a) && Escaped(b)
    ensures Escaped(a + b)
  {
    forall i | 0 <= i < |a + b|
      ensures IsAllowed((a + b)[i]) || (a + b)[i] == '%'
    {
      if i >= |a| {
        assert (a + b)[i] == b[i - |a|];
      }
    }
  }

  /** The UTF-8 encoding of one Unicode scalar value. */
  function Utf8(c: char): (bs: seq<Byte>)
    ensures 1 <= |bs| <= 4
  {
    var n := c as int;
    if n < 0x80 then [n]
    else if n < 0x800 then [0xC0 + n / 0x40, 0x80 + n % 0x40]
    else if n < 0x1_0000 then [0xE0 + n / 0x1000, 0x80 + n / 0x40 % 0x40, 0x80 + n % 0x40]
    else [0xF0 + n / 0x4_0000, 0x80 + n / 0x1000 % 0x40, 0x80 + n / 0x40 % 0x40, 0x80 + n % 0x40]
  }

  /** An upper-case hexadecimal digit. */
  function HexDigit(d: int): (c: char)
    requires 0 <= d < 16
    ensures IsAsciiAlphanumeric(c)
  {
    if d < 10 then ('0' as int + d) as char else ('A' as int + d - 10) as char
  }

  /** `%XX` for one byte. */
  function PercentByte(b: Byte): (r: string)
    ensures |r| == 3 && r[0] == '%' && IsAllowed(r[1]) && IsAllowed(r[2])
  {
    ['%', HexDigit(b / 16), HexDigit(b % 16)]
  }

  function PercentBytes(bs: seq<Byte>): (r: string)
    ensures |r| == 3 * |bs|
    ensures |bs| > 0 ==> r[0] == '%'
  {
    if bs == [] then [] else PercentByte(bs[0]) + PercentBytes(bs[1..])
  }

  /** One character of the input, escaped. */
  function EscapeChar(c: char): (r: string)
    ensures IsAllowed(c) ==> r == [c]
    ensures !IsAllowed(c) ==> 3 <= |r| && r[0] == '%'
  {
    if IsAllowed(c) then [c] else PercentBytes(Utf8(c))
  }

  /**
    `escape(string)`, the branch taken on every current system: one call of
    `addingPercentEncoding(withAllowedCharacters:)`, which never fails on a well-formed
    string, so the `?? string` fallback is never used.
   */
  function Escape(s: string): (r: string)
    ensures |r| >= |s|
  {
    if s == [] then [] else EscapeChar(s[0]) + Escape(s[1..])
  }

  /** The `%XX` form of bytes is written with percent signs and hexadecimal digits only. */
  lemma {:induction false} PercentBytesEscaped(bs: seq<Byte>)
    ensures Escaped(PercentBytes(bs))
  {
    if bs != [] {
      PercentBytesEscaped(bs[1..]);
      EscapedAppend(PercentByte(bs[0]), PercentBytes(bs[1..]));
    }
  }

  lemma EscapeCharEscaped(c: char)
    ensures Escaped(EscapeChar(c))
  {
    if !IsAllowed(c) {
      PercentBytesEscaped(Utf8(c));
    }
  }

  /** Whatever the input, the output of `escape` is made of allowed characters and percent signs. */
  lemma {:induction false} EscapeEscaped(s: string)
    ensures Escaped(Escape(s))
  {
    if s != [] {
      EscapeCharEscaped(s[0]);
      EscapeEscaped(s[1..]);
      EscapedAppend(EscapeChar(s[0]), Escape(s[1..]));
    }
  }

  /** None of the reserved characters `:#[]@!$&'()*+,;=` survives `escape` literally. */
  lemma EscapeOmitsReserved(s: string, c: char)
    requires IsReservedToEncode(c)
    ensures forall j :: 0 <= j < |Escape(s)| ==> Escape(s)[j] != c
  {
    EscapeEscaped(s);
  }

  /** `escape` keeps the length of a string exactly when every character is allowed. */
  lemma {:induction false} EscapeLength(s: string)
    ensures |Escape(s)| == |s| <==> AllAllowed(s)
  {
    if s != [] {
      EscapeLength(s[1..]);
      assert AllAllowed(s) <==> IsAllowed(s[0]) && AllAllowed(s[1..]) by {
        assert forall i :: 1 <= i < |s| ==> s[i] == s[1..][i - 1];
      }
    }
  }

  /** `x + (y + z)` and `(x + y) + z` name the same string. */
  lemma ConcatAssociative(x: string, y: string, z: string)
    ensures x + (y + z) == (x + y) + z
  {
  }

  /** The unfolding of `Escape` at its first character, kept apart from the goals that use it. */
  lemma EscapeCons(s: string)
    requires s != []
    ensures Escape(s) == EscapeChar(s[0]) + Escape(s[1..])
  {
  }

  /** Escaping works character by character, so it distributes over concatenation. */
  lemma {:induction false} EscapeAppend(a: string, b: string)
    ensures Escape(a + b) == Escape(a) + Escape(b)
  {
    if a == [] {
      assert a + b == b;
    } else {
      var head := EscapeChar(a[0]);
      assert (a + b)[0] == a[0] && (a + b)[1..] == a[1..] + b;
      EscapeCons(a + b);
      EscapeCons(a);
      EscapeAppend(a[1..], b);
      ConcatAssociative(head, Escape(a[1..]), Escape(b));
    }
  }

  /** A string is left unchanged exactly when it is made only of allowed characters. */
  lemma {:induction false} EscapeIdentity(s: string)
    ensures Escape(s) == s <==> AllAllowed(s)
  {
    EscapeLength(s);
    if AllAllowed(s) && s != [] {
      assert AllAllowed(s[1..]) by {
        assert forall i :: 0 <= i < |s| - 1 ==> s[1..][i] == s[i + 1];
      }
      EscapeIdentity(s[1..]);
      assert s == [s[0]] + s[1..];
    }
  }

  /** An allowed character passes through `escape` unchanged wherever it stands. */
  lemma EscapeKeepsAllowed(a: string, c: char, b: string)
    requires IsAllowed(c)
    ensures Escape(a + [c] + b) == Escape(a) + [c] + Escape(b)
  {
    EscapeAppend(a + [c], b);
    EscapeAppend(a, [c]);
    EscapeIdentity([c]);
  }

  /** Escaping a prefix batch by batch: the next batch's escape extends the escaped prefix. */
  lemma EscapeBatch(s: string, index: nat, endIndex: nat)
    requires index <= endIndex <= |s|
    ensures Escape(s[..endIndex]) == Escape(s[..index]) + Escape(s[index..endIndex])
  {
    assert s[..index] + s[index..endIndex] == s[..endIndex];
    EscapeAppend(s[..index], s[index..endIndex]);
  }

  /** The number of characters in one batch of the fallback branch. */
  const BatchSize: nat := 50

  /**
    The fallback branch of `escape` for old systems: the string is cut into batches and each
    batch is escaped on its own. Swift counts a batch in `Character`s (grapheme clusters);
    here a batch is `BatchSize` Unicode scalars. The result does not depend on where the cuts
    fall, since `EscapeAppend` holds for every cut point, so both give the same string as
    escaping the whole string.
   */
  method EscapeInBatches(s: string) returns (escaped: string)
    ensures escaped == Escape(s)
  {
    escaped := "";
    var index := 0;
    while index != |s|
      invariant 0 <= index <= |s|
      invariant escaped == Escape(s[..index])
      decreases |s| - index
    {
      var endIndex := if index + BatchSize <= |s| then index + BatchSize else |s|;
      var substring := s[index..endIndex];
      EscapeBatch(s, index, endIndex);
      escaped := escaped + Escape(substring);
      index := endIndex;
    }
    assert s[..index] == s;
  }

  // ---------------------------------------------------------------------------------------
  // Percent-decoding, the left inverse of `Escape`.

  /** The value of a hexadecimal digit of either case, or -1. */
  function HexValue(c: char): int {
    if '0' <= c <= '9' then c as int - '0' as int
    else if 'A' <= c <= 'F' then c as int - 'A' as int + 10
    else if 'a' <= c <= 'f' then c as int - 'a' as int + 10
    else -1
  }

  lemma HexValueOfDigit(d: int)
    requires 0 <= d < 16
    ensures HexValue(HexDigit(d)) == d
  {
  }

  /** The byte written `%XX` at position `i` of `t`, if there is one. */
  function PercentByteAt(t: string, i: nat): Option<Byte> {
    if i + 3 <= |t| && t[i] == '%' && HexValue(t[i + 1]) >= 0 && HexValue(t[i + 2]) >= 0
    then Some(HexValue(t[i + 1]) * 16 + HexValue(t[i + 2]))
    else None
  }

  /** The six payload bits of a UTF-8 continuation byte written at position `i`, if there is one. */
  function ContinuationAt(t: string, i: nat): Option<int> {
    match PercentByteAt(t, i)
    case Some(b) => if 0x80 <= b < 0xC0 then Some(b - 0x80) else None
    case None => None
  }

  predicate IsUnicodeScalar(n: int) {
    (0 <= n < 0xD800) || (0xE000 <= n < 0x11_0000)
  }

  function ScalarOf(n: int, width: nat): Option<(char, nat)> {
    if IsUnicodeScalar(n) then Some((n as char, width)) else None
  }

  /**
    The character whose UTF-8 bytes are written `%XX%XX...` at the start of `t`, and the
    number of characters of `t` that they take up.
   */
  function DecodePercentChar(t: string): (r: Option<(char, nat)>)
    ensures r.Some? ==> 3 <= r.value.1 <= |t|
  {
    match PercentByteAt(t, 0)
    case None => None
    case Some(lead) =>
      if lead < 0x80 then
        Some((lead as char, 3))
      else if 0xC0 <= lead < 0xE0 then
        match ContinuationAt(t, 3)
        case Some(c1) => ScalarOf((lead - 0xC0) * 0x40 + c1, 6)
        case None => None
      else if 0xE0 <= lead < 0xF0 then
        match (ContinuationAt(t, 3), ContinuationAt(t, 6))
        case (Some(c1), Some(c2)) => ScalarOf(((lead - 0xE0) * 0x40 + c1) * 0x40 + c2, 9)
        case _ => None
      else if 0xF0 <= lead < 0xF8 then
        match (ContinuationAt(t, 3), ContinuationAt(t, 6), ContinuationAt(t, 9))
        case (Some(c1), Some(c2), Some(c3)) =>
          ScalarOf((((lead - 0xF0) * 0x40 + c1) * 0x40 + c2) * 0x40 + c3, 12)
        case _ => None
      else None
  }

  /** Replaces every well-formed `%XX` sequence by the character it encodes; anything else is kept. */
  function Unescape(t: string): string
    decreases |t|
  {
    if t == [] then []
    else
      match DecodePercentChar(t)
      case Some((c, width)) => [c] + Unescape(t[width..])
      case None => [t[0]] + Unescape(t[1..])
  }

  lemma PercentByteDecodes(b: Byte, rest: string)
    ensures PercentByteAt(PercentByte(b) + rest, 0) == Some(b)
  {
    var t := PercentByte(b) + rest;
    assert t[1] == HexDigit(b / 16) && t[2] == HexDigit(b % 16);
    HexValueOfDigit(b / 16);
    HexValueOfDigit(b % 16);
  }

  /** What stands after a prefix `x` is read the same as on its own. */
  lemma PercentByteAtShift(x: string, t: string, i: nat)
    ensures PercentByteAt(x + t, |x| + i) == PercentByteAt(t, i)
  {
    if i + 3 <= |t| {
      assert (x + t)[|x| + i] == t[i];
      assert (x + t)[|x| + i + 1] == t[i + 1];
      assert (x + t)[|x| + i + 2] == t[i + 2];
    }
  }

  lemma PercentBytesCons(bs: seq<Byte>, rest: string)
    requires bs != []
    ensures PercentBytes(bs) + rest == PercentByte(bs[0]) + (PercentBytes(bs[1..]) + rest)
  {
  }

  /** The `i`-th byte of a `%XX%XX...` sequence is read back at position `3 * i`. */
  lemma {:induction false} PercentBytesAt(bs: seq<Byte>, rest: string, i: nat)
    requires i < |bs|
    ensures PercentByteAt(PercentBytes(bs) + rest, 3 * i) == Some(bs[i])
  {
    var tail := PercentBytes(bs[1..]) + rest;
    PercentBytesCons(bs, rest);
    if i == 0 {
      PercentByteDecodes(bs[0], tail);
    } else {
      PercentBytesAt(bs[1..], rest, i - 1);
      PercentByteAtShift(PercentByte(bs[0]), tail, 3 * (i - 1));
    }
  }

  /** A continuation byte written at position `i` yields its six payload bits. */
  lemma ContinuationOf(t: string, i: nat, b: Byte)
    requires PercentByteAt(t, i) == Some(b) && 0x80 <= b < 0xC0
    ensures ContinuationAt(t, i) == Some(b - 0x80)
  {
  }

  /** How `DecodePercentChar` reads a two-byte sequence. */
  lemma DecodeTwo(t: string, lead: Byte, c1: int)
    requires PercentByteAt(t, 0) == Some(lead) && 0xC0 <= lead < 0xE0
    requires ContinuationAt(t, 3) == Some(c1)
    ensures DecodePercentChar(t) == ScalarOf((lead - 0xC0) * 0x40 + c1, 6)
  {
  }

  /** How `DecodePercentChar` reads a three-byte sequence. */
  lemma DecodeThree(t: string, lead: Byte, c1: int, c2: int)
    requires PercentByteAt(t, 0) == Some(lead) && 0xE0 <= lead < 0xF0
    requires ContinuationAt(t, 3) == Some(c1) && ContinuationAt(t, 6) == Some(c2)
    ensures DecodePercentChar(t) == ScalarOf(((lead - 0xE0) * 0x40 + c1) * 0x40 + c2, 9)
  {
  }

  /** How `DecodePercentChar` reads a four-byte sequence. */
  lemma DecodeFour(t: string, lead: Byte, c1: int, c2: int, c3: int)
    requires PercentByteAt(t, 0) == Some(lead) && 0xF0 <= lead < 0xF8
    requires ContinuationAt(t, 3) == Some(c1) && ContinuationAt(t, 6) == Some(c2)
    requires ContinuationAt(t, 9) == Some(c3)
    ensures DecodePercentChar(t) == ScalarOf((((lead - 0xF0) * 0x40 + c1) * 0x40 + c2) * 0x40 + c3, 12)
  {
  }

  /** Reassembling the six-bit groups of a code point gives the code point back. */
  lemma SixBitGroups(n: nat)
    ensures n == (n / 0x40) * 0x40 + n % 0x40
    ensures n / 0x1000 == n / 0x40 / 0x40
    ensures n / 0x4_0000 == n / 0x1000 / 0x40
  {
  }

  /** A code point is read back as the character it numbers. */
  lemma ScalarOfChar(c: char, width: nat)
    ensures ScalarOf(c as int, width) == Some((c, width))
  {
  }

  lemma Utf8DecodesTwo(c: char, rest: string)
    requires 0x80 <= c as int < 0x800
    ensures DecodePercentChar(PercentBytes(Utf8(c)) + rest) == Some((c, 6))
  {
    var bs, n := Utf8(c), c as int;
    var t := PercentBytes(bs) + rest;
    assert bs == [0xC0 + n / 0x40, 0x80 + n % 0x40];
    PercentBytesAt(bs, rest, 0);
    PercentBytesAt(bs, rest, 1);
    ContinuationOf(t, 3, bs[1]);
    DecodeTwo(t, bs[0], n % 0x40);
    SixBitGroups(n);
    ScalarOfChar(c, 6);
  }

  lemma Utf8DecodesThree(c: char, rest: string)
    requires 0x800 <= c as int < 0x1_0000
    ensures DecodePercentChar(PercentBytes(Utf8(c)) + rest) == Some((c, 9))
  {
    var bs, n := Utf8(c), c as int;
    var t := PercentBytes(bs) + rest;
    assert bs == [0xE0 + n / 0x1000, 0x80 + n / 0x40 % 0x40, 0x80 + n % 0x40];
    PercentBytesAt(bs, rest, 0);
    PercentBytesAt(bs, rest, 1);
    PercentBytesAt(bs, rest, 2);
    ContinuationOf(t, 3, bs[1]);
    ContinuationOf(t, 6, bs[2]);
    DecodeThree(t, bs[0], n / 0x40 % 0x40, n % 0x40);
    SixBitGroups(n);
    SixBitGroups(n / 0x40);
    ScalarOfChar(c, 9);
  }

  lemma Utf8DecodesFour(c: char, rest: string)
    requires 0x1_0000 <= c as int
    ensures DecodePercentChar(PercentBytes(Utf8(c)) + rest) == Some((c, 12))
  {
    var bs, n := Utf8(c), c as int;
    var t := PercentBytes(bs) + rest;
    assert bs == [0xF0 + n / 0x4_0000, 0x80 + n / 0x1000 % 0x40, 0x80 + n / 0x40 % 0x40, 0x80 + n % 0x40];
    PercentBytesAt(bs, rest, 0);
    PercentBytesAt(bs, rest, 1);
    PercentBytesAt(bs, rest, 2);
    PercentBytesAt(bs, rest, 3);
    ContinuationOf(t, 3, bs[1]);
    ContinuationOf(t, 6, bs[2]);
    ContinuationOf(t, 9, bs[3]);
    DecodeFour(t, bs[0], n / 0x1000 % 0x40, n / 0x40 % 0x40, n % 0x40);
    SixBitGroups(n);
    SixBitGroups(n / 0x40);
    SixBitGroups(n / 0x1000);
    ScalarOfChar(c, 12);
  }

  /** The `%XX` form of a disallowed character is read back as that character. */
  lemma Utf8Decodes(c: char, rest: string)
    requires !IsAllowed(c)
    ensures DecodePercentChar(PercentBytes(Utf8(c)) + rest) == Some((c, 3 * |Utf8(c)|))
  {
    var n := c as int;
    if n < 0x80 {
      PercentBytesAt(Utf8(c), rest, 0);
    } else if n < 0x800 {
      Utf8DecodesTwo(c, rest);
    } else if n < 0x1_0000 {
      Utf8DecodesThree(c, rest);
    } else {
      Utf8DecodesFour(c, rest);
    }
  }

  lemma UnescapeEscapeChar(c: char, rest: string)
    ensures Unescape(EscapeChar(c) + rest) == [c] + Unescape(rest)
  {
    var t := EscapeChar(c) + rest;
    if IsAllowed(c) {
      assert t[0] == c && c != '%' && t[1..] == rest;
    } else {
      Utf8Decodes(c, rest);
      assert t[3 * |Utf8(c)|..] == rest;
    }
  }

  /** Percent-decoding undoes `escape`. */
  lemma {:induction false} UnescapeEscape(s: string)
    ensures Unescape(Escape(s)) == s
  {
    if s != [] {
      calc {
        Unescape(Escape(s));
        { assert Escape(s) == EscapeChar(s[0]) + Escape(s[1..]); }
        Unescape(EscapeChar(s[0]) + Escape(s[1..]));
        { UnescapeEscapeChar(s[0], Escape(s[1..])); }
        [s[0]] + Unescape(Escape(s[1..]));
        { UnescapeEscape(s[1..]); }
        [s[0]] + s[1..];
      }
    }
  }

  /** Distinct keys or values stay distinct once escaped. */
  lemma EscapeInjective(a: string, b: string)
    requires Escape(a) == Escape(b)
    ensures a == b
  {
    UnescapeEscape(a);
    UnescapeEscape(b);
  }
}
