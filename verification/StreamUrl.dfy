/** The address under which a file is offered for streaming, and how the server reads it back. */
module StreamUrl {
  import opened Basics
  import opened Text
  import B = Base64

  type Params = map<string, string>

  // ---------------------------------------------------------------------------------------
  // Building

  function EncodeBase64Url(text: string): string { B.Encode(BytesOf(text), B.URL_SAFE) }

  function Query(mailbox: string, path: string): string {
    "imapdir=" + mailbox + ("&localpath=" + path)
  }

  function BuildHttpStreamUrl(address: string, mailbox: string, path: string): string {
    TrimRight(address, {'/'}) + ("/httptoimap?" + Query(EncodeBase64Url(mailbox), EncodeBase64Url(path)))
  }

  // ---------------------------------------------------------------------------------------
  // Reading

  /** An escape needs two hexadecimal digits; anything else is passed on. */
  function PercentUnit(text: string): (c: char)
    requires text != []
  {
    if IsEscape(text) then CharOf(HexValue(text[1]) * 16 + HexValue(text[2])) else text[0]
  }

  predicate IsEscape(text: string)
    requires text != []
  {
    text[0] == '%' && |text| > 2 && HexValue(text[1]) >= 0 && HexValue(text[2]) >= 0
  }

  function PercentDecode(text: string): string {
    if text == [] then [] else [PercentUnit(text)] + PercentDecode(text[if IsEscape(text) then 3 else 1..])
  }

  method DecodePercent(text: string) returns (decoded: string)
    ensures decoded == PercentDecode(text)
  {
    hide HexValue;
    decoded := [];
    var i := 0;
    assert text[0..] == text;
    while i < |text|
      invariant 0 <= i <= |text|
      invariant decoded + PercentDecode(text[i..]) == PercentDecode(text)
    {
      ghost var rest := text[i..];
      PercentNext(rest, decoded);
      hide PercentDecode;
      if text[i] == '%' && i + 2 < |text| {
        var high, low := HexValue(text[i + 1]), HexValue(text[i + 2]);
        if high >= 0 && low >= 0 {
          decoded := decoded + [CharOf(high * 16 + low)];
          assert rest[3..] == text[i + 3..];
          i := i + 3;
          continue;
        }
      }
      decoded := decoded + [text[i]];
      assert rest[1..] == text[i + 1..];
      i := i + 1;
    }
    assert text[|text|..] == [];
  }

  lemma PercentNext(text: string, out: string)
    requires text != []
    ensures out + PercentDecode(text) == out + [PercentUnit(text)] + PercentDecode(text[if IsEscape(text) then 3 else 1..])
  {
    hide PercentUnit, IsEscape;
  }

  lemma {:induction false} PercentPlain(text: string)
    requires '%' !in text
    ensures PercentDecode(text) == text
  {
    if text != [] {
      PercentPlain(text[1..]);
      assert text == [text[0]] + text[1..];
    }
  }

  /** The character itself, or an escape with its two hexadecimal digits in either case. */
  predicate EscapeOf(unit: string, c: char) {
    || (c != '%' && unit == [c])
    || (c as int < 256 && |unit| == 3 && unit[0] == '%' && IsHexOf(unit[1], c as int / 16) && IsHexOf(unit[2], c as int % 16))
  }

  function Joined(units: seq<string>): string { if units == [] then [] else units[0] + Joined(units[1..]) }

  /** The text with any of its characters escaped, every percent sign among them. */
  ghost predicate Escapes(units: seq<string>, text: string) {
    |units| == |text| && forall i :: 0 <= i < |text| ==> EscapeOf(units[i], text[i])
  }

  lemma EscapeReads(unit: string, c: char, rest: string)
    requires EscapeOf(unit, c)
    ensures PercentDecode(unit + rest) == [c] + PercentDecode(rest)
  {
    var text := unit + rest;
    if c as int < 256 {
      HexTables(c as int / 16);
      HexTables(c as int % 16);
    }
    assert text[|unit|..] == rest;
    hide HexValue;
  }

  /** Decoding undoes escaping, whichever characters are escaped. */
  lemma {:induction false} EscapingUndone(units: seq<string>, text: string)
    requires Escapes(units, text)
    ensures PercentDecode(Joined(units)) == text
  {
    hide EscapeOf, PercentDecode;
    if units != [] {
      EscapingUndone(units[1..], text[1..]);
      EscapeReads(units[0], text[0], Joined(units[1..]));
      assert text == [text[0]] + text[1..];
    } else {
      assert text == [];
      assert PercentDecode([]) == [] by { PercentPlain([]); }
    }
  }

  /** Escaping brings in percent signs and digits only. */
  lemma {:induction false} EscapedChars(units: seq<string>, text: string, c: char)
    requires Escapes(units, text) && c !in text && c != '%' && c !in UPPER_HEX && c !in LOWER_HEX
    ensures c !in Joined(units)
  {
    if units != [] {
      EscapedChars(units[1..], text[1..], c);
      assert EscapeOf(units[0], text[0]);
    }
  }

  /** A text without percent signs may stay as it is. */
  lemma {:induction false} Unescaped(text: string) returns (units: seq<string>)
    requires '%' !in text
    ensures Escapes(units, text) && Joined(units) == text
  {
    units := [];
    if text != [] {
      var rest := Unescaped(text[1..]);
      units := [[text[0]]] + rest;
      assert units[1..] == rest && text == [text[0]] + text[1..];
    }
  }

  function FirstPair(query: string): string {
    var amp := Find(query, ['&'], 0);
    if amp.None? then query else query[..amp.value]
  }

  function OtherPairs(query: string): (rest: string)
    ensures query != [] ==> |rest| < |query|
  {
    var amp := Find(query, ['&'], 0);
    if amp.None? then [] else query[amp.value + 1..]
  }

  function KeyOf(pair: string): string {
    var equal := Find(pair, ['='], 0);
    PercentDecode(if equal.None? then pair else pair[..equal.value])
  }

  function ValueOf(pair: string): string {
    var equal := Find(pair, ['='], 0);
    if equal.None? then [] else PercentDecode(pair[equal.value + 1..])
  }

  /** The first value of a key counts. */
  function Added(params: Params, key: string, value: string): Params {
    if key in params then params else params[key := value]
  }

  function ParseQuery(params: Params, query: string): Params
    decreases |query|
  {
    if query == [] then params
    else ParseQuery(Added(params, KeyOf(FirstPair(query)), ValueOf(FirstPair(query))), OtherPairs(query))
  }

  method ParseQueryString(query: string) returns (values: Params)
    ensures values == ParseQuery(map[], query)
  {
    values := map[];
    var rest := query;
    while rest != []
      invariant ParseQuery(values, rest) == ParseQuery(map[], query)
      decreases |rest|
    {
      QueryNext(values, rest);
      hide ParseQuery, Find, PercentDecode;
      var amp := Find(rest, ['&'], 0);
      var pair := if amp.None? then rest else rest[..amp.value];
      var equal := Find(pair, ['='], 0);
      var key := DecodePercent(if equal.None? then pair else pair[..equal.value]);
      var value := [];
      if equal.Some? {
        value := DecodePercent(pair[equal.value + 1..]);
      }
      if key !in values {
        values := values[key := value];
      }
      rest := if amp.None? then [] else rest[amp.value + 1..];
    }
  }

  lemma QueryNext(params: Params, query: string)
    requires query != []
    ensures ParseQuery(params, query) ==
            ParseQuery(Added(params, KeyOf(FirstPair(query)), ValueOf(FirstPair(query))), OtherPairs(query))
  {
    hide Added, KeyOf, ValueOf, FirstPair, OtherPairs;
  }

  /** A value stays, whatever the rest of the query says of its key. */
  lemma {:induction false} FirstValueCounts(params: Params, query: string, key: string)
    requires key in params
    ensures var r := ParseQuery(params, query); key in r && r[key] == params[key]
    decreases |query|
  {
    hide FirstPair, OtherPairs, KeyOf, ValueOf;
    if query != [] {
      FirstValueCounts(Added(params, KeyOf(FirstPair(query)), ValueOf(FirstPair(query))), OtherPairs(query), key);
    }
  }

  function Padded(text: string): (r: string)
    ensures |r| % 4 == 0
    decreases (4 - |text| % 4) % 4
  {
    if |text| % 4 == 0 then text else Padded(text + [B.PAD])
  }

  /** Standard base64 with missing padding supplied; `None` when decoding raises. */
  function DecodeCompact(text: string): Option<string> {
    var bytes := B.DecodeQuads(Padded(text), B.STANDARD, B.LastTwo);
    if bytes.None? then None else Some(TextOf(bytes.value))
  }

  method DecodeBase64Compact(text: string) returns (r: Option<string>)
    ensures r == DecodeCompact(text)
  {
    hide B.DecodeQuads;
    var padded := text;
    while |padded| % 4 != 0
      invariant Padded(padded) == Padded(text)
      decreases (4 - |padded| % 4) % 4
    {
      padded := padded + [B.PAD];
    }
    var bytes := B.DecodeGroups(padded, B.STANDARD, B.LastTwo);
    r := if bytes.None? then None else Some(TextOf(bytes.value));
  }

  function StandardChar(c: char): char { if c == '-' then '+' else if c == '_' then '/' else c }

  function Standardized(text: string): (r: string)
    ensures |r| == |text|
  {
    seq(|text|, i requires 0 <= i < |text| => StandardChar(text[i]))
  }

  /** The standard alphabet first, then the one for addresses. */
  method DecodeBase64Param(value: string) returns (r: Option<string>)
    ensures r == DecodeParam(value)
  {
    hide DecodeCompact, Standardized;
    r := DecodeBase64Compact(value);
    if r.None? {
      r := DecodeBase64Compact(Standardized(value));
    }
    Alphabets(value);
  }

  /** Which alphabet comes first makes no difference: what the standard one accepts has no character
      of the other. */
  function DecodeParam(value: string): Option<string> { DecodeCompact(Standardized(value)) }

  lemma {:induction false} AcceptedChars(text: string, i: nat)
    requires |text| % 4 == 0 && i < |text| && B.DecodeQuads(text, B.STANDARD, B.LastTwo).Some?
    ensures text[i] != '-' && text[i] != '_'
  {
    var q := text[..4];
    if i < 4 {
      assert text[i] == q[i] && B.DecodeQuad(q, B.STANDARD, B.LastTwo).Some?;
      assert B.PlaceValue(q[i], B.STANDARD, B.LastTwo, i) >= 0;
      hide B.DecodeQuads;
    } else {
      assert text[i] == text[4..][i - 4];
      AcceptedChars(text[4..], i - 4);
    }
  }

  lemma {:induction false} PaddedPrefix(text: string)
    ensures text <= Padded(text)
    decreases (4 - |text| % 4) % 4
  {
    if |text| % 4 != 0 {
      PaddedPrefix(text + [B.PAD]);
    }
  }

  lemma Alphabets(value: string)
    ensures DecodeCompact(value).Some? ==> Standardized(value) == value
  {
    PaddedPrefix(value);
    hide B.DecodeQuads;
    if DecodeCompact(value).Some? {
      forall i | 0 <= i < |value|
        ensures Standardized(value)[i] == value[i]
      {
        AcceptedChars(Padded(value), i);
      }
    }
  }

  datatype Answer = NotFound | BadRequest | Lookup(mailbox: string, path: string)

  function NonEmpty(params: Params, key: string): bool { key in params && params[key] != [] }

  /** What the server makes of the target of a request. */
  function ReadTarget(target: string): Answer {
    var mark := Find(target, ['?'], 0);
    if (if mark.None? then target else target[..mark.value]) != "/httptoimap" then NotFound
    else ReadParams(ParseQuery(map[], if mark.None? then [] else target[mark.value + 1..]))
  }

  function ReadParams(params: Params): Answer {
    if !NonEmpty(params, "imapdir") || !NonEmpty(params, "localpath") then BadRequest
    else
      var mailbox, path := DecodeParam(params["imapdir"]), DecodeParam(params["localpath"]);
      if mailbox.None? || path.None? then BadRequest else Lookup(mailbox.value, path.value)
  }

  // ---------------------------------------------------------------------------------------
  // Round trip

  /** The text, with some or all of its padding stripped. */
  ghost predicate StrippedOf(value: string, text: string) { exists k :: StrippedBy(value, text, k) }

  ghost predicate StrippedBy(value: string, text: string, k: int) {
    && 0 <= k <= 2 && k <= |text| && value == text[..|text| - k]
    && forall i :: |text| - k <= i < |text| ==> text[i] == B.PAD
  }

  lemma PaddingBack(value: string, text: string)
    requires StrippedOf(value, text) && |text| % 4 == 0
    ensures Padded(value) == text
  {
    var k :| StrippedBy(value, text, k);
    if k == 0 {
      assert value == text;
    } else if k == 1 {
      assert value + [B.PAD] == text;
    } else {
      var more := value + [B.PAD];
      assert more + [B.PAD] == text;
      assert |value| % 4 == 2 && |more| % 4 == 3;
      assert Padded(value) == Padded(more) == Padded(text);
    }
  }

  lemma StandardDigit(d: nat)
    requires d < 64
    ensures StandardChar(B.DigitChar(d, B.URL_SAFE)) == B.DigitChar(d, B.STANDARD) && StandardChar(B.PAD) == B.PAD
  {
  }

  /** Only the alphabet tells the two encodings apart. */
  lemma {:induction false} StandardizedEncoding(bytes: seq<byte>)
    ensures Standardized(B.Encode(bytes, B.URL_SAFE)) == B.Encode(bytes, B.STANDARD)
  {
    if bytes != [] {
      var rest := bytes[Min(3, |bytes|)..];
      StandardizedEncoding(rest);
      StandardizedQuad(bytes);
      hide B.Quad, StandardChar;
      var quad, tail := B.Quad(bytes, B.URL_SAFE), B.Encode(rest, B.URL_SAFE);
      StandardizedJoin(quad, tail);
    }
  }

  lemma StandardizedJoin(a: string, b: string)
    ensures Standardized(a + b) == Standardized(a) + Standardized(b)
  {
    hide StandardChar;
  }

  lemma StandardizedQuad(bytes: seq<byte>)
    requires bytes != []
    ensures Standardized(B.Quad(bytes, B.URL_SAFE)) == B.Quad(bytes, B.STANDARD)
  {
    hide B.DigitChar, StandardChar;
    var digits := B.Quad(bytes, B.STANDARD);
    forall d: nat | d < 64
      ensures StandardChar(B.DigitChar(d, B.URL_SAFE)) == B.DigitChar(d, B.STANDARD)
    {
      StandardDigit(d);
    }
    StandardDigit(0);
  }

  lemma StrippedStandard(value: string, text: string)
    requires StrippedOf(value, text)
    ensures StrippedOf(Standardized(value), Standardized(text))
  {
    StandardDigit(0);
    hide StandardChar;
    var k :| StrippedBy(value, text, k);
    assert StrippedBy(Standardized(value), Standardized(text), k);
  }

  /** A parameter reads back with its padding or without. */
  lemma ParamRoundTrip(value: string, text: string)
    requires IsBytes(text) && StrippedOf(value, EncodeBase64Url(text))
    ensures DecodeParam(value) == Some(text)
  {
    hide B.Encode, B.DecodeQuads, Standardized, StrippedOf, Padded;
    StrippedStandard(value, EncodeBase64Url(text));
    StandardizedEncoding(BytesOf(text));
    PaddingBack(Standardized(value), B.Encode(BytesOf(text), B.STANDARD));
    B.QuadsRoundTrip(BytesOf(text), B.STANDARD, B.LastTwo);
    TextOfBytes(text);
  }

  /** Characters that an encoded parameter consists of. */
  ghost predicate ParamChars(value: string) { '&' !in value && '%' !in value && '?' !in value }

  lemma DigitIsParamChar(d: nat)
    requires d < 64
    ensures B.DigitChar(d, B.URL_SAFE) !in {'&', '%', '?'}
  {
  }

  lemma EncodedParamChars(value: string, text: string)
    requires StrippedOf(value, EncodeBase64Url(text))
    ensures ParamChars(value)
  {
    var all := EncodeBase64Url(text);
    B.EncodedChars(BytesOf(text), B.URL_SAFE);
    hide B.Encode, B.DigitChar;
    forall i | 0 <= i < |value|
      ensures value[i] !in {'&', '%', '?'}
    {
      assert value[i] == all[i];
      if all[i] != B.PAD {
        var d: nat :| d < 64 && all[i] == B.DigitChar(d, B.URL_SAFE);
        DigitIsParamChar(d);
      }
    }
  }

  lemma PairReads(key: string, value: string)
    requires '=' !in key && '%' !in key
    ensures KeyOf(key + ['='] + value) == key && ValueOf(key + ['='] + value) == PercentDecode(value)
  {
    hide PercentDecode, Find;
    var pair := key + ['='] + value;
    FindChar(key, '=', value);
    assert pair[..|key|] == key && pair[|key| + 1..] == value;
    PercentPlain(key);
  }

  lemma KeysPlain()
    ensures '=' !in "imapdir" && '%' !in "imapdir" && '&' !in "imapdir"
    ensures '=' !in "localpath" && '%' !in "localpath" && '&' !in "localpath"
    ensures "imapdir" != "localpath"
  {
    assert |"imapdir"| != |"localpath"|;
  }

  lemma QueryShape(a: string, b: string)
    ensures Query(a, b) == ("imapdir" + ['='] + a) + ['&'] + ("localpath" + ['='] + b)
  {
    assert "imapdir=" == "imapdir" + ['='];
    assert "&localpath=" == ['&'] + ("localpath" + ['=']);
  }

  lemma QueryReads(a: string, b: string)
    requires '&' !in a && '&' !in b
    ensures var params := ParseQuery(map[], Query(a, b));
            && "imapdir" in params && params["imapdir"] == PercentDecode(a)
            && "localpath" in params && params["localpath"] == PercentDecode(b)
  {
    hide Find, KeyOf, ValueOf, PercentDecode;
    KeysPlain();
    var first, second := "imapdir" + ['='] + a, "localpath" + ['='] + b;
    QueryShape(a, b);
    NoAmpersand("imapdir", a);
    NoAmpersand("localpath", b);
    FindChar(first, '&', second);
    FindNoChar(second, '&');
    var query := Query(a, b);
    assert FirstPair(query) == first && OtherPairs(query) == second;
    assert FirstPair(second) == second && OtherPairs(second) == [];
    PairReads("imapdir", a);
    PairReads("localpath", b);
    QueryNext(map[], query);
    QueryNext(map["imapdir" := PercentDecode(a)], second);
  }

  lemma NoAmpersand(key: string, value: string)
    requires '&' !in key && '&' !in value
    ensures '&' !in key + ['='] + value
  {
  }

  lemma TargetSplits(query: string)
    ensures ReadTarget("/httptoimap?" + query) == ReadParams(ParseQuery(map[], query))
  {
    hide ReadParams, ParseQuery, Find;
    var path, target := "/httptoimap", "/httptoimap?" + query;
    assert '?' !in path;
    assert target == path + ['?'] + query;
    FindChar(path, '?', query);
    assert target[..|path|] == path && target[|path| + 1..] == query;
  }

  lemma EmptyParam(value: string, text: string)
    requires StrippedOf(value, EncodeBase64Url(text))
    ensures value == [] <==> text == []
  {
    hide B.Quad;
  }

  lemma AddressShape(a: string, b: string)
    ensures "/httptoimap?imapdir=" + a + "&localpath=" + b == "/httptoimap?" + Query(a, b)
  {
    assert "/httptoimap?imapdir=" == "/httptoimap?" + "imapdir=";
  }

  /** The server reads from the address exactly the mailbox and the path it was built from, with the
      padding or without it and whatever a client escaped; it refuses the address when either is empty. */
  lemma AddressRoundTrip(mailbox: string, path: string, a: string, b: string, escapedA: seq<string>, escapedB: seq<string>)
    requires IsBytes(mailbox) && IsBytes(path)
    requires StrippedOf(a, EncodeBase64Url(mailbox)) && StrippedOf(b, EncodeBase64Url(path))
    requires Escapes(escapedA, a) && Escapes(escapedB, b)
    ensures ReadTarget("/httptoimap?imapdir=" + Joined(escapedA) + "&localpath=" + Joined(escapedB)) ==
            if mailbox == [] || path == [] then BadRequest else Lookup(mailbox, path)
  {
    hide ReadTarget, ParseQuery, StrippedOf, DecodeParam, Query, EncodeBase64Url, IsBytes, Escapes, PercentDecode, Joined;
    AddressShape(Joined(escapedA), Joined(escapedB));
    TargetSplits(Query(Joined(escapedA), Joined(escapedB)));
    EncodedParamChars(a, mailbox);
    EncodedParamChars(b, path);
    EscapedChars(escapedA, a, '&');
    EscapedChars(escapedB, b, '&');
    EscapingUndone(escapedA, a);
    EscapingUndone(escapedB, b);
    QueryReads(Joined(escapedA), Joined(escapedB));
    EmptyParam(a, mailbox);
    EmptyParam(b, path);
    ParamRoundTrip(a, mailbox);
    ParamRoundTrip(b, path);
  }

  lemma ParamsFound(params: Params)
    ensures ReadParams(params) != NotFound
  {
    hide DecodeParam;
  }

  /** Only one path is served. */
  lemma OtherTargets(path: string, query: string)
    requires '?' !in path
    ensures ReadTarget(path + "?" + query) == NotFound <==> path != "/httptoimap"
    ensures ReadTarget(path) == NotFound <==> path != "/httptoimap"
  {
    hide ReadParams, ParseQuery, Find;
    var target := path + "?" + query;
    assert target == path + ['?'] + query;
    FindChar(path, '?', query);
    FindNoChar(path, '?');
    assert target[..|path|] == path;
    ParamsFound(ParseQuery(map[], target[|path| + 1..]));
    ParamsFound(ParseQuery(map[], []));
  }

  predicate ParamDigit(c: char) { c in B.DigitsOf(B.STANDARD) || c == '-' || c == '_' || c == '=' }

  lemma DecodedParam(value: string, i: nat)
    requires DecodeParam(value).Some? && i < |value|
    ensures ParamDigit(value[i])
  {
    var text := Standardized(value);
    PaddedPrefix(text);
    hide B.DecodeQuads, Padded, B.DigitsOf;
    B.QuadsAccepted(Padded(text), B.STANDARD, B.LastTwo);
    assert Padded(text)[i] == text[i];
    assert B.Accepted(Padded(text)[i], B.STANDARD, B.LastTwo, i % 4);
  }

  /** A parameter that is empty or has a character outside both alphabets is refused. */
  lemma MalformedRefused(a: string, b: string)
    requires '&' !in a && '&' !in b && '%' !in a && '%' !in b
    requires a == [] || b == [] || (exists i :: 0 <= i < |a| && !ParamDigit(a[i])) || (exists i :: 0 <= i < |b| && !ParamDigit(b[i]))
    ensures ReadTarget("/httptoimap?imapdir=" + a + "&localpath=" + b) == BadRequest
  {
    hide ReadTarget, ParseQuery, DecodeParam, Query, PercentDecode, ParamDigit;
    AddressShape(a, b);
    TargetSplits(Query(a, b));
    QueryReads(a, b);
    PercentPlain(a);
    PercentPlain(b);
    if i :| 0 <= i < |a| && !ParamDigit(a[i]) {
      if DecodeParam(a).Some? { DecodedParam(a, i); }
    }
    if i :| 0 <= i < |b| && !ParamDigit(b[i]) {
      if DecodeParam(b).Some? { DecodedParam(b, i); }
    }
  }

  lemma FullPadding(text: string)
    ensures StrippedOf(text, text)
  {
    assert StrippedBy(text, text, 0);
  }

  /** The address as it is built: the listening address without slashes at its end, and the two
      parameters encoded. */
  lemma BuiltAddressReads(base: string, slashes: string, mailbox: string, path: string)
    requires IsBytes(mailbox) && IsBytes(path)
    requires (base != [] ==> base[|base| - 1] != '/') && forall i :: 0 <= i < |slashes| ==> slashes[i] == '/'
    ensures var url := BuildHttpStreamUrl(base + slashes, mailbox, path);
            && base <= url
            && ReadTarget(url[|base|..]) == if mailbox == [] || path == [] then BadRequest else Lookup(mailbox, path)
  {
    hide ReadTarget, Query, EncodeBase64Url, TrimRight, IsBytes, StrippedOf, Escapes;
    BaseIs(base, slashes);
    var a, b := EncodeBase64Url(mailbox), EncodeBase64Url(path);
    FullPadding(a);
    FullPadding(b);
    EncodedParamChars(a, mailbox);
    EncodedParamChars(b, path);
    var unitsA := Unescaped(a);
    var unitsB := Unescaped(b);
    AddressRoundTrip(mailbox, path, a, b, unitsA, unitsB);
    AddressShape(a, b);
    var target := "/httptoimap?" + Query(a, b);
    assert BuildHttpStreamUrl(base + slashes, mailbox, path) == base + target;
    assert (base + target)[|base|..] == target;
  }

  lemma BaseIs(base: string, slashes: string)
    requires (base != [] ==> base[|base| - 1] != '/') && forall i :: 0 <= i < |slashes| ==> slashes[i] == '/'
    ensures TrimRight(base + slashes, {'/'}) == base
  {
    AllTrimmed(slashes, {'/'});
    if base == [] {
      assert base + slashes == slashes;
    } else {
      TrimRightAfter(base, slashes, {'/'});
    }
  }
}
