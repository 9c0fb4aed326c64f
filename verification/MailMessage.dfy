/** A mailed block: the message that carries it, and what is read back from such a message. */
module MailMessage {
  import opened Basics
  import opened Text
  import opened Records
  import opened BlockMetadata
  import opened Mime
  import opened MimeRoundTrip
  import opened XorCodec
  import opened EscapedMetadata
  import B = Base64
  import QP = QuotedPrintable

  /** The reader of JSON metadata, which is not part of this model. */
  type JsonReader = string -> Option<Metadata>

  // ---------------------------------------------------------------------------------------
  // Reading metadata

  /** Metadata from either of its serialized forms; `None` when reading raises. */
  function FromSerializedText(text: string, json: JsonReader): Option<Metadata> {
    var trimmed := Trim(text, BLANKS);
    if trimmed == [] then None
    else if trimmed[0] == '{' then json(trimmed)
    else FromLegacyText(trimmed)
  }

  function Normalized(m: Metadata): Metadata {
    m.(subject := QP.DecodeText(m.subject), owner := QP.DecodeText(m.owner),
       localPath := QP.DecodeText(m.localPath), mailFolder := QP.DecodeText(m.mailFolder))
  }

  predicate IsMeaningful(m: Metadata) {
    m.subject != [] || m.localPath != [] || m.blockSeq > 0 || m.blockCount > 0
  }

  function TryParse(text: string, json: JsonReader): Option<Metadata> {
    var m := FromSerializedText(text, json);
    if m.Some? && IsMeaningful(Normalized(m.value)) then Some(Normalized(m.value)) else None
  }

  /** The service's own base64 decoder, which gives nothing when the text is no base64. */
  function LooseBase64(text: string): string {
    var compact := B.Compact(text, SPACE);
    if compact == [] || |compact| % 4 != 0 then []
    else
      var bytes := B.DecodeQuads(compact, B.STANDARD, B.LastTwo);
      if bytes.None? then [] else TextOf(bytes.value)
  }

  function OrElse(first: Option<Metadata>, second: Option<Metadata>): Option<Metadata> {
    if first.Some? then first else second
  }

  function TryDecoded(text: string, json: JsonReader): Option<Metadata> {
    var decoded := QP.DecodeText(text);
    if decoded != text then TryParse(decoded, json) else None
  }

  /** The metadata text is tried as quoted-printable, as it is, and as base64 of either. */
  function ParseCachedMetadataText(raw: string, json: JsonReader): Option<Metadata> {
    var plain := LooseBase64(raw);
    OrElse(TryDecoded(raw, json),
      OrElse(TryParse(raw, json),
        if plain == [] then None else OrElse(TryParse(plain, json), TryDecoded(plain, json))))
  }

  predicate Contains(s: string, pat: string) { Find(s, pat, 0).Some? }

  function HeaderOf(p: ParsedPart, key: string): string { if key in p.headers then p.headers[key] else [] }

  predicate HoldsMetadata(p: ParsedPart) {
    Contains(HeaderOf(p, "Content-Type"), "application/json") || Contains(HeaderOf(p, "Content-Type"), "text/plain")
  }

  predicate HoldsAttachment(p: ParsedPart) { Contains(HeaderOf(p, "Content-Disposition"), "attachment") }

  function FirstPart(parts: seq<ParsedPart>, holds: ParsedPart -> bool): Option<ParsedPart> {
    if parts == [] then None
    else if holds(parts[0]) then Some(parts[0])
    else FirstPart(parts[1..], holds)
  }

  function Decrypted(m: Metadata): Metadata {
    if m.encrypted then m.(localPath := DecryptString(m.localPath)) else m
  }

  /** `None` when the message cannot be read. */
  function ExtractMetadata(raw: string, json: JsonReader): Option<Metadata> {
    var message := Parse(raw);
    if message.Failure? then None else MetadataOf(message.value.parts, json)
  }

  function MetadataOf(parts: seq<ParsedPart>, json: JsonReader): Option<Metadata> {
    var part := FirstPart(parts, HoldsMetadata);
    if part.None? then None
    else
      var m := ParseCachedMetadataText(TextOf(part.value.body), json);
      if m.None? then None else Some(Decrypted(m.value))
  }

  /** A part of JSON holds the metadata, too; of several parts that could the first one counts. */
  lemma JsonPart(start: string, end: string, p: ParsedPart, rest: seq<ParsedPart>, json: JsonReader)
    requires "Content-Type" in p.headers && p.headers["Content-Type"] == start + "application/json" + end
    ensures MetadataOf([p] + rest, json) ==
            var m := ParseCachedMetadataText(TextOf(p.body), json);
            if m.Some? && m.value.encrypted then Some(m.value.(localPath := DecryptString(m.value.localPath))) else m
  {
    hide ParseCachedMetadataText, DecryptString, Find;
    var kind := start + "application/json" + end;
    assert kind[|start|..|start| + 16] == "application/json";
    FindSome(kind, "application/json", |start|);
  }

  function ExtractAttachment(raw: string): Option<seq<byte>> {
    var message := Parse(raw);
    if message.Failure? then None
    else
      var part := FirstPart(message.value.parts, HoldsAttachment);
      if part.None? then None else Some(part.value.body)
  }

  // ---------------------------------------------------------------------------------------
  // Building a message

  /** Who sends, and what the clock and the random generator say at the moment of sending. */
  datatype Envelope = Envelope(username: string, emailName: string, date: string, boundary: string)

  function Address(e: Envelope): string { ['"'] + e.emailName + ['"', ' ', '<'] + e.username + ['>'] }

  function MetadataPart(m: Metadata): Part {
    Part([Header(ENCODING, "quoted-printable"), Header("Content-Type", "text/plain; charset=utf-8")],
         BytesOf(ToLegacyText(m)))
  }

  function Disposition(attachmentName: string): string { "attachment; filename=" + (['"'] + attachmentName + ['"']) }

  function FilePart(attachmentName: string, payload: seq<byte>): Part {
    Part([Header("Content-Disposition", Disposition(attachmentName)),
          Header(ENCODING, "base64"), Header("Content-Type", "text/plain")],
         payload)
  }

  function BlockMail(m: Metadata, e: Envelope, attachmentName: string, payload: seq<byte>): Message {
    Message([Header("Date", e.date), Header("From", Address(e)), Header("Subject", m.subject), Header("To", Address(e))],
            [MetadataPart(m), FilePart(attachmentName, payload)])
  }

  function BuildMessage(m: Metadata, e: Envelope, attachmentName: string, payload: seq<byte>): string {
    Render(BlockMail(m, e, attachmentName, payload), e.boundary)
  }

  // ---------------------------------------------------------------------------------------
  // What survives the mail

  /** Metadata that a mail can carry: portable fields of bytes, with hashes that decoding leaves
      alone, as hexadecimal ones are. */
  ghost predicate Writable(m: Metadata, fileName: string) {
    && Portable(m, fileName) && QP.Harmless(m.fileMd5) && QP.Harmless(m.blockMd5)
    && IsBytes(m.subject) && IsBytes(m.fileMd5) && IsBytes(m.blockMd5) && IsBytes(m.createTime) && IsBytes(m.owner)
    && IsBytes(m.localPath) && IsBytes(m.mailFolder)
  }

  /** No field looks like an escape to the second decoding. */
  predicate ComesBack(m: Metadata) {
    && QP.Harmless(m.subject) && QP.Harmless(m.createTime) && QP.Harmless(m.owner)
    && QP.Harmless(m.localPath) && QP.Harmless(m.mailFolder)
  }

  ghost predicate Mailable(m: Metadata, fileName: string) { Writable(m, fileName) && ComesBack(m) }

  ghost predicate GoodEnvelope(e: Envelope) {
    && OneLine(e.username) && OneLine(e.emailName) && OneLine(e.date) && Trimmed(e.date, {' ', '\t'})
    && GoodBoundary(e.boundary) && '=' !in e.boundary
  }

  lemma FindSome(s: string, pat: string, i: nat)
    requires MatchAt(s, pat, i)
    ensures Contains(s, pat)
  {
  }

  /** No line of the metadata text begins like a delimiter. */
  lemma {:induction false} FieldLinesFree(fields: seq<Field>, boundary: string, i: nat)
    requires GoodFields(fields) && forall k :: 0 <= k < |fields| ==> fields[k].key[0] != '-'
    ensures !MatchAt(FieldLines(fields), Delimiter(boundary), i)
  {
    hide MatchAt;
    var s, pat := FieldLines(fields), Delimiter(boundary);
    if i + |pat| > |s| {
      TooLong(s, pat, i);
    } else {
      var line, rest := FieldLine(fields[0]), FieldLines(fields[1..]);
      assert s == (line + CRLF) + rest;
      if i < |line| {
        assert s[i] == line[i] && line[i] in line;
        FieldLineGood(fields[0]);
        NoMatch(s, pat, i, 0);
      } else if i == |line| {
        assert s[i + 2] == rest[0];
        FieldLinesEnd(fields[1..]);
        NoMatch(s, pat, i, 2);
      } else if i == |line| + 1 {
        NoMatch(s, pat, i, 0);
      } else {
        FieldLinesFree(fields[1..], boundary, i - |line| - 2);
        NoMatchLater(line + CRLF, rest, pat, i - |line| - 2);
      }
    }
  }

  lemma TooLong(s: string, pat: string, i: nat)
    requires i + |pat| > |s|
    ensures !MatchAt(s, pat, i)
  {
  }

  // ---------------------------------------------------------------------------------------
  // The metadata text reads back as it is

  lemma NameGood(key: string)
    requires key in {"subject", "filemd5", "blockmd5", "filesize", "blocksize", "createtime", "owner", "localpath", "mailfolder"}
    ensures '=' !in key && IsBytes(key) && key[0] != '-'
  {
  }

  lemma DecimalPlain(n: nat)
    ensures '=' !in Decimal(n) && IsBytes(Decimal(n))
  {
    DigitsExclude(Decimal(n), '=');
    assert forall i :: 0 <= i < |Decimal(n)| ==> IsDigit(Decimal(n)[i]);
  }

  lemma KeysAre(m: Metadata, i: nat)
    requires i < 9
    ensures |FieldsOf(m)| == 9
    ensures FieldsOf(m)[i].key in {"subject", "filemd5", "blockmd5", "filesize", "blocksize", "createtime", "owner", "localpath", "mailfolder"}
  {
  }

  lemma ValuesAreBytes(m: Metadata, fileName: string, i: nat)
    requires Writable(m, fileName) && i < 9
    ensures |FieldsOf(m)| == 9 && IsBytes(FieldsOf(m)[i].value)
  {
    DecimalPlain(m.fileSize);
    DecimalPlain(m.blockSize);
    hide Decimal, Portable, QP.Harmless, IsBytes;
  }

  /** The fields are written out as they must be. */
  lemma FieldsWritten(m: Metadata, fileName: string)
    requires Writable(m, fileName)
    ensures Written(FieldsOf(m))
    ensures forall i :: 0 <= i < |FieldsOf(m)| ==> FieldsOf(m)[i].key != [] && FieldsOf(m)[i].key[0] != '-'
  {
    FieldsGood(m, fileName);
    FieldCount(m);
    hide Decimal, Portable, GoodValue, QP.Harmless, IsBytes, FieldsOf;
    forall i | 0 <= i < |FieldsOf(m)|
      ensures GoodName(FieldsOf(m)[i].key) && IsBytes(FieldsOf(m)[i].key) && IsBytes(FieldsOf(m)[i].value)
      ensures FieldsOf(m)[i].key[0] != '-'
    {
      assert GoodField(FieldsOf(m)[i]);
      KeysAre(m, i);
      NameGood(FieldsOf(m)[i].key);
      ValuesAreBytes(m, fileName, i);
    }
    forall i, j | 0 <= j < i < |FieldsOf(m)|
      ensures FieldsOf(m)[j].key != FieldsOf(m)[i].key
    {
      KeysDiffer(m, i, j);
    }
  }

  lemma TextBytes(m: Metadata, fileName: string)
    requires Writable(m, fileName)
    ensures IsBytes(ToLegacyText(m))
  {
    FieldsWritten(m, fileName);
    hide FieldLines, FieldsOf, GoodField, GoodName;
    LinesBytes(FieldsOf(m));
  }

  /** All fields are harmless exactly when those are that are not hashes or sizes. */
  lemma HarmlessIs(m: Metadata, fileName: string)
    requires Writable(m, fileName)
    ensures AllHarmless(FieldsOf(m)) <==> ComesBack(m)
  {
    DecimalPlain(m.fileSize);
    DecimalPlain(m.blockSize);
    QP.NoEqualsHarmless(Decimal(m.fileSize));
    QP.NoEqualsHarmless(Decimal(m.blockSize));
    hide Decimal, Portable, QP.Harmless, IsBytes;
    var more := FieldsOf(m);
    if AllHarmless(more) {
      assert QP.Harmless(more[0].value) && QP.Harmless(more[5].value) && QP.Harmless(more[6].value);
      assert QP.Harmless(more[7].value) && QP.Harmless(more[8].value);
    }
  }

  lemma HarmlessLine(s: string)
    requires IsBytes(s) && OneLine(s) && QP.Harmless(s)
    ensures QP.DecodeText(s) == s
  {
    QP.DecodeUnescaped(s);
    TextOfBytes(s);
  }

  lemma NormalizedSame(m: Metadata, fileName: string)
    requires Mailable(m, fileName)
    ensures Normalized(m) == m
  {
    hide QP.DecodeText, QP.Harmless, IsBytes, OneLine, MakeSubject;
    HarmlessLine(m.subject);
    HarmlessLine(m.owner);
    HarmlessLine(m.localPath);
    HarmlessLine(m.mailFolder);
  }

  lemma TrimmedText(m: Metadata, fileName: string)
    requires Portable(m, fileName)
    ensures var trimmed := Trim(ToLegacyText(m), BLANKS); trimmed != [] && trimmed[0] != '{'
  {
    FieldsGood(m, fileName);
    FieldCount(m);
    assert FieldsOf(m)[0].key[0] == 's';
    hide FieldsOf, FieldLines, GoodFields, Portable, Trim;
    TrimFieldLines(FieldsOf(m));
    FieldLinesEnd(FieldsOf(m));
  }

  lemma SubjectNotEmpty(m: Metadata, fileName: string)
    requires Portable(m, fileName)
    ensures m.subject != []
  {
  }

  lemma DecodingChangesNothing(m: Metadata, fileName: string)
    requires Mailable(m, fileName)
    ensures QP.DecodeText(ToLegacyText(m)) == ToLegacyText(m)
  {
    hide FieldsOf, FieldLines, QP.DecodeText, QP.Harmless, Portable, IsBytes;
    FieldsWritten(m, fileName);
    HarmlessIs(m, fileName);
    hide Written;
    HarmlessText(FieldsOf(m));
  }

  lemma ReadsItself(m: Metadata, fileName: string, json: JsonReader)
    requires Mailable(m, fileName)
    ensures TryParse(ToLegacyText(m), json) == Some(m)
  {
    hide ToLegacyText, FromLegacyText, Trim, QP.DecodeText, Normalized, Portable, MakeSubject, QP.Harmless, IsBytes;
    LegacyRoundTrip(m, fileName);
    NormalizedSame(m, fileName);
    TrimmedText(m, fileName);
    SubjectNotEmpty(m, fileName);
  }

  lemma ReadsOwnText(m: Metadata, fileName: string, json: JsonReader)
    requires Mailable(m, fileName)
    ensures ParseCachedMetadataText(ToLegacyText(m), json) == Some(m)
  {
    hide ToLegacyText, QP.DecodeText, LooseBase64, TryParse, Mailable;
    DecodingChangesNothing(m, fileName);
    ReadsItself(m, fileName, json);
  }

  // ---------------------------------------------------------------------------------------
  // The message is one that the printer and the parser agree on

  lemma PartKeysGood()
    ensures GoodKey(ENCODING)
    ensures GoodKey("Content-Disposition")
  {
  }

  lemma EncodingTextsGood()
    ensures GoodText("quoted-printable") && GoodText("base64")
  {
  }

  lemma TypeTextsGood()
    ensures GoodText("text/plain; charset=utf-8") && GoodText("text/plain")
  {
  }

  lemma DispositionGood(attachmentName: string)
    requires OneLine(attachmentName)
    ensures GoodText(Disposition(attachmentName))
  {
    var quoted, text := ['"'] + attachmentName + ['"'], Disposition(attachmentName);
    assert OneLine(quoted);
    OneLineJoin("attachment; filename=", quoted);
    assert text[0] == 'a' && text[|text| - 1] == '"';
  }

  /** The encodings and the types that the parts announce. */
  lemma PartHeaders(m: Metadata, attachmentName: string, payload: seq<byte>)
    ensures var h := MapOf(MetadataPart(m).headers);
            && EncodingOf(h) == AsQuotedPrintable
            && "Content-Type" in h && h["Content-Type"] == "text/plain; charset=utf-8"
            && "Content-Disposition" !in h
    ensures var h := MapOf(FilePart(attachmentName, payload).headers);
            && EncodingOf(h) == AsBase64
            && "Content-Disposition" in h && h["Content-Disposition"] == Disposition(attachmentName)
  {
    hide Disposition;
    var a, b, c := ENCODING, "Content-Type", "Content-Disposition";
    assert |a| == 25 && |b| == 12 && |c| == 19;
    MergeTwo(MetadataPart(m).headers);
    MergeThree(FilePart(attachmentName, payload).headers);
    assert "base64" != "quoted-printable";
  }

  lemma MergeTwo(headers: seq<Header>)
    requires |headers| == 2
    ensures MapOf(headers) == map[headers[0].key := headers[0].value][headers[1].key := headers[1].value]
  {
    assert headers == [headers[0]] + [headers[1]];
    MergeLast(map[], [headers[0]], headers[1]);
    MergeLast(map[], [], headers[0]);
    assert [] + [headers[0]] == [headers[0]];
  }

  lemma MergeThree(headers: seq<Header>)
    requires |headers| == 3
    ensures MapOf(headers) ==
            map[headers[0].key := headers[0].value][headers[1].key := headers[1].value][headers[2].key := headers[2].value]
  {
    assert headers == headers[..2] + [headers[2]];
    MergeLast(map[], headers[..2], headers[2]);
    MergeTwo(headers[..2]);
  }

  lemma MetadataPartGood(m: Metadata, fileName: string, e: Envelope)
    requires Writable(m, fileName) && GoodEnvelope(e)
    ensures GoodPart(MetadataPart(m), e.boundary)
  {
    PartKeysGood();
    TypeKeyGood();
    EncodingTextsGood();
    TypeTextsGood();
    PartHeaders(m, [], []);
    FieldsWritten(m, fileName);
    TextBytes(m, fileName);
    TextOfBytes(ToLegacyText(m));
    assert '=' !in Delimiter(e.boundary);
    var body, pat := BytesOf(ToLegacyText(m)), Delimiter(e.boundary);
    hide GoodKey, GoodText, MapOf, FieldLines, FieldsOf, Writable, EncodingOf, GoodEnvelope, GoodFields, MatchAt, BytesOf, TextOf;
    forall i: nat
      ensures !MatchAt(QP.Encode(body), pat, i)
    {
      if MatchAt(QP.Encode(body), pat, i) {
        QP.EncodedMatch(body, pat, i);
        var j: nat :| MatchAt(TextOf(body), pat, j);
        FieldLinesFree(FieldsOf(m), e.boundary, j);
      }
    }
  }

  lemma Base64OneLine(payload: seq<byte>)
    ensures '\r' !in B.Encode(payload, B.STANDARD)
  {
    B.EncodedChars(payload, B.STANDARD);
    hide B.Encode;
    assert forall d: nat :: d < 64 ==> B.DigitChar(d, B.STANDARD) != '\r';
  }

  lemma FreeOfReturns(text: string, boundary: string)
    requires '\r' !in text
    ensures Free(text, Delimiter(boundary))
  {
    hide MatchAt;
    forall i: nat
      ensures !MatchAt(text, Delimiter(boundary), i)
    {
      if i < |text| {
        assert text[i] in text;
        NoMatch(text, Delimiter(boundary), i, 0);
      } else {
        TooLong(text, Delimiter(boundary), i);
      }
    }
  }

  lemma FilePartGood(attachmentName: string, payload: seq<byte>, boundary: string)
    requires OneLine(attachmentName)
    ensures GoodPart(FilePart(attachmentName, payload), boundary)
  {
    hide GoodKey, GoodText, MapOf, EncodingOf, Disposition, B.Encode, Free, Delimiter, OneLine, B.DecodeQuads;
    PartKeysGood();
    TypeKeyGood();
    EncodingTextsGood();
    TypeTextsGood();
    DispositionGood(attachmentName);
    assert GoodHeaders(FilePart(attachmentName, payload).headers);
    PartHeaders(Metadata([], [], [], 0, 0, [], [], [], [], 0, 0, false), attachmentName, payload);
    Base64OneLine(payload);
    FreeOfReturns(B.Encode(payload, B.STANDARD), boundary);
  }

  lemma MailKeysGood()
    ensures GoodKey("Date") && GoodKey("From")
    ensures GoodKey("Subject") && GoodKey("To")
  {
  }

  lemma MailTextsGood(m: Metadata, fileName: string, e: Envelope)
    requires Writable(m, fileName) && GoodEnvelope(e)
    ensures GoodText(Address(e)) && GoodText(e.date) && GoodText(m.subject)
  {
    var text := Address(e);
    assert text[0] == '"' && text[|text| - 1] == '>';
    assert Trimmed(m.subject, {' ', '\t'});
  }

  lemma MailHeadersGood(m: Metadata, fileName: string, e: Envelope, attachmentName: string, payload: seq<byte>)
    requires Writable(m, fileName) && GoodEnvelope(e)
    ensures GoodHeaders(BlockMail(m, e, attachmentName, payload).headers)
  {
    MailKeysGood();
    MailTextsGood(m, fileName, e);
    hide GoodKey, GoodText, Writable, GoodEnvelope, Address, MetadataPart, FilePart;
  }

  lemma BlockMailGood(m: Metadata, fileName: string, e: Envelope, attachmentName: string, payload: seq<byte>)
    requires Writable(m, fileName) && GoodEnvelope(e) && OneLine(attachmentName)
    ensures GoodMessage(BlockMail(m, e, attachmentName, payload), e.boundary)
  {
    assert GoodBoundary(e.boundary);
    MailHeadersGood(m, fileName, e, attachmentName, payload);
    hide GoodHeaders, Writable, GoodEnvelope, OneLine, GoodPart, Address, MetadataPart, FilePart, GoodBoundary;
    MetadataPartGood(m, fileName, e);
    FilePartGood(attachmentName, payload, e.boundary);
  }

  // ---------------------------------------------------------------------------------------
  // The pipeline

  /** The parts of the parsed message. */
  function MailedParts(m: Metadata, attachmentName: string, payload: seq<byte>): seq<ParsedPart> {
    [ParsedForm(MetadataPart(m)), ParsedForm(FilePart(attachmentName, payload))]
  }

  lemma MailParses(m: Metadata, fileName: string, e: Envelope, attachmentName: string, payload: seq<byte>)
    requires Writable(m, fileName) && GoodEnvelope(e) && OneLine(attachmentName)
    ensures var r := Parse(BuildMessage(m, e, attachmentName, payload));
            r.Success? && r.value.parts == MailedParts(m, attachmentName, payload)
  {
    BlockMailGood(m, fileName, e, attachmentName, payload);
    var mail := BlockMail(m, e, attachmentName, payload);
    hide Parse, Render, MapOf, GoodMessage, Writable, GoodEnvelope, MetadataPart, FilePart, ParsedForm;
    MessageRoundTrip(mail, e.boundary);
    TwoForms(mail.parts);
  }

  lemma TwoForms(parts: seq<Part>)
    requires |parts| == 2
    ensures ParsedForms(parts) == [ParsedForm(parts[0]), ParsedForm(parts[1])]
  {
    hide ParsedForm;
    assert ParsedForms(parts[1..][1..]) == [];
  }

  lemma MapOfTwo(a: Header, b: Header)
    ensures MapOf([a, b]) == map[a.key := a.value][b.key := b.value]
  {
    assert [a, b] == ([] + [a]) + [b];
    MergeLast(map[], [] + [a], b);
    MergeLast(map[], [], a);
    assert Merge(map[], []) == map[];
  }

  lemma MapOfThree(a: Header, b: Header, c: Header)
    ensures MapOf([a, b, c]) == map[a.key := a.value][b.key := b.value][c.key := c.value]
  {
    hide Merge;
    assert [a, b, c] == [a, b] + [c];
    MergeLast(map[], [a, b], c);
    MapOfTwo(a, b);
  }

  lemma MapOfFour(a: Header, b: Header, c: Header, d: Header)
    ensures MapOf([a, b, c, d]) == map[a.key := a.value][b.key := b.value][c.key := c.value][d.key := d.value]
  {
    hide Merge;
    assert [a, b, c, d] == [a, b, c] + [d];
    MergeLast(map[], [a, b, c], d);
    MapOfThree(a, b, c);
  }

  /** A mailed block as a mail program sees it: who sent it, to whom and when, its subject, and two parts,
      the metadata text and the payload as an attachment. */
  lemma MessageArrives(m: Metadata, fileName: string, e: Envelope, attachmentName: string, payload: seq<byte>)
    requires Writable(m, fileName) && GoodEnvelope(e) && OneLine(attachmentName)
    ensures var r, person := Parse(BuildMessage(m, e, attachmentName, payload)), "\"" + e.emailName + "\" <" + e.username + ">";
            && r.Success?
            && r.value.headers == map["Date" := e.date]["From" := person]["Subject" := m.subject]["To" := person]
                 ["MIME-Version" := "1.0"]["Content-Type" := "multipart/mixed; boundary=" + ("\"" + e.boundary + "\"")]
            && r.value.parts == [
                 ParsedPart(map["Content-Transfer-Encoding" := "quoted-printable"]["Content-Type" := "text/plain; charset=utf-8"],
                            BytesOf(ToLegacyText(m))),
                 ParsedPart(map["Content-Disposition" := "attachment; filename=" + ("\"" + attachmentName + "\"")]
                              ["Content-Transfer-Encoding" := "base64"]["Content-Type" := "text/plain"],
                            payload)]
  {
    BlockMailGood(m, fileName, e, attachmentName, payload);
    var mail := BlockMail(m, e, attachmentName, payload);
    var person := "\"" + e.emailName + "\" <" + e.username + ">";
    assert Address(e) == person;
    assert ContentType(e.boundary) == "multipart/mixed; boundary=" + ("\"" + e.boundary + "\"");
    assert Disposition(attachmentName) == "attachment; filename=" + ("\"" + attachmentName + "\"");
    hide Parse, Render, MapOf, GoodMessage, Writable, GoodEnvelope, Address, ContentType, Disposition;
    MessageRoundTrip(mail, e.boundary);
    TwoForms(mail.parts);
    MapOfFour(Header("Date", e.date), Header("From", person), Header("Subject", m.subject), Header("To", person));
    MapOfTwo(Header("Content-Transfer-Encoding", "quoted-printable"), Header("Content-Type", "text/plain; charset=utf-8"));
    MapOfThree(Header("Content-Disposition", Disposition(attachmentName)), Header("Content-Transfer-Encoding", "base64"),
               Header("Content-Type", "text/plain"));
  }

  lemma PartsHold(m: Metadata, attachmentName: string, payload: seq<byte>)
    ensures HoldsMetadata(ParsedForm(MetadataPart(m)))
    ensures !HoldsAttachment(ParsedForm(MetadataPart(m)))
    ensures HoldsAttachment(ParsedForm(FilePart(attachmentName, payload)))
  {
    PartHeaders(m, attachmentName, payload);
    hide MapOf, Find;
    var kind, text := "text/plain; charset=utf-8", Disposition(attachmentName);
    assert kind[..10] == "text/plain";
    FindSome(kind, "text/plain", 0);
    assert text[..10] == "attachment";
    FindSome(text, "attachment", 0);
    EmptyHoldsNothing("attachment");
  }

  lemma EmptyHoldsNothing(pat: string)
    requires pat != []
    ensures !Contains([], pat)
  {
  }

  /** A mailed block reads back byte for byte, with every field of its metadata; the path of an
      encrypted one is decrypted on the way. */
  lemma MailedReadsBack(m: Metadata, fileName: string, e: Envelope, attachmentName: string, payload: seq<byte>,
                        json: JsonReader)
    requires Mailable(m, fileName) && GoodEnvelope(e) && OneLine(attachmentName)
    ensures var raw := BuildMessage(m, e, attachmentName, payload);
            && ExtractAttachment(raw) == Some(payload)
            && ExtractMetadata(raw, json) == Some(Decrypted(m))
  {
    hide *;
    MailableIsWritable(m, fileName);
    MailReads(m, fileName, e, attachmentName, payload, json);
    ReadsOwnText(m, fileName, json);
  }

  lemma MailableIsWritable(m: Metadata, fileName: string)
    requires Mailable(m, fileName)
    ensures Writable(m, fileName)
  {
    hide Writable;
  }

  /** Whatever the fields are, the payload comes back, and the metadata text comes to be read. */
  lemma MailReads(m: Metadata, fileName: string, e: Envelope, attachmentName: string, payload: seq<byte>, json: JsonReader)
    requires Writable(m, fileName) && GoodEnvelope(e) && OneLine(attachmentName)
    ensures var raw, r := BuildMessage(m, e, attachmentName, payload), ParseCachedMetadataText(ToLegacyText(m), json);
            && ExtractAttachment(raw) == Some(payload)
            && ExtractMetadata(raw, json) == if r.None? then None else Some(Decrypted(r.value))
  {
    hide *;
    MailParses(m, fileName, e, attachmentName, payload);
    AttachmentFound(BuildMessage(m, e, attachmentName, payload), m, attachmentName, payload);
    MetadataFound(BuildMessage(m, e, attachmentName, payload), m, attachmentName, payload, json);
    TextBack(m, fileName);
  }

  lemma TextBack(m: Metadata, fileName: string)
    requires Writable(m, fileName)
    ensures TextOf(BytesOf(ToLegacyText(m))) == ToLegacyText(m)
  {
    TextBytes(m, fileName);
    hide ToLegacyText;
    TextOfBytes(ToLegacyText(m));
  }

  lemma AttachmentFound(raw: string, m: Metadata, attachmentName: string, payload: seq<byte>)
    requires Parse(raw).Success? && Parse(raw).value.parts == MailedParts(m, attachmentName, payload)
    ensures ExtractAttachment(raw) == Some(payload)
  {
    hide Parse, HoldsAttachment, MapOf, ToLegacyText;
    PartsHold(m, attachmentName, payload);
    var parts := MailedParts(m, attachmentName, payload);
    assert FirstPart(parts[1..], HoldsAttachment) == Some(parts[1]);
  }

  lemma MetadataFound(raw: string, m: Metadata, attachmentName: string, payload: seq<byte>, json: JsonReader)
    requires Parse(raw).Success? && Parse(raw).value.parts == MailedParts(m, attachmentName, payload)
    ensures var r := ParseCachedMetadataText(TextOf(BytesOf(ToLegacyText(m))), json);
            ExtractMetadata(raw, json) == if r.None? then None else Some(Decrypted(r.value))
  {
    hide Parse, HoldsMetadata, MapOf, ToLegacyText, ParseCachedMetadataText, Decrypted, TextOf, BytesOf;
    PartsHold(m, attachmentName, payload);
  }

  // ---------------------------------------------------------------------------------------
  // When the metadata comes back

  lemma FirstLine(m: Metadata)
    ensures |FieldsOf(m)| == 9
    ensures var f := FieldsOf(m)[0]; ToLegacyText(m) == f.key + [':'] + (f.value + BREAK + FieldLines(FieldsOf(m)[1..]))
    ensures var head := FieldsOf(m)[0].key + [':']; '=' !in head && IsBytes(head) && head[0] == 's'
  {
    NameGood("subject");
    hide FieldsOf;
    assert FieldsOf(m)[0] == Field("subject", m.subject) && |FieldsOf(m)| == 9 by { FirstField(m); }
  }

  lemma FirstField(m: Metadata)
    ensures |FieldsOf(m)| == 9 && FieldsOf(m)[0] == Field("subject", m.subject)
  {
  }

  /** A text that begins with a name is read line by line, trimmed or not. */
  lemma TextIsRead(head: string, rest: string, json: JsonReader)
    requires head != [] && head[0] !in BLANKS && head[0] != '{' && head[|head| - 1] !in BLANKS
    ensures FromSerializedText(head + rest, json) == FromFields(ReadFields(map[], head + rest))
  {
    hide ReadFields, FromFields;
    TrimRightAfter(head, rest, BLANKS);
    ReadsTrimmed(map[], head + rest);
    var trimmed := head + TrimRight(rest, BLANKS);
    assert TrimLeft(trimmed, BLANKS) == trimmed && trimmed[0] == head[0];
  }

  /** The second decoding gives the text to the reader as it finds it. */
  lemma DecodedText(m: Metadata, json: JsonReader)
    ensures FromSerializedText(QP.DecodeText(ToLegacyText(m)), json) == FromFields(Reread(map[], FieldsOf(m)))
  {
    FirstLine(m);
    hide QP.Decode, FieldLines, FromFields, ReadFields, FieldsOf, FromSerializedText;
    var head, rest := FieldsOf(m)[0].key + [':'], FieldsOf(m)[0].value + BREAK + FieldLines(FieldsOf(m)[1..]);
    QP.DecodeAfter(head, rest);
    TextOfBytes(head);
    assert QP.DecodeText(ToLegacyText(m)) == head + QP.DecodeText(rest);
    TextIsRead(head, QP.DecodeText(rest), json);
  }

  lemma ReadMetadata(fields: Fields)
    ensures FromFields(fields).Some? ==>
      var x := Normalized(FromFields(fields).value);
      && x.subject == QP.DecodeText(Value(fields, "subject")) && x.createTime == Value(fields, "createtime")
      && x.owner == QP.DecodeText(Value(fields, "owner")) && x.localPath == QP.DecodeText(Value(fields, "localpath"))
      && x.mailFolder == QP.DecodeText(Value(fields, "mailfolder"))
  {
    hide Value, QP.DecodeText;
  }

  lemma SubjectEnd(m: Metadata, fileName: string)
    requires Portable(m, fileName)
    ensures m.subject != [] && OneLine(m.subject) && !QP.EndsSoft(m.subject)
  {
    DecimalPlain(m.blockCount);
    var s, last := m.subject, Decimal(m.blockCount);
    assert s[|s| - 1] == last[|last| - 1];
    assert last[|last| - 1] in last;
  }

  /** With an escape in the subject, every way of reading yields a shorter one. */
  lemma EscapedSubjectIsLost(m: Metadata, fileName: string, json: JsonReader)
    requires Writable(m, fileName) && !QP.Harmless(m.subject)
    ensures var r := ParseCachedMetadataText(ToLegacyText(m), json);
            r.Some? && |r.value.subject| < |m.subject|
  {
    hide ToLegacyText, FromLegacyText, Trim, QP.Decode, Portable, MakeSubject, IsBytes, LooseBase64, FromFields, Reread, Value, BLANKS;
    hide QP.HasEscape, QP.EndsSoft;
    SubjectEnd(m, fileName);
    DecodedText(m, json);
    ReadMetadata(Reread(map[], FieldsOf(m)));
    EscapeShortens(m.subject);
    QP.DecodeNotEmpty(m.subject);
    LegacyRoundTrip(m, fileName);
    TrimmedText(m, fileName);
    SubjectValueShort(m, fileName);
    QP.DecodeNoLonger(Value(Reread(map[], FieldsOf(m)), "subject"));
  }

  lemma SubjectValueShort(m: Metadata, fileName: string)
    requires Writable(m, fileName) && QP.HasEscape(m.subject)
    ensures |Value(Reread(map[], FieldsOf(m)), "subject")| < |m.subject|
  {
    hide ReadFields, QP.Decode, QP.HasEscape, QP.EndsSoft, GoodName, Value;
    SubjectEnd(m, fileName);
    FieldsWritten(m, fileName);
    var f, rest := FieldsOf(m)[0], FieldLines(FieldsOf(m)[1..]);
    assert f == Field("subject", m.subject) && GoodName(f.key) && IsBytes(f.key);
    assert FieldLines(FieldsOf(m)) == FieldLine(f) + BREAK + rest;
    EscapedValueShort(map[], f, rest);
  }

  lemma HeadHarmless(m: Metadata, fileName: string)
    requires Writable(m, fileName) && QP.Harmless(m.subject)
    ensures |FieldsOf(m)| == 9 && Written(FieldsOf(m)[..5]) && AllHarmless(FieldsOf(m)[..5])
  {
    FieldsWritten(m, fileName);
    FieldCount(m);
    DecimalPlain(m.fileSize);
    DecimalPlain(m.blockSize);
    QP.NoEqualsHarmless(Decimal(m.fileSize));
    QP.NoEqualsHarmless(Decimal(m.blockSize));
    hide Decimal, GoodField, GoodName, QP.Harmless, IsBytes, Portable;
  }

  lemma IntactAt(m: Metadata, fileName: string, i: nat)
    requires Writable(m, fileName) && QP.Harmless(m.subject) && i < 5
    ensures |FieldsOf(m)| == 9 && Value(Reread(map[], FieldsOf(m)), FieldsOf(m)[i].key) == FieldsOf(m)[i].value
  {
    HeadHarmless(m, fileName);
    hide *;
    var fs := FieldsOf(m);
    assert fs == fs[..5] + fs[5..] && fs[..5][i] == fs[i];
    IntactValue(fs[..5], fs[5..], i);
  }

  /** With the subject harmless, everything up to the sizes is read as written. */
  lemma IntactBeginning(m: Metadata, fileName: string)
    requires Writable(m, fileName) && QP.Harmless(m.subject)
    ensures var fields := Reread(map[], FieldsOf(m));
            && Value(fields, "subject") == m.subject && Value(fields, "filemd5") == m.fileMd5
            && Value(fields, "blockmd5") == m.blockMd5
            && FromFields(fields).Some?
  {
    hide Reread, QP.Harmless, Value, ParseUnsigned, ParseSubject, Writable, Decimal;
    IntactAt(m, fileName, 0);
    IntactAt(m, fileName, 1);
    IntactAt(m, fileName, 2);
    IntactAt(m, fileName, 3);
    IntactAt(m, fileName, 4);
    SizesParse(m, fileName);
  }

  lemma SizesParse(m: Metadata, fileName: string)
    requires Writable(m, fileName)
    ensures ParseUnsigned(Decimal(m.fileSize)).Some? && ParseUnsigned(Decimal(m.blockSize)).Some?
  {
    hide Decimal, ParseUnsigned, IsBytes, QP.Harmless;
    ParseUnsignedDecimal(m.fileSize);
    ParseUnsignedDecimal(m.blockSize);
  }

  /** With an escape in some later field, another value is read somewhere. */
  lemma EscapedFieldIsLost(m: Metadata, fileName: string, json: JsonReader)
    requires Writable(m, fileName) && QP.Harmless(m.subject) && !ComesBack(m)
    requires m.encrypted ==> '=' !in m.localPath
    ensures var r := ParseCachedMetadataText(ToLegacyText(m), json);
            r.Some? && Decrypted(r.value) != Decrypted(m)
  {
    hide ToLegacyText, FromLegacyText, QP.Decode, Portable, IsBytes, LooseBase64, FromFields, Reread, Value, QP.Harmless, Written,
      ReadAs, DecryptString, AllHarmless;
    var fields := Reread(map[], FieldsOf(m));
    FieldsWritten(m, fileName);
    HarmlessIs(m, fileName);
    var k := RereadDiffers(FieldsOf(m));
    DecodedText(m, json);
    ReadMetadata(fields);
    IntactBeginning(m, fileName);
    SubjectEnd(m, fileName);
    SubjectBack(m, fileName);
    TextChanges(m, fileName);
    var x := Normalized(FromFields(fields).value);
    assert TryDecoded(ToLegacyText(m), json) == Some(x);
    LostAt(m, fields, x, k);
  }

  lemma SubjectBack(m: Metadata, fileName: string)
    requires Writable(m, fileName) && QP.Harmless(m.subject)
    ensures QP.DecodeText(m.subject) == m.subject
  {
    hide QP.DecodeText, QP.Harmless;
    HarmlessLine(m.subject);
  }

  lemma TextChanges(m: Metadata, fileName: string)
    requires Writable(m, fileName) && !ComesBack(m)
    ensures QP.DecodeText(ToLegacyText(m)) != ToLegacyText(m)
  {
    hide QP.Decode, FieldLines, ReadFields, FirstOf, Portable, IsBytes, QP.Harmless, ReadAs, Value, FieldsOf;
    FieldsWritten(m, fileName);
    HarmlessIs(m, fileName);
    var k := RereadDiffers(FieldsOf(m));
    if QP.DecodeText(ToLegacyText(m)) == ToLegacyText(m) {
      hide AllHarmless, ComesBack;
      FieldCount(m);
      assert ToLegacyText(m) + [] == ToLegacyText(m);
      GoodLinesRead(map[], FieldsOf(m), []);
      ReadsNothing(FirstOf(map[], FieldsOf(m)));
      FieldValue(m, k);
      ReadAsValue(Reread(map[], FieldsOf(m)), FieldsOf(m)[k]);
    }
  }

  lemma ReadAsValue(fields: Fields, f: Field)
    requires Value(fields, f.key) == f.value || QP.DecodeText(Value(fields, f.key)) == f.value
    ensures ReadAs(fields, f)
  {
    hide Value, QP.DecodeText;
  }

  lemma LostAt(m: Metadata, fields: Fields, x: Metadata, k: nat)
    requires k < 9 && '=' in FieldsOf(m)[k].value && !ReadAs(fields, FieldsOf(m)[k])
    requires m.encrypted ==> '=' !in m.localPath
    requires Value(fields, "subject") == m.subject && Value(fields, "filemd5") == m.fileMd5 && Value(fields, "blockmd5") == m.blockMd5
    requires x.createTime == Value(fields, "createtime") && x.owner == QP.DecodeText(Value(fields, "owner"))
    requires x.localPath == QP.DecodeText(Value(fields, "localpath")) && x.mailFolder == QP.DecodeText(Value(fields, "mailfolder"))
    ensures Decrypted(x) != Decrypted(m)
  {
    DecimalPlain(m.fileSize);
    DecimalPlain(m.blockSize);
    hide Value, QP.DecodeText, Decimal, DecryptString;
  }

  /** A mailed block always gives back its payload. It gives back every field of its metadata, with
      the path decrypted when the subject says so, exactly when no field has what looks like an
      escape: the metadata text is decoded once more than it was encoded. */
  lemma PipelineRoundTrip(m: Metadata, fileName: string, path: string, e: Envelope, attachmentName: string, payload: seq<byte>,
                          json: JsonReader)
    requires Writable(m, fileName) && GoodEnvelope(e) && OneLine(attachmentName)
    requires IsBytes(path) && m.localPath == if m.encrypted then EncryptString(path) else path
    ensures var raw := BuildMessage(m, e, attachmentName, payload);
            && ExtractAttachment(raw) == Some(payload)
            && (ExtractMetadata(raw, json) == Some(m.(localPath := path)) <==> ComesBack(m))
  {
    hide *;
    MailReads(m, fileName, e, attachmentName, payload, json);
    PathReadsBack(m, path);
    if ComesBack(m) {
      WritableIsMailable(m, fileName);
      ReadsOwnText(m, fileName, json);
    } else if QP.Harmless(m.subject) {
      EscapedFieldIsLost(m, fileName, json);
    } else {
      EscapedSubjectIsLost(m, fileName, json);
      SubjectStays(ParseCachedMetadataText(ToLegacyText(m), json).value);
    }
  }

  lemma WritableIsMailable(m: Metadata, fileName: string)
    requires Writable(m, fileName) && ComesBack(m)
    ensures Mailable(m, fileName)
  {
    hide Writable, ComesBack;
  }

  lemma SubjectStays(m: Metadata)
    ensures Decrypted(m).subject == m.subject
  {
    hide DecryptString;
  }

  /** The path that an upload to a hidden mailbox stores reads back as the path itself. */
  lemma PathReadsBack(m: Metadata, path: string)
    requires IsBytes(path) && m.localPath == if m.encrypted then EncryptString(path) else path
    ensures Decrypted(m) == m.(localPath := path)
    ensures m.encrypted ==> '=' !in m.localPath
  {
    EncryptionRoundTrip(path);
    hide EncryptString, DecryptString;
  }

  // ---------------------------------------------------------------------------------------
  // A path that does not come back, by example

  lemma ExampleDecodes()
    ensures QP.DecodeText("a=41") == "aA" && !QP.EndsSoft("a=41") && QP.Harmless("aA")
  {
    var text := "a=41";
    assert text[1..] == "=41" && "=41"[3..] == [];
    assert QP.Decode("=41") == [0x41] + QP.Decode([]);
    assert QP.Decode(text) == [0x61] + QP.Decode("=41");
  }

  lemma WithPlainPath(m: Metadata, fileName: string)
    requires Writable(m, fileName) && ComesBack(m.(localPath := [])) && m.localPath == "a=41"
    ensures Mailable(m.(localPath := "aA"), fileName)
  {
    hide QP.Harmless, MakeSubject;
    ExampleDecodes();
  }

  lemma PathLines(m: Metadata)
    ensures FieldLines(FieldsOf(m)) ==
            FieldLines(FieldsOf(m)[..7]) + (FieldLine(Field("localpath", m.localPath)) + BREAK + FieldLines(FieldsOf(m)[8..]))
  {
    var fs := FieldsOf(m);
    assert fs == fs[..7] + fs[7..] && fs[7..][0] == Field("localpath", m.localPath) && fs[7..][1..] == fs[8..];
    hide FieldsOf;
    LinesJoin(fs[..7], fs[7..]);
  }

  /** The two texts differ in the line of the path only, and their other lines are harmless. */
  lemma OtherLines(m: Metadata, fileName: string)
    requires Writable(m, fileName) && ComesBack(m.(localPath := [])) && m.localPath == "a=41"
    ensures var x, fs := m.(localPath := "aA"), FieldsOf(m);
            && |fs| == |FieldsOf(x)| == 9 && fs[..7] == FieldsOf(x)[..7] && fs[8..] == FieldsOf(x)[8..]
            && fs[7] == Field("localpath", "a=41")
            && Written(fs[..7]) && AllHarmless(fs[..7]) && Written(fs[8..]) && AllHarmless(fs[8..])
  {
    var x := m.(localPath := "aA");
    WithPlainPath(m, fileName);
    FieldsWritten(x, fileName);
    HarmlessIs(x, fileName);
    var fs := FieldsOf(x);
    assert FieldsOf(m) == fs[7 := Field("localpath", "a=41")] by { OnlyPathChanges(m, x); }
    hide QP.Harmless, FieldsOf, GoodField, GoodName, IsBytes, Portable, ComesBack;
    FieldCount(x);
  }

  lemma OnlyPathChanges(m: Metadata, x: Metadata)
    requires m == x.(localPath := m.localPath)
    ensures |FieldsOf(x)| == 9 && FieldsOf(m) == FieldsOf(x)[7 := Field("localpath", m.localPath)]
  {
    hide Decimal;
  }

  /** The first decoding already spoils the path. */
  lemma EscapedPathText(m: Metadata, fileName: string)
    requires Writable(m, fileName) && ComesBack(m.(localPath := [])) && m.localPath == "a=41"
    ensures QP.DecodeText(ToLegacyText(m)) == ToLegacyText(m.(localPath := "aA"))
  {
    hide QP.Decode, FieldLines, FieldLine, GoodField, QP.Harmless, QP.EndsSoft, FieldsOf, Writable, ComesBack, Written, AllHarmless;
    var x := m.(localPath := "aA");
    OtherLines(m, fileName);
    PathLines(m);
    PathLines(x);
    var head, f, tail := FieldsOf(m)[..7], FieldsOf(m)[7], FieldsOf(m)[8..];
    PathFieldGood(f);
    ExampleDecodes();
    HarmlessLines(head, FieldLine(f) + BREAK + FieldLines(tail));
    DecodedLine(f, FieldLines(tail));
    HarmlessText(tail);
    assert FieldLine(Field("localpath", x.localPath)) == f.key + [':'] + x.localPath by { LineOf(f.key, x.localPath); }
  }

  lemma LineOf(key: string, value: string)
    ensures FieldLine(Field(key, value)) == key + [':'] + value
  {
  }

  lemma PathFieldGood(f: Field)
    requires f == Field("localpath", "a=41")
    ensures GoodName(f.key) && IsBytes(f.key) && OneLine(f.value) && !QP.EndsSoft(f.value)
  {
    NameGood(f.key);
    KeyGood(f.key);
  }

  lemma SecondTextRead(m: Metadata, x: Metadata, fileName: string, json: JsonReader)
    requires QP.DecodeText(ToLegacyText(m)) == ToLegacyText(x) != ToLegacyText(m) && Mailable(x, fileName)
    ensures ParseCachedMetadataText(ToLegacyText(m), json) == Some(x)
  {
    hide QP.DecodeText, ToLegacyText, TryParse, LooseBase64, Mailable;
    ReadsItself(x, fileName, json);
  }

  /** A path that reads like an escape is mailed, and another path comes back. */
  lemma EscapeInPathIsLost(m: Metadata, fileName: string, e: Envelope, attachmentName: string, payload: seq<byte>, json: JsonReader)
    requires Writable(m, fileName) && ComesBack(m.(localPath := [])) && GoodEnvelope(e) && OneLine(attachmentName)
    requires m.localPath == "a=41" && !m.encrypted
    ensures ExtractMetadata(BuildMessage(m, e, attachmentName, payload), json) == Some(m.(localPath := "aA"))
  {
    hide *;
    var x := m.(localPath := "aA");
    MailReads(m, fileName, e, attachmentName, payload, json);
    EscapedPathText(m, fileName);
    WithPlainPath(m, fileName);
    EscapeHarms(m);
    TextChanges(m, fileName);
    SecondTextRead(m, x, fileName, json);
    PlainStays(x);
  }

  lemma EscapeHarms(m: Metadata)
    requires m.localPath == "a=41"
    ensures !ComesBack(m)
  {
    assert QP.EscapeAt("a=41", 1);
  }

  lemma PlainStays(m: Metadata)
    requires !m.encrypted
    ensures Decrypted(m) == m
  {
    hide DecryptString;
  }
}
