/** Metadata sections that are not plain text: base64 with blanks and line breaks anywhere, and JSON. */
module EncodedSection {
  import opened Basics
  import opened Text
  import opened Records
  import opened BlockMetadata
  import opened MailMessage
  import B = Base64
  import QP = QuotedPrintable

  /** After a pad come only pads and blanks. */
  ghost predicate PadsLast(text: string) {
    forall i, j :: 0 <= i < j < |text| && text[i] == '=' ==> text[j] == '=' || text[j] in SPACE
  }

  ghost predicate IsSection(text: string, bytes: seq<byte>) { B.Compact(text, SPACE) == B.Encode(bytes, B.STANDARD) }

  /** What is not a blank is in the compact text, in order. */
  lemma {:induction false} InCompact(text: string, i: nat) returns (at: nat)
    requires i < |text| && text[i] !in SPACE
    ensures at < |B.Compact(text, SPACE)| && B.Compact(text, SPACE)[at] == text[i]
  {
    hide SPACE;
    if i == 0 {
      at := 0;
    } else {
      at := InCompact(text[1..], i - 1);
      if text[0] !in SPACE { at := at + 1; }
    }
  }

  lemma {:induction false} TwoInCompact(text: string, i: nat, j: nat) returns (at: nat, to: nat)
    requires i < j < |text| && text[i] !in SPACE && text[j] !in SPACE
    ensures var compact := B.Compact(text, SPACE); at < to < |compact| && compact[at] == text[i] && compact[to] == text[j]
  {
    hide SPACE;
    if i == 0 {
      var later := InCompact(text[1..], j - 1);
      at, to := 0, later + 1;
    } else {
      at, to := TwoInCompact(text[1..], i - 1, j - 1);
      if text[0] !in SPACE { at, to := at + 1, to + 1; }
    }
  }

  lemma DigitIs(d: nat)
    requires d < 64
    ensures B.DigitsOf(B.STANDARD)[d] !in {'=', ':', '{'}
  {
    B.DigitTable(d, B.STANDARD);
  }

  lemma EncodingPads(bytes: seq<byte>, at: nat, to: nat)
    requires at < to < |B.Encode(bytes, B.STANDARD)| && B.Encode(bytes, B.STANDARD)[at] == '='
    ensures B.Encode(bytes, B.STANDARD)[to] == '='
  {
    B.EncodedInDigits(bytes, B.STANDARD);
    DigitIs(B.SixBits(bytes, at));
    hide B.Encode, B.DigitsOf, B.SixBits;
  }

  lemma EncodingChars(bytes: seq<byte>, at: nat)
    requires at < |B.Encode(bytes, B.STANDARD)|
    ensures B.Encode(bytes, B.STANDARD)[at] !in {':', '{'}
  {
    B.EncodedInDigits(bytes, B.STANDARD);
    DigitIs(B.SixBits(bytes, at));
    hide B.Encode, B.DigitsOf, B.SixBits;
  }

  lemma SectionChars(text: string, bytes: seq<byte>)
    requires IsSection(text, bytes)
    ensures PadsLast(text) && ':' !in text && '{' !in text
  {
    hide B.Encode, B.Compact;
    forall i, j | 0 <= i < j < |text| && text[i] == '='
      ensures text[j] == '=' || text[j] in SPACE
    {
      if text[j] !in SPACE {
        var at, to := TwoInCompact(text, i, j);
        EncodingPads(bytes, at, to);
      }
    }
    forall i | 0 <= i < |text|
      ensures text[i] != ':' && text[i] != '{'
    {
      if text[i] !in SPACE {
        var at := InCompact(text, i);
        EncodingChars(bytes, at);
      }
    }
  }

  lemma RestOf(text: string, n: nat, c: char)
    requires n <= |text| && PadsLast(text) && c !in text && IsBytes(text)
    ensures PadsLast(text[n..]) && c !in text[n..] && IsBytes(text[n..])
  {
    var rest := text[n..];
    forall i, j | 0 <= i < j < |rest| && rest[i] == '='
      ensures rest[j] == '=' || rest[j] in SPACE
    {
      assert text[n + i] == '=' && text[n + j] == rest[j];
    }
  }

  /** Where an equals sign is followed by equals signs and blanks only, decoding brings in no character. */
  lemma {:induction false} DecodingAddsNone(text: string, c: char)
    requires PadsLast(text) && c !in text && c != '=' && c as int < 256 && IsBytes(text)
    ensures c !in QP.DecodeText(text)
    decreases |text|
  {
    if text != [] {
      var rest := text[QP.Step(text)..];
      RestOf(text, QP.Step(text), c);
      UnitAddsNone(text, c);
      hide QP.Unit, QP.Step, PadsLast, IsBytes;
      DecodingAddsNone(rest, c);
      assert QP.DecodeText(text) == TextOf(QP.Unit(text)) + QP.DecodeText(rest);
    }
  }

  lemma UnitAddsNone(text: string, c: char)
    requires text != [] && PadsLast(text) && c !in text && c != '=' && c as int < 256 && IsBytes(text)
    ensures c !in TextOf(QP.Unit(text))
  {
    if text[0] == '=' && |text| > 2 {
      assert text[1] == '=' || text[1] in SPACE;
      assert HexValue(text[1]) == -1;
    }
  }

  /** A text without a colon has no fields. */
  lemma {:induction false} NoFields(fields: Fields, text: string)
    requires ':' !in text
    ensures ReadFields(fields, text) == fields
    decreases |text|
  {
    if text != [] {
      NoField(fields, TakeLine(text));
      hide ReadField;
      NoFields(fields, DropLine(text));
    }
  }

  lemma NoField(fields: Fields, line: string)
    requires ':' !in line
    ensures ReadField(fields, line) == fields
  {
    TrimKeeps(line, BLANKS);
    hide Trim;
    FindNoChar(Trim(line, BLANKS), ':');
  }

  lemma TrimKeeps(s: string, blanks: set<char>)
    ensures forall c :: c !in s ==> c !in Trim(s, blanks)
  {
  }

  lemma NothingRead(text: string, json: JsonReader)
    requires ':' !in text && '{' !in text
    ensures TryParse(text, json) == None
  {
    TrimKeeps(text, BLANKS);
    hide Trim;
    var trimmed := Trim(text, BLANKS);
    if trimmed != [] {
      assert trimmed[0] in trimmed;
      NoFields(map[], trimmed);
      NothingMeaningful();
    }
  }

  lemma NothingMeaningful()
    ensures var m := FromFields(map[]); m.Some? ==> !IsMeaningful(Normalized(m.value))
  {
    assert Split([], '/') == [] && ParseSubject([]) == None;
    assert QP.DecodeText([]) == [];
  }

  lemma LooseDecodes(text: string, bytes: seq<byte>)
    requires IsSection(text, bytes)
    ensures LooseBase64(text) == TextOf(bytes)
  {
    B.QuadsRoundTrip(bytes, B.STANDARD, B.LastTwo);
    NothingEncoded(bytes);
    hide B.Encode, B.DecodeQuads, B.Compact, TextOf, SPACE;
    assert TextOf([]) == [];
  }

  lemma NothingEncoded(bytes: seq<byte>)
    ensures B.Encode(bytes, B.STANDARD) == [] <==> bytes == []
    ensures |B.Encode(bytes, B.STANDARD)| % 4 == 0
  {
  }

  /** The last resort of the reader. */
  lemma LastResort(section: string, text: string, m: Metadata, json: JsonReader)
    requires TryParse(section, json) == None && TryParse(QP.DecodeText(section), json) == None
    requires LooseBase64(section) == text && text != [] && TryParse(text, json) == Some(m)
    ensures ParseCachedMetadataText(section, json) == Some(m)
  {
    hide TryParse, LooseBase64, QP.DecodeText;
  }

  /** A metadata section that is base64, broken into lines in any way, reads as the metadata it encodes. */
  lemma Base64SectionReads(section: string, m: Metadata, fileName: string, json: JsonReader)
    requires Mailable(m, fileName) && IsBytes(section)
    requires B.Compact(section, {' ', '\t', '\n', '\r', '\U{0B}', '\U{0C}'}) == B.Encode(BytesOf(ToLegacyText(m)), B.STANDARD)
    ensures ParseCachedMetadataText(section, json) == Some(m)
  {
    var text := ToLegacyText(m);
    assert IsSection(section, BytesOf(text));
    hide *;
    SectionChars(section, BytesOf(text));
    DecodingAddsNone(section, ':');
    DecodingAddsNone(section, '{');
    NothingRead(section, json);
    NothingRead(QP.DecodeText(section), json);
    LooseDecodes(section, BytesOf(text));
    MailableIsWritable(m, fileName);
    TextBack(m, fileName);
    ReadsItself(m, fileName, json);
    if text == [] { NothingRead(text, json); }
    LastResort(section, text, m, json);
  }

  ghost predicate PlainBytes(text: string) { '=' !in text && IsBytes(text) }

  lemma PlainText(text: string)
    requires PlainBytes(text)
    ensures QP.DecodeText(text) == text
  {
    QP.DecodePlain(text);
    TextOfBytes(text);
  }

  /** A section that begins with a brace is what the JSON reader makes of it. */
  lemma JsonSectionReads(section: string, m: Metadata, json: JsonReader)
    requires section != [] && section[0] == '{' && section[|section| - 1] == '}' && PlainBytes(section)
    requires json(section) == Some(m) && m.subject != []
    requires PlainBytes(m.subject) && PlainBytes(m.owner) && PlainBytes(m.localPath) && PlainBytes(m.mailFolder)
    ensures ParseCachedMetadataText(section, json) == Some(m)
  {
    TrimTrimmed(section, BLANKS);
    hide PlainBytes, QP.DecodeText, Trim, LooseBase64;
    PlainText(section);
    PlainText(m.subject);
    PlainText(m.owner);
    PlainText(m.localPath);
    PlainText(m.mailFolder);
    assert TryParse(section, json) == Some(m);
  }
}
