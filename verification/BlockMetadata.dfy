/** The metadata part of a mailed block: its text form, its subject line, and reading both back.
    The text is one line for each field, of which the reader takes the first of every key. The
    subject holds name, mode, position and count, separated by slashes. */
module BlockMetadata {
  import opened Basics
  import opened Text
  import opened Records

  const BLANKS: set<char> := {' ', '\t', '\r', '\n'}

  datatype Field = Field(key: string, value: string)
  type Fields = map<string, string>

  // ---------------------------------------------------------------------------------------
  // The text form

  function FieldLine(f: Field): string { f.key + [':'] + f.value }

  function FieldLines(fields: seq<Field>): string {
    if fields == [] then [] else FieldLine(fields[0]) + ['\r', '\n'] + FieldLines(fields[1..])
  }

  function FieldsOf(m: Metadata): seq<Field> {
    [Field("subject", m.subject), Field("filemd5", m.fileMd5), Field("blockmd5", m.blockMd5),
     Field("filesize", Decimal(m.fileSize)), Field("blocksize", Decimal(m.blockSize)),
     Field("createtime", m.createTime), Field("owner", m.owner),
     Field("localpath", m.localPath), Field("mailfolder", m.mailFolder)]
  }

  function ToLegacyText(m: Metadata): string { FieldLines(FieldsOf(m)) }

  /** One line of the text, and the lines after it. */
  function TextLine(key: string, value: string, rest: string): string { key + ":" + value + "\r\n" + rest }

  /** The form of the text. */
  lemma LegacyText(m: Metadata)
    ensures ToLegacyText(m) ==
            TextLine("subject", m.subject, TextLine("filemd5", m.fileMd5, TextLine("blockmd5", m.blockMd5,
            TextLine("filesize", Decimal(m.fileSize), TextLine("blocksize", Decimal(m.blockSize),
            TextLine("createtime", m.createTime, TextLine("owner", m.owner, TextLine("localpath", m.localPath,
            TextLine("mailfolder", m.mailFolder, [])))))))))
  {
    hide FieldLines, Decimal, TextLine;
    LastLines(m);
    var fs := FieldsOf(m);
    LinesFrom(fs, 0);
    LinesFrom(fs, 1);
    LinesFrom(fs, 2);
    LinesFrom(fs, 3);
    LinesFrom(fs, 4);
    assert fs[0..] == fs;
  }

  lemma LastLines(m: Metadata)
    ensures |FieldsOf(m)| == 9
    ensures FieldLines(FieldsOf(m)[5..]) ==
            TextLine("createtime", m.createTime, TextLine("owner", m.owner, TextLine("localpath", m.localPath,
            TextLine("mailfolder", m.mailFolder, []))))
  {
    hide FieldLines, Decimal, TextLine;
    var fs := FieldsOf(m);
    LinesFrom(fs, 5);
    LinesFrom(fs, 6);
    LinesFrom(fs, 7);
    LinesFrom(fs, 8);
    assert fs[9..] == [];
    NoLines();
  }

  lemma LinesFrom(fields: seq<Field>, i: nat)
    requires i < |fields|
    ensures FieldLines(fields[i..]) == TextLine(fields[i].key, fields[i].value, FieldLines(fields[i + 1..]))
  {
    assert fields[i..][1..] == fields[i + 1..];
    assert ":" == [':'] && "\r\n" == ['\r', '\n'];
  }

  lemma NoLines()
    ensures FieldLines([]) == []
  {
  }

  /** A line counts when it has a colon, and only the first line of each key. */
  function ReadField(fields: Fields, line: string): Fields {
    var text := Trim(line, BLANKS);
    var colon := Find(text, [':'], 0);
    if colon.None? then fields
    else
      var key := Trim(text[..colon.value], BLANKS);
      if key in fields then fields else fields[key := Trim(text[colon.value + 1..], BLANKS)]
  }

  function ReadFields(fields: Fields, text: string): Fields
    decreases |text|
  {
    if text == [] then fields else ReadFields(ReadField(fields, TakeLine(text)), DropLine(text))
  }

  method SplitFields(text: string) returns (fields: Fields)
    ensures fields == ReadFields(map[], text)
  {
    hide Trim, Find, TakeLine, DropLine, ReadField;
    fields := map[];
    var rest := text;
    while rest != []
      invariant ReadFields(fields, rest) == ReadFields(map[], text)
      decreases |rest|
    {
      ReadOneField(fields, rest);
      EmptyHasNoColon(Trim(TakeLine(rest), BLANKS));
      hide ReadFields;
      var line := Trim(TakeLine(rest), BLANKS);
      rest := DropLine(rest);
      var colon := Find(line, [':'], 0);
      if line == [] || colon.None? {
        continue;
      }
      var key := Trim(line[..colon.value], BLANKS);
      if key !in fields {
        fields := fields[key := Trim(line[colon.value + 1..], BLANKS)];
      }
    }
  }

  lemma EmptyHasNoColon(line: string)
    ensures line == [] ==> Find(line, [':'], 0).None?
  {
  }

  lemma ReadOneField(fields: Fields, text: string)
    requires text != []
    ensures ReadFields(fields, text) ==
            var line := Trim(TakeLine(text), BLANKS);
            var colon := Find(line, [':'], 0);
            if colon.None? then ReadFields(fields, DropLine(text))
            else
              var key := Trim(line[..colon.value], BLANKS);
              ReadFields(if key in fields then fields else fields[key := Trim(line[colon.value + 1..], BLANKS)], DropLine(text))
  {
    hide Trim, Find, TakeLine, DropLine;
  }

  function Value(fields: Fields, key: string): string { if key in fields then fields[key] else [] }

  /** A size that is missing or empty is zero; one that is no number raises. */
  function SizeOf(text: string): Option<nat> {
    if text == [] then Some(0) else ParseUnsigned(text)
  }

  /** The metadata that the fields spell out; `None` when a size raises. */
  function FromFields(fields: Fields): Option<Metadata> {
    var fileSize, blockSize := SizeOf(Value(fields, "filesize")), SizeOf(Value(fields, "blocksize"));
    if fileSize.None? || blockSize.None? then None
    else
      var subject := Value(fields, "subject");
      var info := ParseSubject(subject);
      Some(Metadata(
        subject, Value(fields, "filemd5"), Value(fields, "blockmd5"), fileSize.value, blockSize.value,
        Value(fields, "createtime"), Value(fields, "owner"), Value(fields, "localpath"), Value(fields, "mailfolder"),
        if info.Some? then info.value.number else 0,
        if info.Some? then info.value.count else 0,
        info.Some? && info.value.encrypted))
  }

  function FromLegacyText(text: string): Option<Metadata> { FromFields(ReadFields(map[], text)) }

  /** Missing sizes are zero, and a subject that cannot be read leaves position and count at zero. */
  lemma MissingValues(fields: Fields)
    requires "filesize" !in fields && "blocksize" !in fields && ParseSubject(Value(fields, "subject")) == None
    ensures var m := FromFields(fields);
            m.Some? && m.value.fileSize == m.value.blockSize == 0 && m.value.blockSeq == m.value.blockCount == 0 && !m.value.encrypted
  {
    hide ParseSubject;
  }

  // ---------------------------------------------------------------------------------------
  // Subjects

  datatype SubjectInfo = SubjectInfo(fileName: string, encrypted: bool, number: int, count: int)

  function Mode(encrypted: bool): string { if encrypted then "encrypted" else "plain" }

  function MakeSubject(fileName: string, encrypted: bool, number: int, count: int): string {
    fileName + ['/'] + (Mode(encrypted) + ['/'] + (IntText(number) + ['-'] + IntText(count)))
  }

  /** The form of a subject. */
  lemma SubjectText(fileName: string, encrypted: bool, number: nat, count: nat)
    ensures MakeSubject(fileName, encrypted, number, count) ==
            fileName + ("/" + (if encrypted then "encrypted" else "plain") + "/" + Decimal(number) + "-" + Decimal(count))
  {
    hide Decimal;
    var tail := "/" + (if encrypted then "encrypted" else "plain") + "/" + Decimal(number) + "-" + Decimal(count);
    assert tail == ['/'] + (Mode(encrypted) + ['/'] + (Decimal(number) + ['-'] + Decimal(count)));
  }

  /** `std::getline` with a delimiter: an empty last item is not an item. */
  function Split(s: string, delimiter: char): seq<string>
    decreases |s|
  {
    if s == [] then []
    else
      var at := Find(s, [delimiter], 0);
      if at.None? then [s] else [s[..at.value]] + Split(s[at.value + 1..], delimiter)
  }

  const INT_MAX: nat := 0x7fff_ffff

  /** `std::stoi` in base ten. */
  function ParseInt(text: string): Option<int> {
    var body := TrimLeft(text, SPACE);
    var signed := body != [] && (body[0] == '+' || body[0] == '-');
    var digits := DigitPrefix(if signed then body[1..] else body);
    if digits == [] then None
    else
      var magnitude: int := DigitsValue(digits);
      var n := if signed && body[0] == '-' then -magnitude else magnitude;
      if -(INT_MAX + 1) <= n <= INT_MAX then Some(n) else None
  }

  function ParseSubject(subject: string): Option<SubjectInfo> {
    var parts := Split(subject, '/');
    if |parts| != 3 then None
    else
      var numbers := Split(parts[2], '-');
      if |numbers| != 2 then None
      else
        var number, count := ParseInt(numbers[0]), ParseInt(numbers[1]);
        if number.None? || count.None? then None
        else Some(SubjectInfo(parts[0], parts[1] == "encrypted", number.value, count.value))
  }

  lemma SplitFirst(first: string, delimiter: char, rest: string)
    requires delimiter !in first
    ensures Split(first + [delimiter] + rest, delimiter) == [first] + Split(rest, delimiter)
  {
    var s := first + [delimiter] + rest;
    FindChar(first, delimiter, rest);
    assert s[..|first|] == first && s[|first| + 1..] == rest;
  }

  lemma SplitLast(last: string, delimiter: char)
    requires delimiter !in last && last != []
    ensures Split(last, delimiter) == [last]
  {
    FindNoChar(last, delimiter);
  }

  lemma IntOf(text: string, sign: string, digits: string)
    requires StartsNumber(text, sign, digits) && (sign == [] || sign == ['+'] || sign == ['-']) && AllDigits(digits)
    ensures ParseInt(text) ==
            var magnitude: int := DigitsValue(digits);
            if digits == [] then None
            else if sign == ['-'] then if magnitude <= 2147483648 then Some(-magnitude) else None
            else if magnitude <= 2147483647 then Some(magnitude) else None
  {
    hide TrimLeft, DigitPrefix, DigitsValue, SPACE, AllDigits;
    assert sign == ['-'] <==> sign != [] && sign[0] == '-';
  }

  /** Blanks are skipped, a sign is taken, what follows the digits is ignored; without digits, or with a
      value outside 32 bits, reading raises. */
  lemma ReadsInt(space: string, sign: string, digits: string, rest: string)
    requires NumberText(space, sign, digits, rest)
    ensures ParseInt(space + (sign + digits + rest)) ==
            var magnitude: int := DigitsValue(digits);
            if digits == [] then None
            else if sign == ['-'] then if magnitude <= 2147483648 then Some(-magnitude) else None
            else if magnitude <= 2147483647 then Some(magnitude) else None
  {
    NumberStarts(space, sign, digits, rest);
    hide ParseInt, StartsNumber, DigitsValue, SPACE, AllDigits;
    IntOf(space + (sign + digits + rest), sign, digits);
  }

  lemma ParseIntDecimal(n: nat)
    ensures ParseInt(Decimal(n)) == if n <= 2147483647 then Some(n) else None
  {
    var s := Decimal(n);
    ReadsInt([], [], s, []);
    assert [] + ([] + s + []) == s;
    DecimalValue(n);
  }

  lemma ModeHasNoSlash(encrypted: bool)
    ensures '/' !in Mode(encrypted) && (Mode(encrypted) == "encrypted" <==> encrypted)
  {
  }

  /** Whatever is put before a text and a delimiter, the parts of the text are not all there are. */
  lemma {:induction false} SplitMore(first: string, delimiter: char, rest: string)
    ensures |Split(first + [delimiter] + rest, delimiter)| > |Split(rest, delimiter)|
    decreases |first|
  {
    if at: nat :| at < |first| && first[at] == delimiter && delimiter !in first[..at] {
      var before, after := first[..at], first[at + 1..];
      assert first + [delimiter] + rest == before + [delimiter] + (after + [delimiter] + rest);
      SplitFirst(before, delimiter, after + [delimiter] + rest);
      SplitMore(after, delimiter, rest);
    } else {
      if delimiter in first { var at := FirstOccurrence(first, delimiter); }
      SplitFirst(first, delimiter, rest);
    }
  }

  lemma {:induction false} FirstOccurrence(s: string, c: char) returns (at: nat)
    requires c in s
    ensures at < |s| && s[at] == c && c !in s[..at]
  {
    if s[0] == c {
      at := 0;
    } else {
      var next := FirstOccurrence(s[1..], c);
      at := next + 1;
      assert s[..at] == [s[0]] + s[1..][..next];
    }
  }

  lemma TailSplits(encrypted: bool, number: nat, count: nat)
    ensures var numbers := Decimal(number) + ['-'] + Decimal(count);
            && Split(Mode(encrypted) + ['/'] + numbers, '/') == [Mode(encrypted), numbers]
            && Split(numbers, '-') == [Decimal(number), Decimal(count)]
  {
    hide Split, Mode;
    var numbers := Decimal(number) + ['-'] + Decimal(count);
    DigitsExclude(Decimal(number), '-');
    DigitsExclude(Decimal(count), '-');
    DigitsExclude(Decimal(number), '/');
    DigitsExclude(Decimal(count), '/');
    ModeHasNoSlash(encrypted);
    SplitFirst(Mode(encrypted), '/', numbers);
    SplitLast(numbers, '/');
    SplitFirst(Decimal(number), '-', Decimal(count));
    SplitLast(Decimal(count), '-');
  }

  /** Name, mode and position come back from a subject exactly when the file name has no slash and both
      numbers fit 32 bits; any other subject is refused. */
  lemma SubjectRoundTrip(fileName: string, encrypted: bool, number: nat, count: nat)
    ensures ParseSubject(MakeSubject(fileName, encrypted, number, count)) ==
            if '/' !in fileName && number <= 2147483647 && count <= 2147483647
            then Some(SubjectInfo(fileName, encrypted, number, count)) else None
  {
    hide Split, ParseInt, Mode;
    var tail := Mode(encrypted) + ['/'] + (Decimal(number) + ['-'] + Decimal(count));
    TailSplits(encrypted, number, count);
    ModeHasNoSlash(encrypted);
    assert MakeSubject(fileName, encrypted, number, count) == fileName + ['/'] + tail;
    if '/' in fileName {
      var at := FirstOccurrence(fileName, '/');
      var before, after := fileName[..at], fileName[at + 1..];
      assert fileName + ['/'] + tail == before + ['/'] + (after + ['/'] + tail);
      SplitFirst(before, '/', after + ['/'] + tail);
      SplitMore(after, '/', tail);
    } else {
      SplitFirst(fileName, '/', tail);
      ParseIntDecimal(number);
      ParseIntDecimal(count);
    }
  }

  // ---------------------------------------------------------------------------------------
  // Round trip of the text form

  ghost predicate GoodValue(v: string) { OneLine(v) && Trimmed(v, BLANKS) }

  ghost predicate GoodField(f: Field) {
    f.key != [] && ':' !in f.key && GoodValue(f.key) && GoodValue(f.value)
  }

  ghost predicate GoodFields(fields: seq<Field>) {
    forall i :: 0 <= i < |fields| ==> GoodField(fields[i])
  }

  /** The map that the lines spell out: of each key the first value. */
  function FirstOf(fields: Fields, more: seq<Field>): Fields
    decreases |more|
  {
    if more == [] then fields
    else FirstOf(if more[0].key in fields then fields else fields[more[0].key := more[0].value], more[1..])
  }

  lemma ReadGoodField(fields: Fields, f: Field, end: string)
    requires GoodField(f) && (end == [] || end == ['\r'])
    ensures ReadField(fields, FieldLine(f) + end) == if f.key in fields then fields else fields[f.key := f.value]
  {
    hide Find, Trim;
    TrimFieldLine(f, end);
    FindChar(f.key, ':', f.value);
    var line := FieldLine(f);
    assert line[..|f.key|] == f.key && line[|f.key| + 1..] == f.value;
    TrimTrimmed(f.key, BLANKS);
    TrimTrimmed(f.value, BLANKS);
  }

  lemma TrimFieldLine(f: Field, end: string)
    requires GoodField(f) && (end == [] || end == ['\r'])
    ensures Trim(FieldLine(f) + end, BLANKS) == FieldLine(f)
  {
    var line := FieldLine(f);
    assert line[0] == f.key[0];
    assert line[|line| - 1] == if f.value == [] then ':' else f.value[|f.value| - 1];
    assert TrimRight(line, BLANKS) == line;
    if end == ['\r'] {
      assert (line + end)[..|line|] == line;
    } else {
      assert line + end == line;
    }
  }

  lemma {:induction false} ReadGoodFields(fields: Fields, more: seq<Field>)
    requires more != [] && GoodFields(more)
    ensures |FieldLines(more)| >= 2
    ensures ReadFields(fields, FieldLines(more)[..|FieldLines(more)| - 2]) == FirstOf(fields, more)
    decreases |more|
  {
    hide ReadField, TakeLine, DropLine, FieldLine, GoodField;
    var f, others := more[0], more[1..];
    var text := FieldLines(more)[..|FieldLines(more)| - 2];
    var next := if f.key in fields then fields else fields[f.key := f.value];
    FieldLineGood(f);
    if others == [] {
      assert FieldLines(others) == [] && FieldLines(more) == FieldLine(f) + ['\r', '\n'];
      assert text == FieldLine(f) && FieldLine(f) + [] == FieldLine(f);
      LastLine(text);
      ReadGoodField(fields, f, []);
      assert ReadFields(fields, text) == next;
      assert FirstOf(next, others) == next;
    } else {
      FieldLinesLong(others);
      var rest := FieldLines(others)[..|FieldLines(others)| - 2];
      assert text == FieldLine(f) + ['\r'] + ['\n'] + rest;
      NextLine(FieldLine(f) + ['\r'], rest);
      ReadGoodField(fields, f, ['\r']);
      ReadGoodFields(next, others);
    }
  }

  lemma FieldLineGood(f: Field)
    requires GoodField(f)
    ensures OneLine(FieldLine(f)) && FieldLine(f) != [] && '\n' !in FieldLine(f) + ['\r']
  {
  }

  lemma FieldLinesLong(fields: seq<Field>)
    requires fields != []
    ensures |FieldLines(fields)| >= 2
  {
  }

  /** Trimming the whole text takes away its last line end and nothing else. */
  lemma {:induction false} TrimFieldLines(fields: seq<Field>)
    requires fields != [] && GoodFields(fields)
    ensures |FieldLines(fields)| >= 2
    ensures Trim(FieldLines(fields), BLANKS) == FieldLines(fields)[..|FieldLines(fields)| - 2]
  {
    hide FieldLines, GoodFields;
    FieldLinesLong(fields);
    FieldLinesEnd(fields);
    TrimEnd(FieldLines(fields));
  }

  lemma TrimEnd(text: string)
    requires |text| > 2 && text[|text| - 2..] == ['\r', '\n'] && text[|text| - 3] !in BLANKS && text[0] !in BLANKS
    ensures Trim(text, BLANKS) == text[..|text| - 2]
  {
    var body, most := text[..|text| - 2], text[..|text| - 1];
    assert text[|text| - 1] == text[|text| - 2..][1] && text[|text| - 2] == text[|text| - 2..][0];
    assert most[..|most| - 1] == body && most[|most| - 1] == '\r';
    assert TrimRight(text, BLANKS) == TrimRight(most, BLANKS);
    assert TrimRight(most, BLANKS) == TrimRight(body, BLANKS);
    assert TrimRight(body, BLANKS) == body;
  }

  lemma {:induction false} FieldLinesEnd(fields: seq<Field>)
    requires fields != [] && GoodFields(fields)
    ensures var text := FieldLines(fields);
            && |text| > 2 && text[|text| - 2..] == ['\r', '\n'] && text[|text| - 3] !in BLANKS
            && text[0] == fields[0].key[0] && text[0] !in BLANKS
  {
    var text, line := FieldLines(fields), FieldLine(fields[0]);
    if |fields| == 1 {
      assert FieldLines(fields[1..]) == [];
      assert text == line + ['\r', '\n'];
      assert line[|line| - 1] !in BLANKS by {
        assert line[|line| - 1] == if fields[0].value == [] then ':' else fields[0].value[|fields[0].value| - 1];
      }
    } else {
      FieldLinesEnd(fields[1..]);
      assert text == line + ['\r', '\n'] + FieldLines(fields[1..]);
    }
  }

  // ---------------------------------------------------------------------------------------
  // Metadata

  /** Metadata that its text form can carry: single-line trimmed fields, sizes of 64 bits, and a
      subject that says what the other fields say. */
  ghost predicate Portable(m: Metadata, fileName: string) {
    && GoodValue(m.subject) && GoodValue(m.fileMd5) && GoodValue(m.blockMd5) && GoodValue(m.createTime)
    && GoodValue(m.owner) && GoodValue(m.localPath) && GoodValue(m.mailFolder)
    && m.fileSize < TWO_64 && m.blockSize < TWO_64
    && '/' !in fileName && 0 <= m.blockSeq <= INT_MAX && 0 <= m.blockCount <= INT_MAX
    && m.subject == MakeSubject(fileName, m.encrypted, m.blockSeq, m.blockCount)
  }

  lemma DecimalGood(n: nat)
    ensures GoodValue(Decimal(n))
  {
    var s := Decimal(n);
    assert IsDigit(s[0]) && IsDigit(s[|s| - 1]);
    DigitsExclude(s, '\r');
    DigitsExclude(s, '\n');
  }

  lemma KeyGood(key: string)
    requires key in {"subject", "filemd5", "blockmd5", "filesize", "blocksize", "createtime", "owner", "localpath", "mailfolder"}
    ensures key != [] && ':' !in key && GoodValue(key)
  {
  }

  lemma FieldsGood(m: Metadata, fileName: string)
    requires Portable(m, fileName)
    ensures GoodFields(FieldsOf(m))
  {
    hide GoodValue;
    DecimalGood(m.fileSize);
    DecimalGood(m.blockSize);
    forall i | 0 <= i < |FieldsOf(m)|
      ensures GoodField(FieldsOf(m)[i])
    {
      KeyGood(FieldsOf(m)[i].key);
    }
  }

  /** The value under a key is that of the first field with it. */
  lemma {:induction false} ValueOfFirst(fields: Fields, more: seq<Field>, i: nat)
    requires i < |more| && more[i].key !in fields
    requires forall j :: 0 <= j < i ==> more[j].key != more[i].key
    ensures Value(FirstOf(fields, more), more[i].key) == more[i].value
    decreases i
  {
    var next := if more[0].key in fields then fields else fields[more[0].key := more[0].value];
    if i == 0 {
      FirstStays(next, more[1..], more[0].key);
    } else {
      assert more[1..][i - 1] == more[i];
      ValueOfFirst(next, more[1..], i - 1);
    }
  }

  lemma {:induction false} FirstStays(fields: Fields, more: seq<Field>, key: string)
    requires key in fields
    ensures key in FirstOf(fields, more) && FirstOf(fields, more)[key] == fields[key]
    decreases |more|
  {
    if more != [] {
      FirstStays(if more[0].key in fields then fields else fields[more[0].key := more[0].value], more[1..], key);
    }
  }

  /** The keys differ from one another: in length, or in their first letter. */
  lemma KeysDiffer(m: Metadata, i: nat, j: nat)
    requires j < i < 9
    ensures FieldsOf(m)[j].key != FieldsOf(m)[i].key
  {
    var a, b := FieldsOf(m)[j].key, FieldsOf(m)[i].key;
    assert |a| != |b| || a[0] != b[0];
  }

  lemma FieldValue(m: Metadata, i: nat)
    requires i < 9
    ensures Value(FirstOf(map[], FieldsOf(m)), FieldsOf(m)[i].key) == FieldsOf(m)[i].value
  {
    hide FieldsOf;
    FieldCount(m);
    forall j: nat | j < i
      ensures FieldsOf(m)[j].key != FieldsOf(m)[i].key
    {
      KeysDiffer(m, i, j);
    }
    ValueOfFirst(map[], FieldsOf(m), i);
  }

  lemma FieldCount(m: Metadata)
    ensures |FieldsOf(m)| == 9
  {
  }

  lemma FieldValues(m: Metadata, fields: Fields)
    requires fields == FirstOf(map[], FieldsOf(m))
    ensures Value(fields, "subject") == m.subject && Value(fields, "filemd5") == m.fileMd5
    ensures Value(fields, "blockmd5") == m.blockMd5 && Value(fields, "filesize") == Decimal(m.fileSize)
    ensures Value(fields, "blocksize") == Decimal(m.blockSize) && Value(fields, "createtime") == m.createTime
    ensures Value(fields, "owner") == m.owner && Value(fields, "localpath") == m.localPath
    ensures Value(fields, "mailfolder") == m.mailFolder
  {
    hide FirstOf, Value, Decimal;
    FieldValue(m, 0);
    FieldValue(m, 1);
    FieldValue(m, 2);
    FieldValue(m, 3);
    FieldValue(m, 4);
    FieldValue(m, 5);
    FieldValue(m, 6);
    FieldValue(m, 7);
    FieldValue(m, 8);
  }

  lemma SizeOfDecimal(n: nat)
    requires n < TWO_64
    ensures SizeOf(Decimal(n)) == Some(n)
  {
    hide ParseUnsigned;
    ParseUnsignedDecimal(n);
  }

  /** Metadata survives its text form, with position and mode read from the subject. */
  lemma LegacyRoundTrip(m: Metadata, fileName: string)
    requires Portable(m, fileName)
    ensures FromLegacyText(Trim(ToLegacyText(m), BLANKS)) == Some(m)
  {
    FieldsGood(m, fileName);
    SizeOfDecimal(m.fileSize);
    SizeOfDecimal(m.blockSize);
    SubjectRoundTrip(fileName, m.encrypted, m.blockSeq, m.blockCount);
    hide ReadFields, GoodField, FieldLines, Value, ParseSubject, MakeSubject, SizeOf, Trim, FirstOf;
    var fields := FieldsOf(m);
    FieldCount(m);
    TrimFieldLines(fields);
    ReadGoodFields(map[], fields);
    FieldValues(m, FirstOf(map[], fields));
  }
}
