/** Metadata text that is decoded from quoted-printable although it was not encoded, and then read.

    Decoding can shorten a value, join its line to the next one, or make new lines out of one. The
    argument that some value then differs counts the escape characters. */
module EscapedMetadata {
  import opened Basics
  import opened Text
  import opened Records
  import opened BlockMetadata
  import QP = QuotedPrintable

  const BREAK: string := ['\r', '\n']

  // ---------------------------------------------------------------------------------------
  // Reading line by line

  lemma ReadsLine(fields: Fields, line: string, rest: string)
    requires '\n' !in line
    ensures ReadFields(fields, line + ['\n'] + rest) == ReadFields(ReadField(fields, line), rest)
  {
    hide ReadField, TakeLine, DropLine;
    NextLine(line, rest);
  }

  lemma ReadsLast(fields: Fields, line: string)
    requires '\n' !in line
    ensures ReadFields(fields, line) == ReadField(fields, line)
  {
    hide TakeLine, DropLine;
    if line == [] {
      EmptyHasNoColon(line);
      TrimTrimmed(line, BLANKS);
    } else {
      LastLine(line);
    }
  }

  /** The first line and what follows it. */
  lemma SplitLine(text: string) returns (line: string, rest: string)
    requires '\n' in text
    ensures '\n' !in line && text == line + ['\n'] + rest
  {
    var at := Find(text, ['\n'], 0);
    if at.None? {
      var i :| 0 <= i < |text| && text[i] == '\n';
      assert text[i..i + 1] == ['\n'];
      assert MatchAt(text, ['\n'], i);
    }
    line, rest := text[..at.value], text[at.value + 1..];
    forall i | 0 <= i < |line|
      ensures line[i] != '\n'
    {
      assert text[i..i + 1] == [text[i]];
      assert !MatchAt(text, ['\n'], i);
    }
    assert text[at.value..at.value + 1] == ['\n'];
    assert text[at.value] == '\n';
  }

  lemma TrimBlank(line: string, c: char)
    requires c in BLANKS
    ensures Trim(line + [c], BLANKS) == Trim(line, BLANKS)
  {
    assert (line + [c])[..|line|] == line;
  }

  lemma {:induction false} ReadsBlank(fields: Fields, text: string, c: char)
    requires c in BLANKS
    ensures ReadFields(fields, text + [c]) == ReadFields(fields, text)
    decreases |text|
  {
    hide Trim, Find, TakeLine, DropLine, ReadFields;
    if '\n' in text {
      var line, rest := SplitLine(text);
      assert text + [c] == line + ['\n'] + (rest + [c]);
      ReadsLine(fields, line, rest);
      ReadsLine(fields, line, rest + [c]);
      ReadsBlank(ReadField(fields, line), rest, c);
    } else {
      ReadsLast(fields, text);
      if c == '\n' {
        assert text + [c] == text + ['\n'] + [];
        ReadsLine(fields, text, []);
        ReadsNothing(ReadField(fields, text));
      } else {
        ReadsLast(fields, text + [c]);
        TrimBlank(text, c);
      }
    }
  }

  lemma ReadsNothing(fields: Fields)
    ensures ReadFields(fields, []) == fields
  {
  }

  /** Blanks at the end of the whole text make no difference. */
  lemma {:induction false} ReadsTrimmed(fields: Fields, text: string)
    ensures ReadFields(fields, TrimRight(text, BLANKS)) == ReadFields(fields, text)
    decreases |text|
  {
    hide ReadFields;
    if text != [] && text[|text| - 1] in BLANKS {
      var init := text[..|text| - 1];
      assert text == init + [text[|text| - 1]];
      ReadsBlank(fields, init, text[|text| - 1]);
      ReadsTrimmed(fields, init);
    }
  }

  /** Good lines at the beginning are read as they are. */
  lemma {:induction false} GoodLinesRead(fields: Fields, more: seq<Field>, rest: string)
    requires GoodFields(more)
    ensures ReadFields(fields, FieldLines(more) + rest) == ReadFields(FirstOf(fields, more), rest)
    decreases |more|
  {
    hide ReadField, ReadFields, GoodField;
    if more == [] {
      assert FieldLines(more) + rest == rest;
    } else {
      var f, others := more[0], more[1..];
      FieldLineGood(f);
      var line, text := FieldLine(f) + ['\r'], FieldLines(others) + rest;
      assert FieldLines(more) + rest == line + ['\n'] + text;
      ReadsLine(fields, line, text);
      ReadGoodField(fields, f, ['\r']);
      GoodLinesRead(if f.key in fields then fields else fields[f.key := f.value], others, rest);
    }
  }

  lemma {:induction false} KeyStays(fields: Fields, text: string, key: string)
    requires key in fields
    ensures key in ReadFields(fields, text) && ReadFields(fields, text)[key] == fields[key]
    decreases |text|
  {
    hide Trim, Find, TakeLine, DropLine;
    if text != [] {
      KeyStays(ReadField(fields, TakeLine(text)), DropLine(text), key);
    }
  }

  // ---------------------------------------------------------------------------------------
  // An escape makes a value shorter

  ghost predicate GoodName(key: string) { key != [] && ':' !in key && GoodValue(key) && '=' !in key }

  lemma TrimmedIsSlice(s: string, blanks: set<char>) returns (i: nat, j: nat)
    ensures i <= j <= |s| && Trim(s, blanks) == s[i..j]
    ensures s != [] && s[|s| - 1] in blanks ==> |Trim(s, blanks)| < |s|
  {
    var r := TrimRight(s, blanks);
    var t := TrimLeft(r, blanks);
    if t == [] {
      i, j := 0, 0;
    } else {
      i, j := |r| - |t|, |r|;
      assert r == s[..j];
    }
  }

  lemma {:induction false} TrimRightTwice(e: string)
    ensures TrimRight(TrimRight(e, BLANKS), BLANKS) == TrimRight(e, BLANKS)
  {
    var r := TrimRight(e, BLANKS);
    if r != [] { assert r[|r| - 1] !in BLANKS; }
  }

  lemma TrimKeyLine(key: string, e: string)
    requires GoodName(key)
    ensures Trim(key + [':'] + e, BLANKS) == key + [':'] + TrimRight(e, BLANKS)
  {
    TrimRightAfter(key + [':'], e, BLANKS);
    var text := key + [':'] + TrimRight(e, BLANKS);
    assert text[0] == key[0];
  }

  lemma ReadKeyLine(fields: Fields, key: string, e: string)
    requires GoodName(key)
    ensures ReadField(fields, key + [':'] + e) == if key in fields then fields else fields[key := Trim(e, BLANKS)]
  {
    var r := TrimRight(e, BLANKS);
    TrimKeyLine(key, e);
    TrimRightTwice(e);
    FindChar(key, ':', r);
    TrimTrimmed(key, BLANKS);
    assert Trim(r, BLANKS) == Trim(e, BLANKS);
    hide Find, Trim, TrimRight, TrimLeft;
    var text := key + [':'] + r;
    assert text[..|key|] == key && text[|key| + 1..] == r;
  }

  /** The value of a key that the first line defines is no longer than what the line holds. */
  lemma FirstValueShort(fields: Fields, key: string, d: string, rest: string)
    requires GoodName(key) && key !in fields
    ensures |Value(ReadFields(fields, key + [':'] + d + BREAK + rest), key)| <= |d|
  {
    hide ReadFields, ReadField, Trim;
    var text := key + [':'] + d + BREAK + rest;
    var e, after := FirstLineOf(d, rest);
    var line := key + [':'] + e;
    assert text == key + [':'] + (d + BREAK + rest);
    assert text == line + ['\n'] + after;
    ReadsLine(fields, line, after);
    ReadKeyLine(fields, key, e);
    KeyStays(ReadField(fields, line), after, key);
    var i, j := TrimmedIsSlice(e, BLANKS);
  }

  lemma FirstLineOf(d: string, rest: string) returns (e: string, after: string)
    ensures '\n' !in e && d + BREAK + rest == e + ['\n'] + after
    ensures |e| <= |d| || (|e| == |d| + 1 && e[|d|] == '\r')
  {
    if '\n' in d {
      var tail;
      e, tail := SplitLine(d);
      after := tail + BREAK + rest;
    } else {
      e, after := d + ['\r'], rest;
    }
  }

  /** What a decoded line leaves under its key is shorter than the value when that has an escape. */
  lemma EscapedValueShort(fields: Fields, f: Field, rest: string)
    requires GoodName(f.key) && f.key !in fields && OneLine(f.value) && QP.HasEscape(f.value) && !QP.EndsSoft(f.value)
    requires IsBytes(f.key)
    ensures |Value(ReadFields(fields, QP.DecodeText(FieldLine(f) + BREAK + rest)), f.key)| < |f.value|
  {
    hide ReadFields, ReadField, QP.Decode, GoodName, QP.HasEscape, QP.EndsSoft;
    DecodedLine(f, rest);
    FirstValueShort(fields, f.key, QP.DecodeText(f.value), QP.DecodeText(rest));
    EscapeShortens(f.value);
  }

  lemma EscapeShortens(s: string)
    requires QP.HasEscape(s)
    ensures |QP.DecodeText(s)| < |s|
  {
    var i: nat :| i < |s| && QP.EscapeAt(s, i);
    QP.DecodeShortens(s, i);
  }

  lemma DecodedLine(f: Field, rest: string)
    requires GoodName(f.key) && IsBytes(f.key) && OneLine(f.value) && !QP.EndsSoft(f.value)
    ensures QP.DecodeText(FieldLine(f) + BREAK + rest) ==
            f.key + [':'] + QP.DecodeText(f.value) + BREAK + QP.DecodeText(rest)
  {
    hide QP.Decode, QP.EndsSoft;
    var head := f.key + [':'];
    assert '=' !in head;
    assert FieldLine(f) + BREAK + rest == head + (f.value + BREAK + rest);
    QP.DecodeAfter(head, f.value + BREAK + rest);
    QP.DecodeLine(f.value, rest);
    TextOfBytes(head);
  }

  // ---------------------------------------------------------------------------------------
  // Counting the escape character

  /** How many `=` the values of these keys have. */
  function Tally(fields: Fields, more: seq<Field>): nat {
    if more == [] then 0 else QP.Equals(Value(fields, more[0].key)) + Tally(fields, more[1..])
  }

  function Needed(more: seq<Field>): nat {
    if more == [] then 0 else QP.Equals(more[0].value) + Needed(more[1..])
  }

  ghost predicate DistinctKeys(more: seq<Field>) {
    forall i, j :: 0 <= i < j < |more| ==> more[i].key != more[j].key
  }

  lemma {:induction false} TallyAbsent(fields: Fields, more: seq<Field>, key: string, v: string)
    requires forall i :: 0 <= i < |more| ==> more[i].key != key
    ensures Tally(fields[key := v], more) == Tally(fields, more)
  {
    if more != [] {
      assert more[0].key != key;
      forall i | 0 <= i < |more[1..]|
        ensures more[1..][i].key != key
      {
        assert more[1..][i] == more[i + 1];
      }
      TallyAbsent(fields, more[1..], key, v);
    }
  }

  lemma {:induction false} TallyAdd(fields: Fields, more: seq<Field>, key: string, v: string)
    requires DistinctKeys(more) && key !in fields
    ensures Tally(fields[key := v], more) <= Tally(fields, more) + QP.Equals(v)
  {
    if more != [] {
      if more[0].key == key {
        TallyAbsent(fields, more[1..], key, v);
      } else {
        TallyAdd(fields, more[1..], key, v);
      }
    }
  }

  lemma TallyLine(fields: Fields, more: seq<Field>, line: string)
    requires DistinctKeys(more)
    ensures Tally(ReadField(fields, line), more) <= Tally(fields, more) + QP.Equals(line)
  {
    hide Trim, QP.Equals, Tally;
    var text := Trim(line, BLANKS);
    var i, j := TrimmedIsSlice(line, BLANKS);
    QP.EqualsSlice(line, i, j);
    var colon := Find(text, [':'], 0);
    if colon.Some? {
      var key, after := Trim(text[..colon.value], BLANKS), text[colon.value + 1..];
      if key !in fields {
        var k, l := TrimmedIsSlice(after, BLANKS);
        QP.EqualsSlice(after, k, l);
        QP.EqualsSlice(text, colon.value + 1, |text|);
        assert text[colon.value + 1..|text|] == after;
        TallyAdd(fields, more, key, Trim(after, BLANKS));
      }
    }
  }

  /** Reading makes no `=` either. */
  lemma {:induction false} TallyRead(fields: Fields, more: seq<Field>, text: string)
    requires DistinctKeys(more)
    ensures Tally(ReadFields(fields, text), more) <= Tally(fields, more) + QP.Equals(text)
    decreases |text|
  {
    hide ReadField, QP.Equals, Tally, ReadFields;
    if '\n' in text {
      var line, rest := SplitLine(text);
      ReadsLine(fields, line, rest);
      TallyLine(fields, more, line);
      TallyRead(ReadField(fields, line), more, rest);
      QP.EqualsConcat(line + ['\n'], rest);
      QP.EqualsConcat(line, ['\n']);
    } else {
      ReadsLast(fields, text);
      TallyLine(fields, more, text);
    }
  }

  lemma {:induction false} TallyNothing(more: seq<Field>)
    ensures Tally(map[], more) == 0
  {
    if more != [] {
      TallyNothing(more[1..]);
    }
  }

  lemma {:induction false} LinesEquals(more: seq<Field>)
    requires forall i :: 0 <= i < |more| ==> '=' !in more[i].key
    ensures QP.Equals(FieldLines(more)) == Needed(more)
  {
    if more != [] {
      hide QP.Equals;
      var f, rest := more[0], FieldLines(more[1..]);
      LinesEquals(more[1..]);
      assert FieldLines(more) == f.key + [':'] + f.value + BREAK + rest;
      QP.EqualsConcat(f.key + [':'] + f.value + BREAK, rest);
      QP.EqualsConcat(f.key + [':'] + f.value, BREAK);
      QP.EqualsConcat(f.key + [':'], f.value);
      QP.NoEquals(f.key + [':']);
      QP.NoEquals(BREAK);
    }
  }

  lemma {:induction false} SoftInLines(more: seq<Field>, k: nat) returns (i: nat)
    requires k < |more| && QP.EndsSoft(more[k].value)
    ensures QP.SoftAt(FieldLines(more), i)
    decreases k
  {
    var line, rest := FieldLine(more[0]), FieldLines(more[1..]);
    assert FieldLines(more) == line + BREAK + rest;
    if k == 0 {
      i := |line| - 1;
      assert line[i] == more[0].value[|more[0].value| - 1];
    } else {
      i := SoftInLines(more[1..], k - 1);
      i := i + |line| + 2;
    }
  }

  /** Some value has fewer than it should. */
  lemma {:induction false} FewerSomewhere(fields: Fields, more: seq<Field>) returns (k: nat)
    requires Tally(fields, more) < Needed(more)
    ensures k < |more| && QP.Equals(Value(fields, more[k].key)) < QP.Equals(more[k].value)
  {
    if QP.Equals(Value(fields, more[0].key)) < QP.Equals(more[0].value) {
      k := 0;
    } else {
      k := FewerSomewhere(fields, more[1..]);
      k := k + 1;
    }
  }

  // ---------------------------------------------------------------------------------------
  // What is read is not what was written

  /** Fields as the text form has them: names without escapes, values of one line. */
  ghost predicate Written(more: seq<Field>) {
    && GoodFields(more) && DistinctKeys(more)
    && forall i :: 0 <= i < |more| ==> GoodName(more[i].key) && IsBytes(more[i].key) && IsBytes(more[i].value)
  }

  /** The field reads as its value, be it that the value is decoded once more. */
  ghost predicate ReadAs(fields: Fields, f: Field) {
    Value(fields, f.key) == f.value || QP.DecodeText(Value(fields, f.key)) == f.value
  }

  function Reread(fields: Fields, more: seq<Field>): Fields { ReadFields(fields, QP.DecodeText(FieldLines(more))) }

  ghost predicate AllHarmless(more: seq<Field>) { forall i :: 0 <= i < |more| ==> QP.Harmless(more[i].value) }

  lemma LineBytes(f: Field)
    requires IsBytes(f.key) && IsBytes(f.value)
    ensures IsBytes(FieldLine(f)) && IsBytes(FieldLine(f) + BREAK)
  {
    assert forall i :: 0 <= i < |FieldLine(f)| ==> FieldLine(f)[i] as int < 256;
  }

  lemma {:induction false} LinesBytes(more: seq<Field>)
    requires forall i :: 0 <= i < |more| ==> IsBytes(more[i].key) && IsBytes(more[i].value)
    ensures IsBytes(FieldLines(more))
  {
    if more != [] {
      LinesBytes(more[1..]);
      LineBytes(more[0]);
    }
  }

  /** Harmless lines at the beginning stay as they are. */
  lemma HarmlessLine(f: Field, rest: string)
    requires GoodField(f) && GoodName(f.key) && IsBytes(f.key) && IsBytes(f.value) && QP.Harmless(f.value)
    ensures QP.DecodeText(FieldLine(f) + BREAK + rest) == FieldLine(f) + BREAK + QP.DecodeText(rest)
  {
    hide QP.Decode, GoodName;
    DecodedLine(f, rest);
    QP.DecodeUnescaped(f.value);
    TextOfBytes(f.value);
  }

  lemma {:induction false} HarmlessLines(more: seq<Field>, rest: string)
    requires Written(more) && AllHarmless(more)
    ensures QP.DecodeText(FieldLines(more) + rest) == FieldLines(more) + QP.DecodeText(rest)
  {
    hide QP.DecodeText, QP.Harmless, GoodName, GoodField, FieldLine;
    if more == [] {
      assert [] + rest == rest && [] + QP.DecodeText(rest) == QP.DecodeText(rest);
    } else {
      var tail := FieldLines(more[1..]);
      assert FieldLines(more) + rest == FieldLine(more[0]) + BREAK + (tail + rest);
      HarmlessLine(more[0], tail + rest);
      HarmlessLines(more[1..], rest);
    }
  }

  lemma HarmlessText(more: seq<Field>)
    requires Written(more) && AllHarmless(more)
    ensures QP.DecodeText(FieldLines(more)) == FieldLines(more)
  {
    hide FieldLines;
    HarmlessLines(more, []);
    assert FieldLines(more) + [] == FieldLines(more) && QP.DecodeText([]) == [];
  }

  lemma RestWritten(more: seq<Field>)
    requires more != [] && Written(more)
    ensures Written(more[1..]) && forall i :: 0 < i < |more| ==> more[i].key != more[0].key
  {
    hide GoodField, GoodName;
  }

  /** Where no line ends in an `=`, the first escaped value is read as a shorter one. */
  lemma {:induction false} FirstEscaped(fields: Fields, more: seq<Field>) returns (k: nat)
    requires Written(more) && !AllHarmless(more)
    requires forall i :: 0 <= i < |more| ==> !QP.EndsSoft(more[i].value) && more[i].key !in fields
    ensures k < |more| && QP.HasEscape(more[k].value)
    ensures |Value(Reread(fields, more), more[k].key)| < |more[k].value|
    decreases |more|
  {
    hide GoodField, GoodName, ReadFields, QP.DecodeText, FieldLine, QP.HasEscape, QP.EndsSoft, ReadField, Value;
    var f, others := more[0], more[1..];
    RestWritten(more);
    assert FieldLines(more) == FieldLine(f) + BREAK + FieldLines(others);
    FieldOneLine(f);
    if QP.HasEscape(f.value) {
      k := 0;
      EscapedValueShort(fields, f, FieldLines(others));
    } else {
      var next := fields[f.key := f.value];
      HarmlessLine(f, FieldLines(others));
      assert FieldLine(f) + BREAK + QP.DecodeText(FieldLines(others)) == (FieldLine(f) + ['\r']) + ['\n'] + QP.DecodeText(FieldLines(others));
      FieldLineGood(f);
      ReadsLine(fields, FieldLine(f) + ['\r'], QP.DecodeText(FieldLines(others)));
      ReadGoodField(fields, f, ['\r']);
      assert !AllHarmless(others) by {
        if AllHarmless(others) { HarmlessFirst(more); }
      }
      k := FirstEscaped(next, others);
      k := k + 1;
    }
  }

  lemma FieldOneLine(f: Field)
    requires GoodField(f)
    ensures OneLine(f.value)
  {
  }

  lemma HarmlessFirst(more: seq<Field>)
    requires more != [] && QP.Harmless(more[0].value) && AllHarmless(more[1..])
    ensures AllHarmless(more)
  {
    hide QP.Harmless;
    forall i | 0 <= i < |more|
      ensures QP.Harmless(more[i].value)
    {
      if i > 0 { assert more[i] == more[1..][i - 1]; }
    }
  }

  lemma EscapeIsEquals(s: string)
    requires QP.HasEscape(s) || QP.EndsSoft(s)
    ensures '=' in s
  {
  }

  /** A text with a harmful value, decoded and read, has another value somewhere. */
  lemma RereadDiffers(more: seq<Field>) returns (k: nat)
    requires Written(more) && !AllHarmless(more)
    ensures k < |more| && '=' in more[k].value && !ReadAs(Reread(map[], more), more[k])
  {
    hide GoodField, GoodName, ReadFields, QP.Decode, FieldLine, FieldLines, QP.HasEscape, QP.EndsSoft, Value, Tally, Needed, QP.Equals;
    var text := FieldLines(more);
    var read := Reread(map[], more);
    if soft: nat :| soft < |more| && QP.EndsSoft(more[soft].value) {
      var i := SoftInLines(more, soft);
      LinesBytes(more);
      QP.SoftBreakEquals(text, i);
      LinesEqualsOf(more);
      TallyRead(map[], more, QP.DecodeText(text));
      TallyNothing(more);
      k := FewerSomewhere(read, more);
      SomeEquals(more[k].value);
      ValueBytes(map[], QP.DecodeText(text), more[k].key);
      QP.DecodeEquals(Value(read, more[k].key));
    } else {
      k := FirstEscaped(map[], more);
      EscapeIsEquals(more[k].value);
      QP.DecodeNoLonger(Value(read, more[k].key));
    }
  }

  lemma LinesEqualsOf(more: seq<Field>)
    requires Written(more)
    ensures QP.Equals(FieldLines(more)) == Needed(more)
  {
    hide FieldLines, Needed, QP.Equals;
    LinesEquals(more);
  }

  lemma SomeEquals(s: string)
    requires QP.Equals(s) > 0
    ensures '=' in s
  {
    if '=' !in s { QP.NoEquals(s); }
  }

  ghost predicate AllBytes(fields: Fields) { forall key :: key in fields ==> IsBytes(fields[key]) }

  lemma {:induction false} ReadBytes(fields: Fields, text: string)
    requires AllBytes(fields) && IsBytes(text)
    ensures AllBytes(ReadFields(fields, text))
    decreases |text|
  {
    hide ReadField, ReadFields;
    if '\n' in text {
      var line, rest := SplitLine(text);
      ReadsLine(fields, line, rest);
      assert line == text[..|line|] && rest == text[|line| + 1..];
      ReadFieldBytes(fields, line);
      ReadBytes(ReadField(fields, line), rest);
    } else {
      ReadsLast(fields, text);
      ReadFieldBytes(fields, text);
    }
  }

  lemma ReadFieldBytes(fields: Fields, line: string)
    requires AllBytes(fields) && IsBytes(line)
    ensures AllBytes(ReadField(fields, line))
  {
    hide Trim;
    var text := Trim(line, BLANKS);
    var i, j := TrimmedIsSlice(line, BLANKS);
    var colon := Find(text, [':'], 0);
    if colon.Some? {
      var after := text[colon.value + 1..];
      var k, l := TrimmedIsSlice(after, BLANKS);
      assert IsBytes(after) && IsBytes(after[k..l]);
    }
  }

  lemma ValueBytes(fields: Fields, text: string, key: string)
    requires fields == map[] && IsBytes(text)
    ensures IsBytes(Value(ReadFields(fields, text), key))
  {
    ReadBytes(fields, text);
  }

  // ---------------------------------------------------------------------------------------
  // Harmless lines at the beginning are read as written

  lemma {:induction false} FirstOfHas(fields: Fields, more: seq<Field>, i: nat)
    requires i < |more|
    ensures more[i].key in FirstOf(fields, more)
    decreases |more|
  {
    var next := if more[0].key in fields then fields else fields[more[0].key := more[0].value];
    if i == 0 {
      FirstStays(next, more[1..], more[0].key);
    } else {
      assert more[1..][i - 1] == more[i];
      FirstOfHas(next, more[1..], i - 1);
    }
  }

  lemma IntactValue(more: seq<Field>, others: seq<Field>, i: nat)
    requires Written(more) && AllHarmless(more) && i < |more|
    ensures Value(Reread(map[], more + others), more[i].key) == more[i].value
  {
    hide GoodField, GoodName, ReadFields, QP.Decode, FieldLine, FieldLines, QP.Harmless, FirstOf;
    var rest := FieldLines(others);
    LinesJoin(more, others);
    HarmlessLines(more, rest);
    GoodLinesRead(map[], more, QP.DecodeText(rest));
    FirstOfHas(map[], more, i);
    ValueOfFirst(map[], more, i);
    KeyStays(FirstOf(map[], more), QP.DecodeText(rest), more[i].key);
  }

  lemma {:induction false} LinesJoin(more: seq<Field>, others: seq<Field>)
    ensures FieldLines(more + others) == FieldLines(more) + FieldLines(others)
  {
    hide FieldLine;
    if more == [] {
      assert more + others == others && [] + FieldLines(others) == FieldLines(others);
    } else {
      assert (more + others)[1..] == more[1..] + others;
      LinesJoin(more[1..], others);
    }
  }
}
