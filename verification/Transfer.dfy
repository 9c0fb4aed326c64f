/** Uploading a file as mailed blocks, resuming the upload, and getting the file back. */
module Transfer {
  import opened Basics
  import opened Text
  import opened Paths
  import opened Records
  import opened Streaming
  import opened Slices
  import opened XorCodec
  import opened BlockMetadata
  import opened Mime
  import opened MailMessage
  import opened Repository
  import opened Dedup
  import opened Mailbox
  import D = Download
  import QP = QuotedPrintable

  type Digest = seq<byte> -> string

  /** A message on the server: the whole of it, and its first body section as the server cuts it. */
  datatype Mail = Mail(raw: string, metadataText: string)

  type Mails = map<nat, Mail>

  datatype State = State(mails: Mails, index: Index)

  /** A file to upload and where it goes. */
  datatype Job = Job(mailbox: string, path: string, fileName: string, content: seq<byte>, blockSize: nat, owner: string)

  /** What the world contributes to one append: the uid the server assigns, whether its reply tells
      the uid, the clock, and the envelope. */
  datatype Sending = Sending(uid: nat, reported: bool, time: string, envelope: Envelope)

  predicate Hidden(j: Job) { ShouldEncryptMailbox(j.mailbox) }

  function SubjectName(j: Job): string { if Hidden(j) then EncryptString(j.fileName) else j.fileName }

  function StoredPath(j: Job): string { if Hidden(j) then EncryptString(j.path) else j.path }

  function Blocks(j: Job): seq<seq<byte>>
    requires j.blockSize > 0
  {
    Cut(j.content, j.blockSize)
  }

  function BlockCount(j: Job): nat
    requires j.blockSize > 0
  {
    (|j.content| + j.blockSize - 1) / j.blockSize
  }

  lemma CountIs(j: Job)
    requires j.blockSize > 0
    ensures BlockCount(j) == |Blocks(j)|
  {
    SliceCount(j.content, j.blockSize);
  }

  /** The metadata of block `n`, counted from one. */
  function MetadataFor(j: Job, n: nat, time: string, md5: Digest): Metadata
    requires j.blockSize > 0 && 1 <= n <= |Blocks(j)|
  {
    var payload := Blocks(j)[n - 1];
    Metadata(MakeSubject(SubjectName(j), Hidden(j), n, |Blocks(j)|), md5(j.content), md5(payload), |j.content|, |payload|,
             time, j.owner, StoredPath(j), j.mailbox, n, |Blocks(j)|, Hidden(j))
  }

  function MailFor(j: Job, n: nat, sending: Sending, md5: Digest): Mail
    requires j.blockSize > 0 && 1 <= n <= |Blocks(j)|
  {
    var m := MetadataFor(j, n, sending.time, md5);
    Mail(BuildMessage(m, sending.envelope, SubjectName(j), Blocks(j)[n - 1]), QP.Encode(BytesOf(ToLegacyText(m))))
  }

  /** Appends the message; the block is indexed when the reply tells its uid. */
  function SendBlock(s: State, j: Job, n: nat, sending: Sending, md5: Digest): State
    requires j.blockSize > 0 && 1 <= n <= |Blocks(j)|
  {
    State(s.mails[sending.uid := MailFor(j, n, sending, md5)],
          if sending.reported then Upserted(s.index, sending.uid, MetadataFor(j, n, sending.time, md5)) else s.index)
  }

  /** The index entry that an upload resumes. */
  function Existing(index: Index, j: Job): Option<FileName> {
    if FileName(j.mailbox, j.path) in index then Some(FileName(j.mailbox, j.path))
    else if Hidden(j) && FileName(j.mailbox, StoredPath(j)) in index then Some(FileName(j.mailbox, StoredPath(j)))
    else None
  }

  /** The block numbers that need not be sent. */
  function AlreadySent(index: Index, j: Job): set<int>
    requires j.blockSize > 0
  {
    var name := Existing(index, j);
    if name.None? then {} else set n | n in index[name.value].blocks && 1 <= n <= |Blocks(j)|
  }

  /** The state after the loop has passed block `n`. */
  function SentUpTo(s: State, j: Job, present: set<int>, sendings: seq<Sending>, md5: Digest, n: nat): State
    requires j.blockSize > 0 && n <= |Blocks(j)| == |sendings|
  {
    if n == 0 then s
    else
      var before := SentUpTo(s, j, present, sendings, md5, n - 1);
      if n in present then before else SendBlock(before, j, n, sendings[n - 1], md5)
  }

  function Uploaded(s: State, j: Job, sendings: seq<Sending>, md5: Digest): State
    requires j.blockSize > 0 && |Blocks(j)| == |sendings|
  {
    SentUpTo(s, j, AlreadySent(s.index, j), sendings, md5, |Blocks(j)|)
  }

  class Uploader {
    var state: State

    constructor (state: State)
      ensures this.state == state
    {
      this.state := state;
    }

    /** Sends the missing blocks in order. The run may break off after any block: `stop` says after
        which, and a run to the end has `stop` equal to the number of blocks. */
    method UploadFile(j: Job, sendings: seq<Sending>, md5: Digest, stop: nat)
      requires j.blockSize > 0 && |sendings| == |Blocks(j)| && stop <= |Blocks(j)|
      modifies this
      ensures state == SentUpTo(old(state), j, AlreadySent(old(state).index, j), sendings, md5, stop)
    {
      hide SendBlock, AlreadySent, BlockCount, Cut;
      CountIs(j);
      var count := BlockCount(j);
      var present := AlreadySent(state.index, j);
      PresentRange(state.index, j);
      if |present| == count {
        AllPresent(present, count);
        NothingSent(state, j, present, sendings, md5, stop);
        return;
      }
      var input := j.content;
      for n := 1 to stop + 1
        invariant state == SentUpTo(old(state), j, present, sendings, md5, n - 1)
        invariant Cut(input, j.blockSize) == Blocks(j)[n - 1..]
      {
        hide SentUpTo;
        ReadBlock(j, input, n);
        SentNext(old(state), j, present, sendings, md5, n);
        input := input[Min(j.blockSize, |input|)..];
        if n in present {
          continue;
        }
        state := SendBlock(state, j, n, sendings[n - 1], md5);
      }
    }
  }

  /** What the input stream yields next is the block that is about to be sent. */
  lemma ReadBlock(j: Job, input: seq<byte>, n: nat)
    requires j.blockSize > 0 && 1 <= n <= |Blocks(j)| && Cut(input, j.blockSize) == Blocks(j)[n - 1..]
    ensures var size := Min(j.blockSize, |input|);
            input[..size] == Blocks(j)[n - 1] && Cut(input[size..], j.blockSize) == Blocks(j)[n..]
  {
    assert input != [];
    ReadNext(input, j.blockSize);
    hide Cut;
    assert Blocks(j)[n - 1..][1..] == Blocks(j)[n..];
  }

  lemma SentNothing(s: State, j: Job, present: set<int>, sendings: seq<Sending>, md5: Digest)
    requires j.blockSize > 0 && |Blocks(j)| == |sendings|
    ensures SentUpTo(s, j, present, sendings, md5, 0) == s
  {
    hide SendBlock, Cut;
  }

  lemma SentNext(s: State, j: Job, present: set<int>, sendings: seq<Sending>, md5: Digest, n: nat)
    requires j.blockSize > 0 && 1 <= n <= |Blocks(j)| == |sendings|
    ensures SentUpTo(s, j, present, sendings, md5, n) ==
            var before := SentUpTo(s, j, present, sendings, md5, n - 1);
            if n in present then before else SendBlock(before, j, n, sendings[n - 1], md5)
  {
    hide SendBlock;
  }

  lemma PresentRange(index: Index, j: Job)
    requires j.blockSize > 0
    ensures forall n :: n in AlreadySent(index, j) ==> 1 <= n <= |Blocks(j)|
  {
  }

  function Numbers(n: nat): (r: set<int>)
    ensures |r| == n && forall k :: k in r <==> 1 <= k <= n
  {
    if n == 0 then {} else Numbers(n - 1) + {n}
  }

  lemma AllPresent(present: set<int>, count: nat)
    requires |present| == count && forall n :: n in present ==> 1 <= n <= count
    ensures forall n :: 1 <= n <= count ==> n in present
  {
    var all := Numbers(count);
    assert present <= all;
    assert all == present + (all - present);
    assert |all| == |present| + |all - present|;
  }

  lemma {:induction false} NothingSent(s: State, j: Job, present: set<int>, sendings: seq<Sending>, md5: Digest, n: nat)
    requires j.blockSize > 0 && n <= |Blocks(j)| == |sendings|
    requires forall k :: 1 <= k <= |Blocks(j)| ==> k in present
    ensures SentUpTo(s, j, present, sendings, md5, n) == s
  {
    if n > 0 {
      NothingSent(s, j, present, sendings, md5, n - 1);
      hide SendBlock;
    }
  }

  // ---------------------------------------------------------------------------------------
  // What a mailed block carries

  /** A value that a metadata line carries and that the second decoding leaves alone. */
  ghost predicate GoodLine(v: string) { GoodValue(v) && IsBytes(v) && QP.Harmless(v) }

  ghost predicate GoodDigest(md5: Digest) {
    forall b :: GoodLine(md5(b)) && md5(b) != []
  }

  /** Names that survive the mail, and sizes within the program's integers. */
  ghost predicate GoodJob(j: Job) {
    && j.blockSize > 0 && |j.content| < TWO_64 && |Blocks(j)| <= INT_MAX
    && GoodLine(j.mailbox) && GoodLine(j.path) && j.path != [] && GoodLine(j.owner)
    && GoodValue(j.fileName) && IsBytes(j.fileName) && !QP.HasEscape(j.fileName) && '/' !in j.fileName
  }

  ghost predicate GoodSending(sending: Sending) { GoodLine(sending.time) && GoodEnvelope(sending.envelope) }

  ghost predicate AllGood(sendings: seq<Sending>) { forall k :: 0 <= k < |sendings| ==> GoodSending(sendings[k]) }

  /** The message holds the bytes of block `n`, and both ways of reading it yield its metadata. */
  ghost predicate Carries(mail: Mail, j: Job, n: int, md5: Digest, json: JsonReader)
    requires j.blockSize > 0
  {
    && 1 <= n <= |Blocks(j)|
    && ExtractAttachment(mail.raw) == Some(Blocks(j)[n - 1])
    && exists time :: ReadsAs(mail, MetadataFor(j, n, time, md5), json)
  }

  ghost predicate ReadsAs(mail: Mail, m: Metadata, json: JsonReader) {
    && ExtractMetadata(mail.raw, json) == Some(Decrypted(m))
    && ParseCachedMetadataText(mail.metadataText, json) == Some(m)
  }

  lemma HexGood(s: string)
    requires IsBytes(s)
    ensures GoodLine(EncryptString(s)) && '/' !in EncryptString(s)
  {
    hide GoodLine;
    EncryptionRoundTrip(s);
    HexLine(EncryptString(s));
  }

  lemma HexLine(hex: string)
    requires HexOnly(hex)
    ensures GoodLine(hex) && '/' !in hex
  {
    Absent(hex, '\r');
    Absent(hex, '\n');
    Absent(hex, '=');
    Absent(hex, '/');
    QP.NoEqualsHarmless(hex);
    if hex != [] {
      assert hex[0] !in BLANKS && hex[|hex| - 1] !in BLANKS;
    }
  }

  lemma Absent(hex: string, c: char)
    requires HexOnly(hex) && !('0' <= c <= '9') && !('a' <= c <= 'f')
    ensures c !in hex
  {
  }

  /** A line without the escape character. */
  ghost predicate PlainLine(s: string) { OneLine(s) && IsBytes(s) && '=' !in s }

  lemma PlainJoin(a: string, b: string)
    requires PlainLine(a) && PlainLine(b)
    ensures PlainLine(a + b)
  {
  }

  /** What follows the name in a subject. */
  function SubjectTail(hidden: bool, n: nat, count: nat): string {
    ['/'] + (Mode(hidden) + ['/'] + (IntText(n) + ['-'] + IntText(count)))
  }

  lemma TailPlain(hidden: bool, n: nat, count: nat)
    ensures var tail := SubjectTail(hidden, n, count); PlainLine(tail) && tail[|tail| - 1] !in BLANKS
  {
    hide PlainLine, Decimal, Mode;
    var last, mode := Decimal(count), Mode(hidden);
    DigitsPlain(Decimal(n));
    DigitsPlain(last);
    ModePlain(hidden);
    SeparatorsPlain();
    var numbers := Decimal(n) + (['-'] + last);
    PlainJoin(['-'], last);
    PlainJoin(Decimal(n), ['-'] + last);
    PlainJoin(['/'], numbers);
    PlainJoin(mode, ['/'] + numbers);
    PlainJoin(['/'], mode + (['/'] + numbers));
    var tail := ['/'] + (mode + (['/'] + numbers));
    assert tail == SubjectTail(hidden, n, count);
    assert tail[|tail| - 1] == last[|last| - 1];
  }

  lemma SeparatorsPlain()
    ensures PlainLine(['/']) && PlainLine(['-'])
  {
  }

  lemma DigitsPlain(s: string)
    requires AllDigits(s)
    ensures PlainLine(s) && (s != [] ==> s[|s| - 1] !in BLANKS)
  {
    DigitsExclude(s, '\r');
    DigitsExclude(s, '\n');
    DigitsExclude(s, '=');
  }

  lemma ModePlain(hidden: bool)
    ensures PlainLine(Mode(hidden))
  {
  }

  /** What begins with a slash completes no escape. */
  lemma NoEscapeJoin(name: string, tail: string)
    requires !QP.HasEscape(name) && '=' !in tail && tail != [] && tail[0] == '/'
    ensures !QP.HasEscape(name + tail)
  {
    var s := name + tail;
    assert HexValue('/') == -1;
    forall i: nat | i < |s|
      ensures !QP.EscapeAt(s, i)
    {
      if i >= |name| {
        assert s[i] == tail[i - |name|] && tail[i - |name|] in tail;
      } else if i + 2 < |name| {
        assert !QP.EscapeAt(name, i);
      } else {
        assert s[|name|] == '/';
      }
    }
  }

  lemma SubjectGood(name: string, hidden: bool, n: nat, count: nat)
    requires GoodValue(name) && IsBytes(name) && !QP.HasEscape(name)
    ensures GoodLine(MakeSubject(name, hidden, n, count))
  {
    hide QP.HasEscape, Decimal, Mode, IntText;
    var tail := SubjectTail(hidden, n, count);
    TailPlain(hidden, n, count);
    NoEscapeJoin(name, tail);
    var s := name + tail;
    assert s == MakeSubject(name, hidden, n, count);
    assert s[|s| - 1] == tail[|tail| - 1] && tail[|tail| - 1] in tail;
    assert s[0] == if name == [] then '/' else name[0];
  }

  lemma NamesGood(j: Job)
    requires GoodJob(j)
    ensures GoodValue(SubjectName(j)) && IsBytes(SubjectName(j)) && !QP.HasEscape(SubjectName(j)) && '/' !in SubjectName(j)
    ensures OneLine(SubjectName(j)) && GoodLine(StoredPath(j)) && GoodLine(j.mailbox) && GoodLine(j.owner)
  {
    hide Cut, Hidden, EncryptString, QP.HasEscape, QP.EndsSoft;
    if Hidden(j) {
      HexGood(j.fileName);
      HexGood(j.path);
    }
  }

  lemma SizesGood(j: Job, n: nat)
    requires GoodJob(j) && 1 <= n <= |Blocks(j)|
    ensures j.blockSize > 0 && |j.content| < TWO_64 && |Blocks(j)[n - 1]| < TWO_64 && |Blocks(j)| <= INT_MAX
  {
    hide Cut, GoodLine;
    SliceShort(j.content, j.blockSize, n - 1);
  }

  lemma JobMailable(j: Job, n: nat, time: string, md5: Digest)
    requires GoodJob(j) && GoodDigest(md5) && GoodLine(time) && 1 <= n <= |Blocks(j)|
    ensures Mailable(MetadataFor(j, n, time, md5), SubjectName(j)) && OneLine(SubjectName(j))
  {
    hide Cut, MakeSubject, Hidden, SubjectName, StoredPath, GoodValue, QP.Harmless, QP.HasEscape, IsBytes, GoodJob, OneLine, Blocks;
    NamesGood(j);
    SizesGood(j, n);
    SubjectGood(SubjectName(j), Hidden(j), n, |Blocks(j)|);
    assert GoodLine(md5(j.content)) && GoodLine(md5(Blocks(j)[n - 1]));
  }

  lemma {:induction false} SliceShort(content: seq<byte>, size: nat, k: nat)
    requires size > 0 && k < |Cut(content, size)|
    ensures |Cut(content, size)[k]| <= |content|
    decreases |content|
  {
    if k > 0 {
      SliceShort(content[Min(size, |content|)..], size, k - 1);
    }
  }

  /** The metadata section reads the same whether or not its transfer encoding is undone first. */
  lemma SectionReads(m: Metadata, fileName: string, json: JsonReader)
    requires Mailable(m, fileName)
    ensures ParseCachedMetadataText(QP.Encode(BytesOf(ToLegacyText(m))), json) == Some(m)
  {
    var text := ToLegacyText(m);
    var section := QP.Encode(BytesOf(text));
    QP.DecodeEncode(BytesOf(text));
    MailableIsWritable(m, fileName);
    TextBack(m, fileName);
    assert QP.DecodeText(section) == text;
    ReadsOwnText(m, fileName, json);
    if section != text {
      ReadsItself(m, fileName, json);
      hide QP.Encode, QP.DecodeText, ToLegacyText, LooseBase64, TryParse, Mailable;
      assert TryDecoded(section, json) == Some(m);
    }
  }

  lemma MailCarries(j: Job, n: nat, sending: Sending, md5: Digest, json: JsonReader)
    requires GoodJob(j) && GoodDigest(md5) && GoodSending(sending) && 1 <= n <= |Blocks(j)|
    ensures Carries(MailFor(j, n, sending, md5), j, n, md5, json)
  {
    hide Mailable, BuildMessage, ToLegacyText, Cut, ExtractMetadata, ExtractAttachment, ParseCachedMetadataText,
      GoodEnvelope, Decrypted, GoodLine, OneLine;
    var m := MetadataFor(j, n, sending.time, md5);
    JobMailable(j, n, sending.time, md5);
    MailedReadsBack(m, SubjectName(j), sending.envelope, SubjectName(j), Blocks(j)[n - 1], json);
    SectionReads(m, SubjectName(j), json);
    assert ReadsAs(MailFor(j, n, sending, md5), m, json);
  }

  // ---------------------------------------------------------------------------------------
  // Resuming an upload

  ghost predicate RowFits(mails: Mails, j: Job, n: int, row: BlockRow, md5: Digest, json: JsonReader)
    requires j.blockSize > 0
  {
    && row.uid in mails && Carries(mails[row.uid], j, n, md5, json)
    && row.md5 == md5(Blocks(j)[n - 1]) && row.size == |Blocks(j)[n - 1]|
  }

  /** The entry is about this very file, and each of its blocks is where it says. */
  ghost predicate EntryFits(mails: Mails, j: Job, e: Entry, md5: Digest, json: JsonReader)
    requires j.blockSize > 0
  {
    && e.blocks != map[]
    && e.blockCount == |Blocks(j)| && e.md5 == md5(j.content) && e.size == |j.content|
    && forall n :: n in e.blocks ==> RowFits(mails, j, n, e.blocks[n], md5, json)
  }

  function PlainName(j: Job): FileName { FileName(j.mailbox, j.path) }

  function StoredName(j: Job): FileName { FileName(j.mailbox, StoredPath(j)) }

  ghost predicate NameFits(s: State, j: Job, name: FileName, md5: Digest, json: JsonReader)
    requires j.blockSize > 0
  {
    name in s.index ==> EntryFits(s.mails, j, s.index[name], md5, json)
  }

  /** Nothing is indexed, or a part of this very file, be it under its path or under the disguised one. */
  ghost predicate Partial(s: State, j: Job, md5: Digest, json: JsonReader)
    requires j.blockSize > 0
  {
    NameFits(s, j, PlainName(j), md5, json) && NameFits(s, j, StoredName(j), md5, json)
  }

  /** The server gives new messages new uids. */
  ghost predicate Fresh(mails: Mails, sendings: seq<Sending>) {
    && (forall k :: 0 <= k < |sendings| ==> sendings[k].uid !in mails)
    && (forall k, l :: 0 <= k < l < |sendings| ==> sendings[k].uid != sendings[l].uid)
  }

  ghost predicate Extends(after: Mails, before: Mails) {
    forall u: nat :: u in before ==> u in after && after[u] == before[u]
  }

  lemma EntryStays(mails: Mails, more: Mails, j: Job, e: Entry, md5: Digest, json: JsonReader)
    requires j.blockSize > 0 && EntryFits(mails, j, e, md5, json) && Extends(more, mails)
    ensures EntryFits(more, j, e, md5, json)
  {
    hide Carries, Cut;
    forall n | n in e.blocks
      ensures RowFits(more, j, n, e.blocks[n], md5, json)
    {
      assert RowFits(mails, j, n, e.blocks[n], md5, json);
    }
  }

  /** The entry after block `n` has been stored under `uid`. */
  lemma EntryGrows(mails: Mails, j: Job, index: Index, name: FileName, n: nat, uid: nat, md5: Digest, json: JsonReader)
    requires j.blockSize > 0 && 1 <= n <= |Blocks(j)| && RowFits(mails, j, n, SentRow(j, n, uid, md5), md5, json)
    requires name in index ==> EntryFits(mails, j, index[name], md5, json)
    ensures EntryFits(mails, j, EntryWith(index, name, j, n, uid, md5), md5, json)
  {
    hide RowFits, Cut, SentRow;
    assert n in EntryWith(index, name, j, n, uid, md5).blocks;
  }

  lemma StoredMetadata(j: Job, n: nat, uid: nat, time: string, md5: Digest)
    requires j.blockSize > 0 && 1 <= n <= |Blocks(j)|
    ensures var m := MetadataFor(j, n, time, md5);
            && NameOf(m) == StoredName(j) && m.blockCount == |Blocks(j)| && m.fileMd5 == md5(j.content)
            && m.fileSize == |j.content| && m.blockSeq == n
            && RowOf(uid, m) == BlockRow(uid, md5(Blocks(j)[n - 1]), |Blocks(j)[n - 1]|)
  {
  }

  lemma SendKeeps(s: State, j: Job, n: nat, sending: Sending, md5: Digest, json: JsonReader)
    requires GoodJob(j) && GoodDigest(md5) && GoodSending(sending) && 1 <= n <= |Blocks(j)|
    requires Partial(s, j, md5, json) && sending.uid !in s.mails
    ensures Partial(SendBlock(s, j, n, sending, md5), j, md5, json)
  {
    hide *;
    JobSize(j);
    PartialMeans(s, j, md5, json);
    var after := SendBlock(s, j, n, sending, md5);
    SendKeepsName(s, j, n, sending, PlainName(j), md5, json);
    SendKeepsName(s, j, n, sending, StoredName(j), md5, json);
    PartialMeans(after, j, md5, json);
  }

  lemma PartialMeans(s: State, j: Job, md5: Digest, json: JsonReader)
    requires j.blockSize > 0
    ensures Partial(s, j, md5, json) <==> NameFits(s, j, PlainName(j), md5, json) && NameFits(s, j, StoredName(j), md5, json)
  {
    hide NameFits;
  }

  lemma SendKeepsName(s: State, j: Job, n: nat, sending: Sending, name: FileName, md5: Digest, json: JsonReader)
    requires GoodJob(j) && GoodDigest(md5) && GoodSending(sending) && j.blockSize > 0 && 1 <= n <= |Blocks(j)|
    requires NameFits(s, j, name, md5, json) && sending.uid !in s.mails
    ensures NameFits(SendBlock(s, j, n, sending, md5), j, name, md5, json)
  {
    hide *;
    NameFitsMeans(s, j, name, md5, json);
    var mails := s.mails[sending.uid := MailFor(j, n, sending, md5)];
    GrowsBy(s.mails, sending.uid, MailFor(j, n, sending, md5));
    SentIndex(s, j, n, sending, md5);
    if name in s.index {
      EntryStays(s.mails, mails, j, s.index[name], md5, json);
    }
    if name == StoredName(j) && sending.reported {
      SentFits(s, j, n, sending, md5, json);
      EntryGrows(mails, j, s.index, name, n, sending.uid, md5, json);
    } else {
      OtherNameStays(s, j, n, sending, md5, name);
    }
    NameFitsMeans(SendBlock(s, j, n, sending, md5), j, name, md5, json);
  }

  lemma NameFitsMeans(s: State, j: Job, name: FileName, md5: Digest, json: JsonReader)
    requires j.blockSize > 0
    ensures NameFits(s, j, name, md5, json) <==> (name in s.index ==> EntryFits(s.mails, j, s.index[name], md5, json))
  {
    hide EntryFits;
  }

  function EntryWith(index: Index, name: FileName, j: Job, n: nat, uid: nat, md5: Digest): Entry
    requires j.blockSize > 0 && 1 <= n <= |Blocks(j)|
  {
    Entry(|Blocks(j)|, md5(j.content), |j.content|, BlocksOf(index, name)[n := SentRow(j, n, uid, md5)])
  }

  function SentRow(j: Job, n: nat, uid: nat, md5: Digest): BlockRow
    requires j.blockSize > 0 && 1 <= n <= |Blocks(j)|
  {
    BlockRow(uid, md5(Blocks(j)[n - 1]), |Blocks(j)[n - 1]|)
  }

  lemma SentFits(s: State, j: Job, n: nat, sending: Sending, md5: Digest, json: JsonReader)
    requires GoodJob(j) && GoodDigest(md5) && GoodSending(sending) && 1 <= n <= |Blocks(j)|
    ensures RowFits(s.mails[sending.uid := MailFor(j, n, sending, md5)], j, n, SentRow(j, n, sending.uid, md5), md5, json)
  {
    MailCarries(j, n, sending, md5, json);
    hide Carries, MailFor, Cut, GoodJob, GoodDigest, GoodSending;
  }

  lemma GrowsBy(mails: Mails, uid: nat, mail: Mail)
    requires uid !in mails
    ensures Extends(mails[uid := mail], mails)
  {
  }

  /** What sending a block does to the messages and to the entry of the file. */
  lemma SentIndex(s: State, j: Job, n: nat, sending: Sending, md5: Digest)
    requires j.blockSize > 0 && 1 <= n <= |Blocks(j)|
    ensures var after, name := SendBlock(s, j, n, sending, md5), StoredName(j);
            && after.mails == s.mails[sending.uid := MailFor(j, n, sending, md5)]
            && (!sending.reported ==> after.index == s.index)
            && (sending.reported ==> name in after.index)
            && (sending.reported ==> after.index[name] == EntryWith(s.index, name, j, n, sending.uid, md5))
  {
    StoredMetadata(j, n, sending.uid, sending.time, md5);
    hide MailFor, MetadataFor, Cut, StoredName;
  }

  lemma OtherNameStays(s: State, j: Job, n: nat, sending: Sending, md5: Digest, name: FileName)
    requires j.blockSize > 0 && 1 <= n <= |Blocks(j)| && (name != StoredName(j) || !sending.reported)
    ensures var after := SendBlock(s, j, n, sending, md5);
            && (name in after.index <==> name in s.index)
            && (name in s.index ==> after.index[name] == s.index[name])
  {
    StoredMetadata(j, n, sending.uid, sending.time, md5);
    hide MailFor, MetadataFor, Cut, StoredName;
  }

  /** One message for each of the first `n` blocks that was missing, and nothing else, is new. */
  ghost predicate MailsAdded(before: Mails, after: Mails, j: Job, present: set<int>, sendings: seq<Sending>, md5: Digest, n: nat)
    requires j.blockSize > 0 && n <= |Blocks(j)| == |sendings|
  {
    && Extends(after, before)
    && (forall u: nat :: u in after ==> u in before || NewUid(present, sendings, n, u))
    && (forall k :: 0 <= k < n && k + 1 !in present ==>
          sendings[k].uid in after && after[sendings[k].uid] == MailFor(j, k + 1, sendings[k], md5))
  }

  ghost predicate NewUid(present: set<int>, sendings: seq<Sending>, n: nat, u: nat)
    requires n <= |sendings|
  {
    exists k :: 0 <= k < n && k + 1 !in present && sendings[k].uid == u
  }

  lemma AddsNext(before: Mails, mid: Mails, j: Job, present: set<int>, sendings: seq<Sending>, md5: Digest, n: nat)
    requires j.blockSize > 0 && 1 <= n <= |Blocks(j)| == |sendings| && Fresh(before, sendings) && n !in present
    requires MailsAdded(before, mid, j, present, sendings, md5, n - 1)
    ensures MailsAdded(before, mid[sendings[n - 1].uid := MailFor(j, n, sendings[n - 1], md5)], j, present, sendings, md5, n)
  {
    hide MailFor, Cut;
    var after := mid[sendings[n - 1].uid := MailFor(j, n, sendings[n - 1], md5)];
    forall u: nat | u in after
      ensures u in before || NewUid(present, sendings, n, u)
    {
      if u == sendings[n - 1].uid {
        assert NewUid(present, sendings, n, u);
      } else if u !in before {
        assert NewUid(present, sendings, n - 1, u);
      }
    }
  }

  lemma AddsNothing(before: Mails, after: Mails, j: Job, present: set<int>, sendings: seq<Sending>, md5: Digest, n: nat)
    requires j.blockSize > 0 && 1 <= n <= |Blocks(j)| == |sendings| && n in present
    requires MailsAdded(before, after, j, present, sendings, md5, n - 1)
    ensures MailsAdded(before, after, j, present, sendings, md5, n)
  {
    hide MailFor, Cut;
    forall u: nat | NewUid(present, sendings, n - 1, u)
      ensures NewUid(present, sendings, n, u)
    {
    }
  }

  lemma {:induction false} UploadAdds(s: State, j: Job, present: set<int>, sendings: seq<Sending>, md5: Digest, n: nat)
    requires j.blockSize > 0 && n <= |Blocks(j)| == |sendings| && Fresh(s.mails, sendings)
    ensures MailsAdded(s.mails, SentUpTo(s, j, present, sendings, md5, n).mails, j, present, sendings, md5, n)
  {
    hide MailFor, Cut, Upserted, MetadataFor;
    if n > 0 {
      hide MailsAdded;
      UploadAdds(s, j, present, sendings, md5, n - 1);
      var before := SentUpTo(s, j, present, sendings, md5, n - 1);
      SentNext(s, j, present, sendings, md5, n);
      if n in present {
        AddsNothing(s.mails, before.mails, j, present, sendings, md5, n);
      } else {
        AddsNext(s.mails, before.mails, j, present, sendings, md5, n);
      }
    }
  }

  lemma StillFresh(before: Mails, mid: Mails, j: Job, present: set<int>, sendings: seq<Sending>, md5: Digest, n: nat)
    requires j.blockSize > 0 && 1 <= n <= |Blocks(j)| == |sendings| && Fresh(before, sendings)
    requires MailsAdded(before, mid, j, present, sendings, md5, n - 1)
    ensures sendings[n - 1].uid !in mid
  {
    hide MailFor, Cut;
    var u := sendings[n - 1].uid;
    assert u !in before;
    assert !NewUid(present, sendings, n - 1, u);
  }

  /** However far it gets, an upload leaves a partial upload of the same file. */
  lemma {:induction false} UploadKeepsPartial(s: State, j: Job, present: set<int>, sendings: seq<Sending>, md5: Digest, n: nat,
                                              json: JsonReader)
    requires GoodJob(j) && GoodDigest(md5) && AllGood(sendings) && n <= |Blocks(j)| == |sendings|
    requires Fresh(s.mails, sendings) && Partial(s, j, md5, json)
    ensures Partial(SentUpTo(s, j, present, sendings, md5, n), j, md5, json)
  {
    hide Partial, GoodJob, GoodDigest, GoodSending, Cut, SendBlock, MailsAdded, Fresh;
    if n > 0 {
      JobSize(j);
      UploadKeepsPartial(s, j, present, sendings, md5, n - 1, json);
      SentNext(s, j, present, sendings, md5, n);
      if n !in present {
        UploadAdds(s, j, present, sendings, md5, n - 1);
        var before := SentUpTo(s, j, present, sendings, md5, n - 1);
        StillFresh(s.mails, before.mails, j, present, sendings, md5, n);
        SendKeeps(before, j, n, sendings[n - 1], md5, json);
      }
    }
  }

  lemma JobSize(j: Job)
    requires GoodJob(j)
    ensures j.blockSize > 0
  {
  }

  /** What need not be sent is what the entry that is resumed lists. */
  lemma PresentIs(s: State, j: Job, md5: Digest, json: JsonReader)
    requires GoodJob(j) && Partial(s, j, md5, json)
    ensures var name := Existing(s.index, j);
            forall n :: n in AlreadySent(s.index, j) <==> name.Some? && n in s.index[name.value].blocks
  {
    hide Carries, Cut, Hidden, GoodJob, StoredPath;
    JobSize(j);
    var name := Existing(s.index, j);
    if name.Some? {
      var e := s.index[name.value];
      forall n | n in e.blocks
        ensures 1 <= n <= |Blocks(j)|
      {
        assert RowFits(s.mails, j, n, e.blocks[n], md5, json);
        CarriesInRange(s.mails[e.blocks[n].uid], j, n, md5, json);
      }
    }
  }

  lemma CarriesInRange(mail: Mail, j: Job, n: int, md5: Digest, json: JsonReader)
    requires j.blockSize > 0 && Carries(mail, j, n, md5, json)
    ensures 1 <= n <= |Blocks(j)|
  {
  }

  // ---------------------------------------------------------------------------------------
  // The index after an upload to the end

  /** Block `k` is in the entry that the upload writes to. */
  predicate Indexed(index: Index, j: Job, k: int) { k in BlocksOf(index, StoredName(j)) }

  /** Block `k` is among the first `n`, is sent, and its uid is told. */
  ghost predicate Told(present: set<int>, sendings: seq<Sending>, n: nat, k: int)
    requires n <= |sendings|
  {
    1 <= k <= n && k !in present && sendings[k - 1].reported
  }

  /** The entry gains the blocks whose uids are told, and no others. */
  lemma {:induction false} IndexedAfter(s: State, j: Job, present: set<int>, sendings: seq<Sending>, md5: Digest, n: nat, k: int)
    requires j.blockSize > 0 && n <= |Blocks(j)| == |sendings|
    ensures Indexed(SentUpTo(s, j, present, sendings, md5, n).index, j, k) <==>
            Indexed(s.index, j, k) || Told(present, sendings, n, k)
  {
    hide Cut, MailFor, SendBlock, Indexed;
    if n > 0 {
      IndexedAfter(s, j, present, sendings, md5, n - 1, k);
      SentNext(s, j, present, sendings, md5, n);
      if n !in present {
        SentIndexes(SentUpTo(s, j, present, sendings, md5, n - 1), j, n, sendings[n - 1], md5, k);
      }
    }
  }

  lemma SentIndexes(s: State, j: Job, n: nat, sending: Sending, md5: Digest, k: int)
    requires j.blockSize > 0 && 1 <= n <= |Blocks(j)|
    ensures Indexed(SendBlock(s, j, n, sending, md5).index, j, k) <==> Indexed(s.index, j, k) || (k == n && sending.reported)
  {
    SentIndex(s, j, n, sending, md5);
    hide SendBlock, MailFor, Cut;
  }

  /** Entries under other names stay as they are. */
  lemma {:induction false} OthersAfter(s: State, j: Job, present: set<int>, sendings: seq<Sending>, md5: Digest, n: nat, name: FileName)
    requires j.blockSize > 0 && n <= |Blocks(j)| == |sendings| && name != StoredName(j)
    ensures var t := SentUpTo(s, j, present, sendings, md5, n);
            && (name in t.index <==> name in s.index)
            && (name in s.index ==> t.index[name] == s.index[name])
  {
    hide *;
    if n == 0 {
      SentNothing(s, j, present, sendings, md5);
    } else {
      OthersAfter(s, j, present, sendings, md5, n - 1, name);
      SentNext(s, j, present, sendings, md5, n);
      if n !in present {
        OtherNameStays(SentUpTo(s, j, present, sendings, md5, n - 1), j, n, sendings[n - 1], md5, name);
      }
    }
  }

  /** An entry that fits and has every block. */
  ghost predicate EntryFull(mails: Mails, j: Job, e: Entry, md5: Digest, json: JsonReader)
    requires j.blockSize > 0
  {
    EntryFits(mails, j, e, md5, json) && forall n :: n in e.blocks <==> 1 <= n <= |Blocks(j)|
  }

  lemma FullIfAllThere(mails: Mails, j: Job, e: Entry, md5: Digest, json: JsonReader)
    requires j.blockSize > 0 && EntryFits(mails, j, e, md5, json) && forall n :: 1 <= n <= |Blocks(j)| ==> n in e.blocks
    ensures EntryFull(mails, j, e, md5, json)
  {
    hide Carries, Cut;
    forall n | n in e.blocks
      ensures 1 <= n <= |Blocks(j)|
    {
      assert RowFits(mails, j, n, e.blocks[n], md5, json);
      CarriesInRange(mails[e.blocks[n].uid], j, n, md5, json);
    }
  }

  lemma NotEmptyBlocks(j: Job)
    requires j.blockSize > 0
    ensures |Blocks(j)| > 0 <==> j.content != []
  {
  }

  ghost predicate OnServer(mails: Mails, j: Job, n: int, md5: Digest, json: JsonReader)
    requires j.blockSize > 0
  {
    exists u: nat :: u in mails && Carries(mails[u], j, n, md5, json)
  }

  lemma RowOnServer(s: State, j: Job, name: FileName, n: int, md5: Digest, json: JsonReader)
    requires j.blockSize > 0 && NameFits(s, j, name, md5, json) && name in s.index && n in s.index[name].blocks
    ensures OnServer(s.mails, j, n, md5, json)
  {
    hide Carries, Cut;
    assert RowFits(s.mails, j, n, s.index[name].blocks[n], md5, json);
  }

  /** An upload that runs to the end leaves every block on the server, whatever the replies tell; the
      entry it writes to has gained the blocks that were sent and whose uids were told. */
  lemma UploadCompletes(s: State, j: Job, sendings: seq<Sending>, md5: Digest, json: JsonReader)
    requires GoodJob(j) && GoodDigest(md5) && AllGood(sendings) && |Blocks(j)| == |sendings|
    requires Fresh(s.mails, sendings) && Partial(s, j, md5, json)
    ensures var t, present := Uploaded(s, j, sendings, md5), AlreadySent(s.index, j);
            && Partial(t, j, md5, json)
            && (forall n :: 1 <= n <= |Blocks(j)| ==> OnServer(t.mails, j, n, md5, json))
            && (forall k :: Indexed(t.index, j, k) <==> Indexed(s.index, j, k) || Told(present, sendings, |Blocks(j)|, k))
  {
    hide *;
    JobSize(j);
    var t, present, count := Uploaded(s, j, sendings, md5), AlreadySent(s.index, j), |Blocks(j)|;
    UploadIsSent(s, j, sendings, md5);
    UploadKeepsPartial(s, j, present, sendings, md5, count, json);
    forall k
      ensures Indexed(t.index, j, k) <==> Indexed(s.index, j, k) || Told(present, sendings, count, k)
    {
      IndexedAfter(s, j, present, sendings, md5, count, k);
    }
    UploadAdds(s, j, present, sendings, md5, count);
    forall n | 1 <= n <= count
      ensures OnServer(t.mails, j, n, md5, json)
    {
      BlockArrives(s, t.mails, j, sendings, md5, n, json);
    }
  }

  lemma BlockArrives(s: State, mails: Mails, j: Job, sendings: seq<Sending>, md5: Digest, n: nat, json: JsonReader)
    requires GoodJob(j) && GoodDigest(md5) && AllGood(sendings) && |Blocks(j)| == |sendings| && Partial(s, j, md5, json)
    requires MailsAdded(s.mails, mails, j, AlreadySent(s.index, j), sendings, md5, |Blocks(j)|) && 1 <= n <= |Blocks(j)|
    ensures j.blockSize > 0 && OnServer(mails, j, n, md5, json)
  {
    hide Carries, Cut, GoodJob, GoodDigest, GoodSending, AlreadySent, MailFor, EntryFits, NewUid, StoredPath, Hidden;
    JobSize(j);
    if n in AlreadySent(s.index, j) {
      PresentIs(s, j, md5, json);
      RowOnServer(s, j, Existing(s.index, j).value, n, md5, json);
      var u: nat :| u in s.mails && Carries(s.mails[u], j, n, md5, json);
      assert u in mails && Carries(mails[u], j, n, md5, json);
    } else {
      MailCarries(j, n, sendings[n - 1], md5, json);
      assert Carries(mails[sendings[n - 1].uid], j, n, md5, json);
    }
  }

  lemma UploadIsSent(s: State, j: Job, sendings: seq<Sending>, md5: Digest)
    requires j.blockSize > 0 && |Blocks(j)| == |sendings|
    ensures Uploaded(s, j, sendings, md5) == SentUpTo(s, j, AlreadySent(s.index, j), sendings, md5, |Blocks(j)|)
  {
    hide SentUpTo, Cut;
  }

  // ---------------------------------------------------------------------------------------
  // Fetching and downloading

  /** The payload of a block, when its message is there, has the hash on record and names the file. */
  function FetchBlock(mails: Mails, file: FileRecord, block: BlockRecord, md5: Digest, json: JsonReader): Option<seq<byte>> {
    if block.uid !in mails then None
    else
      var m, payload := ExtractMetadata(mails[block.uid].raw, json), ExtractAttachment(mails[block.uid].raw);
      if m.None? || payload.None? || md5(payload.value) != block.md5
         || NormalizeSlashes(m.value.mailFolder) != NormalizeSlashes(file.mailFolder)
         || NormalizeSlashes(m.value.localPath) != NormalizeSlashes(file.localPath)
      then None else payload
  }

  /** What is fetched is the attachment of the message on record, has the hash on record, and its message
      names the file that is downloaded, slashes of either kind alike. */
  lemma FetchedFits(mails: Mails, file: FileRecord, block: BlockRecord, md5: Digest, json: JsonReader)
    ensures FetchBlock(mails, file, block, md5, json).Some? ==>
              var payload := FetchBlock(mails, file, block, md5, json);
              && block.uid in mails && payload == ExtractAttachment(mails[block.uid].raw) && md5(payload.value) == block.md5
              && var m := ExtractMetadata(mails[block.uid].raw, json);
                 m.Some? && SamePath(m.value.localPath, file.localPath) && SamePath(m.value.mailFolder, file.mailFolder)
  {
    hide ExtractMetadata, ExtractAttachment;
    if FetchBlock(mails, file, block, md5, json).Some? {
      var m := ExtractMetadata(mails[block.uid].raw, json).value;
      SamePathIff(m.localPath, file.localPath);
      SamePathIff(m.mailFolder, file.mailFolder);
    }
  }

  /** Character by character, the two differ at most in the kind of their slashes. */
  ghost predicate SamePath(a: string, b: string) {
    |a| == |b| && forall i :: 0 <= i < |a| ==> a[i] == b[i] || (a[i] in {'/', '\\'} && b[i] in {'/', '\\'})
  }

  lemma SamePathIff(a: string, b: string)
    ensures NormalizeSlashes(a) == NormalizeSlashes(b) <==> SamePath(a, b)
  {
    var p, q := NormalizeSlashes(a), NormalizeSlashes(b);
    if p == q {
      forall i | 0 <= i < |a|
        ensures a[i] == b[i] || (a[i] in {'/', '\\'} && b[i] in {'/', '\\'})
      {
        assert p[i] == q[i];
      }
    }
  }

  function Fetcher(mails: Mails, file: FileRecord, md5: Digest, json: JsonReader): BlockRecord -> Option<seq<byte>> {
    (block: BlockRecord) => FetchBlock(mails, file, block, md5, json)
  }

  /** What reading each message for the index yields. */
  function ReadingsOf(mails: Mails, json: JsonReader): Readings {
    map u | u in mails :: ReadingOf(mails[u], json)
  }

  function ReadingOf(mail: Mail, json: JsonReader): Option<Metadata> {
    var m := ParseCachedMetadataText(mail.metadataText, json);
    if m.None? then None else Some(Decrypted(m.value))
  }

  /** The index that a download uses: when it does not know the path, the mailbox is read first. */
  function Consulted(s: State, mailbox: string, path: string, order: seq<nat>, json: JsonReader): Index {
    if FileName(mailbox, path) in s.index then s.index
    else CacheAll(s.index, Usable(ReadingsOf(s.mails, json), mailbox), order)
  }

  /** What a download that is not broken off yields. */
  function DownloadResult(s: State, mailbox: string, path: string, order: seq<nat>, disk: D.Disk, md5: Digest, json: JsonReader)
    : Option<seq<byte>>
  {
    var file := Found(Consulted(s, mailbox, path, order, json), mailbox, path);
    if file.None? || |file.value.blocks| != file.value.blockCount then None
    else D.Downloaded(file.value, md5, disk, Fetcher(s.mails, file.value, md5, json))
  }

  lemma DecryptedMetadata(j: Job, n: nat, time: string, md5: Digest)
    requires GoodJob(j) && 1 <= n <= |Blocks(j)|
    ensures var m := Decrypted(MetadataFor(j, n, time, md5)); m.localPath == j.path && m.mailFolder == j.mailbox
  {
    hide Cut, Hidden;
    if Hidden(j) { EncryptionRoundTrip(j.path); }
  }

  lemma FetchesBlock(mails: Mails, j: Job, file: FileRecord, block: BlockRecord, n: nat, md5: Digest, json: JsonReader)
    requires GoodJob(j) && 1 <= n <= |Blocks(j)| && RowFits(mails, j, n, BlockRow(block.uid, block.md5, block.size), md5, json)
    requires file.mailFolder == j.mailbox
    ensures FetchBlock(mails, file, block, md5, json) ==
            if NormalizeSlashes(j.path) == NormalizeSlashes(file.localPath) then Some(Blocks(j)[n - 1]) else None
  {
    hide GoodJob, Cut, ExtractMetadata, ExtractAttachment, ParseCachedMetadataText, Decrypted, NormalizeSlashes, MetadataFor;
    var mail := mails[block.uid];
    var time :| ReadsAs(mail, MetadataFor(j, n, time, md5), json);
    DecryptedMetadata(j, n, time, md5);
  }

  /** The record lists the blocks of the file in order, and each can be fetched. */
  ghost predicate RecordFits(mails: Mails, j: Job, file: FileRecord, md5: Digest, json: JsonReader)
    requires j.blockSize > 0
  {
    && |file.blocks| == file.blockCount && file.md5 == md5(j.content)
    && D.Lists(file, Blocks(j)) && D.Fetches(file, Blocks(j), Fetcher(mails, file, md5, json))
  }

  function BlockAt(e: Entry, n: int): BlockRecord
    requires n in e.blocks
  {
    BlockRecord(n, e.blocks[n].uid, e.blocks[n].md5, e.blocks[n].size)
  }

  lemma RecordLists(j: Job, name: FileName, e: Entry)
    requires j.blockSize > 0 && e.blockCount == |Blocks(j)| && forall n :: n in e.blocks <==> 1 <= n <= |Blocks(j)|
    ensures var file := RecordOf(name, e);
            && |file.blocks| == file.blockCount == |Blocks(j)| && D.Lists(file, Blocks(j)) && file.md5 == e.md5
            && file.mailFolder == name.mailFolder && file.localPath == name.localPath
    ensures forall i :: 0 <= i < |Blocks(j)| ==> RecordOf(name, e).blocks[i] == BlockAt(e, i + 1)
  {
    hide Cut;
    RecordOfRange(name, e);
  }

  lemma FetchesIf(mails: Mails, j: Job, file: FileRecord, md5: Digest, json: JsonReader)
    requires j.blockSize > 0 && |file.blocks| == |Blocks(j)|
    requires forall i :: 0 <= i < |Blocks(j)| ==> FetchBlock(mails, file, file.blocks[i], md5, json) == Some(Blocks(j)[i])
    ensures D.Fetches(file, Blocks(j), Fetcher(mails, file, md5, json))
  {
    hide Cut, FetchBlock;
  }

  lemma RowOfEntry(mails: Mails, j: Job, e: Entry, n: int, md5: Digest, json: JsonReader)
    requires j.blockSize > 0 && EntryFull(mails, j, e, md5, json) && 1 <= n <= |Blocks(j)|
    ensures n in e.blocks && RowFits(mails, j, n, BlockRow(e.blocks[n].uid, e.blocks[n].md5, e.blocks[n].size), md5, json)
  {
    hide RowFits, Cut;
  }

  lemma FullMeans(mails: Mails, j: Job, e: Entry, md5: Digest, json: JsonReader)
    requires j.blockSize > 0 && EntryFull(mails, j, e, md5, json)
    ensures e.blockCount == |Blocks(j)| && e.md5 == md5(j.content) && forall n :: n in e.blocks <==> 1 <= n <= |Blocks(j)|
  {
    hide RowFits, Cut;
  }

  /** The record of a full entry, and its blocks as fetched. */
  lemma RecordFetches(mails: Mails, j: Job, e: Entry, md5: Digest, json: JsonReader)
    requires GoodJob(j) && j.blockSize > 0 && EntryFull(mails, j, e, md5, json)
    ensures RecordFits(mails, j, RecordOf(FileName(j.mailbox, j.path), e), md5, json)
  {
    hide GoodJob, Cut, RecordOf, FetchBlock, RowFits, EntryFull, D.Fetches, D.Lists, Fetcher;
    var name := FileName(j.mailbox, j.path);
    var file := RecordOf(name, e);
    FullMeans(mails, j, e, md5, json);
    RecordLists(j, name, e);
    forall i | 0 <= i < |Blocks(j)|
      ensures FetchBlock(mails, file, file.blocks[i], md5, json) == Some(Blocks(j)[i])
    {
      RowOfEntry(mails, j, e, i + 1, md5, json);
      FetchesBlock(mails, j, file, file.blocks[i], i + 1, md5, json);
    }
    FetchesIf(mails, j, file, md5, json);
  }

  /** The index, consulted for the path, has all blocks of the file. */
  ghost predicate FullyIndexed(s: State, j: Job, order: seq<nat>, md5: Digest, json: JsonReader)
    requires j.blockSize > 0
  {
    var name, index := FileName(j.mailbox, j.path), Consulted(s, j.mailbox, j.path, order, json);
    name in index && EntryFull(s.mails, j, index[name], md5, json)
  }

  /** Nothing has been downloaded yet, or earlier downloads were broken off. */
  ghost predicate LeftBy(s: State, j: Job, order: seq<nat>, disk: D.Disk, md5: Digest, json: JsonReader)
    requires j.blockSize > 0
  {
    var name, index := FileName(j.mailbox, j.path), Consulted(s, j.mailbox, j.path, order, json);
    name in index ==>
      var file := RecordOf(name, index[name]);
      |file.blocks| == |Blocks(j)| ==> D.DiskSound(file, Blocks(j), disk)
  }

  /** A file whose blocks are all indexed under its own path downloads as it was uploaded, whatever
      earlier downloads left on disk. */
  lemma FullEntryDownloads(s: State, j: Job, order: seq<nat>, disk: D.Disk, md5: Digest, json: JsonReader)
    requires GoodJob(j) && j.blockSize > 0 && FullyIndexed(s, j, order, md5, json) && LeftBy(s, j, order, disk, md5, json)
    ensures DownloadResult(s, j.mailbox, j.path, order, disk, md5, json) == Some(j.content)
  {
    hide GoodJob, Cut, RecordOf, FetchBlock, RowFits, Consulted, EntryFull, D.DiskSound, D.Fetches, D.Downloaded, Fetcher;
    var name, index := FileName(j.mailbox, j.path), Consulted(s, j.mailbox, j.path, order, json);
    var file := RecordOf(name, index[name]);
    RecordFetches(s.mails, j, index[name], md5, json);
    ConcatSlices(j.content, j.blockSize);
    D.DownloadedIsContent(file, md5, Blocks(j), disk, Fetcher(s.mails, file, md5, json));
  }

  // ---------------------------------------------------------------------------------------
  // Messages that the index does not know

  ghost predicate Claims(mail: Mail, j: Job, json: JsonReader) {
    var m := ReadingOf(mail, json);
    m.Some? && IsCacheable(m.value) && NameOf(Filled(m.value, j.mailbox)) == FileName(j.mailbox, j.path)
  }

  /** The messages that the index of the mailbox does not know, each once. */
  ghost predicate Unknown(s: State, mailbox: string, order: seq<nat>) {
    Enumerates(order, set u | u in s.mails && !IsCached(s.index, mailbox, u))
  }

  ghost predicate LooseUnder(s: State, j: Job, u: nat, n: int, md5: Digest, json: JsonReader)
    requires j.blockSize > 0
  {
    u in s.mails && !IsCached(s.index, j.mailbox, u) && Carries(s.mails[u], j, n, md5, json)
  }

  /** Block `n` is on the server in a message that the index does not know. */
  ghost predicate Loose(s: State, j: Job, n: int, md5: Digest, json: JsonReader)
    requires j.blockSize > 0
  {
    exists u: nat :: LooseUnder(s, j, u, n, md5, json)
  }

  /** Whatever message the index does not know and would list under the path is a block of this file. */
  ghost predicate OnlyThisFile(s: State, j: Job, md5: Digest, json: JsonReader)
    requires j.blockSize > 0
  {
    forall u: nat :: u in s.mails && !IsCached(s.index, j.mailbox, u) && Claims(s.mails[u], j, json) ==>
      exists n :: LooseUnder(s, j, u, n, md5, json)
  }

  function VersionOf(j: Job, md5: Digest): VersionKey
    requires j.blockSize > 0
  {
    VersionKey(md5(j.content), |j.content|, |Blocks(j)|)
  }

  /** What the index takes from message `k` of the copy. */
  ghost predicate ReadsAsBlock(s: Messages, j: Job, u: nat, n: nat, md5: Digest)
    requires j.blockSize > 0 && 1 <= n <= |Blocks(j)|
  {
    && u in s && NameOf(s[u]) == FileName(j.mailbox, j.path) && KeyOf(s[u]) == VersionOf(j, md5)
    && s[u].blockSeq == n && RowOf(u, s[u]) == SentRow(j, n, u, md5)
  }

  lemma DecryptedIsCacheable(j: Job, n: nat, time: string, md5: Digest)
    requires GoodJob(j) && 1 <= n <= |Blocks(j)|
    ensures var m := Decrypted(MetadataFor(j, n, time, md5));
            && IsCacheable(m) && NameOf(Filled(m, j.mailbox)) == FileName(j.mailbox, j.path)
            && KeyOf(m) == VersionOf(j, md5) && m.blockSeq == n
            && forall u: nat :: RowOf(u, m) == SentRow(j, n, u, md5)
  {
    hide Cut, Hidden, StoredPath, EncryptString, DecryptString, GoodLine;
    DecryptedMetadata(j, n, time, md5);
  }

  lemma CopyReads(mails: Mails, j: Job, u: nat, n: nat, md5: Digest, json: JsonReader)
    requires GoodJob(j) && u in mails && 1 <= n <= |Blocks(j)| && Carries(mails[u], j, n, md5, json)
    ensures ReadsAsBlock(Usable(ReadingsOf(mails, json), j.mailbox), j, u, n, md5)
    ensures Claims(mails[u], j, json)
  {
    hide GoodJob, Cut, ExtractMetadata, ExtractAttachment, ParseCachedMetadataText, Decrypted, MetadataFor, Hidden, VersionOf;
    JobSize(j);
    var time :| ReadsAs(mails[u], MetadataFor(j, n, time, md5), json);
    DecryptedIsCacheable(j, n, time, md5);
    var m := Decrypted(MetadataFor(j, n, time, md5));
    assert ReadingOf(mails[u], json) == Some(m);
    UsableAt(mails, u, m, j.mailbox, json);
  }

  lemma UsableAt(mails: Mails, u: nat, m: Metadata, mailbox: string, json: JsonReader)
    requires u in mails && ReadingOf(mails[u], json) == Some(m) && IsCacheable(m)
    ensures u in Usable(ReadingsOf(mails, json), mailbox) && Usable(ReadingsOf(mails, json), mailbox)[u] == Filled(m, mailbox)
  {
    hide ReadingOf, IsCacheable, Filled;
  }

  lemma UsableClaims(mails: Mails, j: Job, u: nat, json: JsonReader)
    requires var s := Usable(ReadingsOf(mails, json), j.mailbox); u in s && NameOf(s[u]) == FileName(j.mailbox, j.path)
    ensures u in mails && Claims(mails[u], j, json)
  {
    hide ReadingOf, IsCacheable, Filled;
  }

  lemma CarriesOnce(mail: Mail, j: Job, n: int, k: int, md5: Digest, json: JsonReader)
    requires j.blockSize > 0 && Carries(mail, j, n, md5, json) && Carries(mail, j, k, md5, json)
    ensures n == k
  {
    hide Cut, ExtractMetadata, ExtractAttachment, ParseCachedMetadataText, DecryptString, StoredPath, SubjectName, MakeSubject, Hidden;
    var a :| ReadsAs(mail, MetadataFor(j, n, a, md5), json);
    var b :| ReadsAs(mail, MetadataFor(j, k, b, md5), json);
    assert MetadataFor(j, n, a, md5) == MetadataFor(j, k, b, md5);
  }

  // ---------------------------------------------------------------------------------------
  // The index that a download consults

  ghost predicate Restores(s: State, j: Job, uids: seq<nat>, n: int, md5: Digest, json: JsonReader)
    requires j.blockSize > 0
  {
    exists u: nat :: u in uids && LooseUnder(s, j, u, n, md5, json)
  }

  /** The entry of the path in the index that storing these messages builds. */
  ghost predicate RestoredEntry(s: State, j: Job, uids: seq<nat>, md5: Digest, json: JsonReader)
    requires j.blockSize > 0
  {
    var index := CacheAll(s.index, Usable(ReadingsOf(s.mails, json), j.mailbox), uids);
    && (PlainName(j) in index ==> EntryFits(s.mails, j, index[PlainName(j)], md5, json))
    && (forall n :: n in BlocksOf(index, PlainName(j)) <==> Restores(s, j, uids, n, md5, json))
  }

  lemma RestoresMore(s: State, j: Job, uids: seq<nat>, n: int, md5: Digest, json: JsonReader)
    requires j.blockSize > 0 && uids != []
    ensures Restores(s, j, uids, n, md5, json) <==>
            Restores(s, j, uids[..|uids| - 1], n, md5, json) || LooseUnder(s, j, uids[|uids| - 1], n, md5, json)
  {
    hide LooseUnder, Cut;
    assert uids == uids[..|uids| - 1] + [uids[|uids| - 1]];
  }

  /** A loose block is stored under the path. */
  lemma LooseIsStored(s: State, j: Job, u: nat, n: int, index: Index, md5: Digest, json: JsonReader)
    requires GoodJob(j) && j.blockSize > 0 && LooseUnder(s, j, u, n, md5, json)
    ensures 1 <= n <= |Blocks(j)| && RowFits(s.mails, j, n, SentRow(j, n, u, md5), md5, json)
    ensures var after := Cached(index, Usable(ReadingsOf(s.mails, json), j.mailbox), u);
            PlainName(j) in after && after[PlainName(j)] == EntryWith(index, PlainName(j), j, n, u, md5)
  {
    hide Carries, Cut, IsCached, GoodJob, Usable, ReadingsOf;
    CarriesInRange(s.mails[u], j, n, md5, json);
    CopyReads(s.mails, j, u, n, md5, json);
  }

  /** A message that holds no block of the file leaves the entry as it is. */
  lemma OtherIsStored(s: State, j: Job, u: nat, index: Index, md5: Digest, json: JsonReader)
    requires j.blockSize > 0 && OnlyThisFile(s, j, md5, json) && u in s.mails && !IsCached(s.index, j.mailbox, u)
    requires forall n :: !LooseUnder(s, j, u, n, md5, json)
    ensures var after := Cached(index, Usable(ReadingsOf(s.mails, json), j.mailbox), u);
            && (PlainName(j) in after <==> PlainName(j) in index)
            && (PlainName(j) in index ==> after[PlainName(j)] == index[PlainName(j)])
  {
    hide LooseUnder, Cut, IsCached, Claims, Usable, ReadingsOf;
    var usable := Usable(ReadingsOf(s.mails, json), j.mailbox);
    if u in usable && NameOf(usable[u]) == PlainName(j) {
      UsableClaims(s.mails, j, u, json);
    }
  }

  lemma {:induction false} RestoredBy(s: State, j: Job, uids: seq<nat>, md5: Digest, json: JsonReader)
    requires GoodJob(j) && j.blockSize > 0 && PlainName(j) !in s.index && OnlyThisFile(s, j, md5, json)
    requires forall k :: 0 <= k < |uids| ==> uids[k] in s.mails && !IsCached(s.index, j.mailbox, uids[k])
    ensures RestoredEntry(s, j, uids, md5, json)
  {
    hide EntryFits, LooseUnder, Cut, IsCached, Usable, ReadingsOf, OnlyThisFile, GoodJob, Cached, RowFits, EntryWith, Restores, PlainName;
    if uids == [] {
      NothingRestored(s, j, md5, json);
    } else {
      var init, last := uids[..|uids| - 1], uids[|uids| - 1];
      RestoredBy(s, j, init, md5, json);
      RestoredNext(s, j, uids, md5, json);
    }
  }

  lemma NothingRestored(s: State, j: Job, md5: Digest, json: JsonReader)
    requires j.blockSize > 0
    ensures forall n :: !Restores(s, j, [], n, md5, json)
  {
    hide LooseUnder, Cut;
  }

  lemma RestoredNext(s: State, j: Job, uids: seq<nat>, md5: Digest, json: JsonReader)
    requires GoodJob(j) && j.blockSize > 0 && OnlyThisFile(s, j, md5, json) && uids != []
    requires uids[|uids| - 1] in s.mails && !IsCached(s.index, j.mailbox, uids[|uids| - 1])
    requires RestoredEntry(s, j, uids[..|uids| - 1], md5, json)
    ensures RestoredEntry(s, j, uids, md5, json)
  {
    hide EntryFits, Cut, IsCached, Usable, ReadingsOf, OnlyThisFile, GoodJob, Cached, RowFits, Restores, PlainName, Carries, LooseUnder,
      SentRow;
    var last := uids[|uids| - 1];
    var before := CacheAll(s.index, Usable(ReadingsOf(s.mails, json), j.mailbox), uids[..|uids| - 1]);
    var after := Cached(before, Usable(ReadingsOf(s.mails, json), j.mailbox), last);
    forall k
      ensures Restores(s, j, uids, k, md5, json) <==>
              Restores(s, j, uids[..|uids| - 1], k, md5, json) || LooseUnder(s, j, last, k, md5, json)
    {
      RestoresMore(s, j, uids, k, md5, json);
    }
    if n :| LooseUnder(s, j, last, n, md5, json) {
      LooseIsStored(s, j, last, n, before, md5, json);
      EntryGrows(s.mails, j, before, PlainName(j), n, last, md5, json);
      forall k
        ensures LooseUnder(s, j, last, k, md5, json) <==> k == n
      {
        if LooseUnder(s, j, last, k, md5, json) { LooseOnce(s, j, last, n, k, md5, json); }
      }
    } else {
      OtherIsStored(s, j, last, before, md5, json);
    }
  }

  lemma LooseOnce(s: State, j: Job, u: nat, n: int, k: int, md5: Digest, json: JsonReader)
    requires j.blockSize > 0 && LooseUnder(s, j, u, n, md5, json) && LooseUnder(s, j, u, k, md5, json)
    ensures n == k
  {
    hide Carries, Cut, IsCached;
    CarriesOnce(s.mails[u], j, n, k, md5, json);
  }

  /** Block `n` is at hand for a download of the path: indexed, or, when the path is not indexed at
      all, on the server for the index to find. */
  ghost predicate AtHand(s: State, j: Job, n: int, md5: Digest, json: JsonReader)
    requires j.blockSize > 0
  {
    if PlainName(j) in s.index then n in s.index[PlainName(j)].blocks else Loose(s, j, n, md5, json)
  }

  ghost predicate Known(s: State, j: Job, md5: Digest, json: JsonReader)
    requires j.blockSize > 0
  {
    NameFits(s, j, PlainName(j), md5, json) && (PlainName(j) !in s.index ==> OnlyThisFile(s, j, md5, json))
  }

  lemma ConsultedEntry(s: State, j: Job, order: seq<nat>, md5: Digest, json: JsonReader)
    requires GoodJob(j) && j.blockSize > 0 && Known(s, j, md5, json) && Unknown(s, j.mailbox, order)
    ensures var index := Consulted(s, j.mailbox, j.path, order, json);
            && (PlainName(j) in index ==> EntryFits(s.mails, j, index[PlainName(j)], md5, json))
            && (forall n :: n in BlocksOf(index, PlainName(j)) <==> AtHand(s, j, n, md5, json))
  {
    hide EntryFits, LooseUnder, Cut, IsCached, Usable, ReadingsOf, OnlyThisFile, GoodJob, CacheAll;
    if PlainName(j) !in s.index {
      forall k | 0 <= k < |order|
        ensures order[k] in s.mails && !IsCached(s.index, j.mailbox, order[k])
      {
        assert order[k] in order;
      }
      RestoredBy(s, j, order, md5, json);
      forall n
        ensures Restores(s, j, order, n, md5, json) <==> Loose(s, j, n, md5, json)
      {
        LooseInOrder(s, j, order, n, md5, json);
      }
    }
  }

  lemma LooseInOrder(s: State, j: Job, order: seq<nat>, n: int, md5: Digest, json: JsonReader)
    requires j.blockSize > 0 && Unknown(s, j.mailbox, order)
    ensures Restores(s, j, order, n, md5, json) <==> Loose(s, j, n, md5, json)
  {
    hide Carries, Cut, IsCached;
    if Loose(s, j, n, md5, json) {
      var u: nat :| LooseUnder(s, j, u, n, md5, json);
      assert u in order;
    }
  }

  /** An entry without some block makes a record that is refused. */
  lemma ShortRecord(mails: Mails, j: Job, e: Entry, n: int, md5: Digest, json: JsonReader)
    requires j.blockSize > 0 && EntryFits(mails, j, e, md5, json) && 1 <= n <= |Blocks(j)| && n !in e.blocks
    ensures |RecordOf(PlainName(j), e).blocks| < RecordOf(PlainName(j), e).blockCount
  {
    hide Carries, Cut, Sorted;
    var all := Numbers(|Blocks(j)|);
    forall k | k in e.blocks.Keys
      ensures k in all - {n}
    {
      assert RowFits(mails, j, k, e.blocks[k], md5, json);
      CarriesInRange(mails[e.blocks[k].uid], j, k, md5, json);
    }
    assert all == (all - {n}) + {n};
    Subset(e.blocks.Keys, all - {n});
  }

  lemma Subset(a: set<int>, b: set<int>)
    requires a <= b
    ensures |a| <= |b|
  {
    assert b == a + (b - a);
  }

  /** A download succeeds, with the bytes of the file, exactly when the file is not empty and each of
      its blocks is at hand. */
  lemma DownloadIff(s: State, j: Job, order: seq<nat>, disk: D.Disk, md5: Digest, json: JsonReader)
    requires GoodJob(j) && j.blockSize > 0 && Known(s, j, md5, json) && Unknown(s, j.mailbox, order)
    requires LeftBy(s, j, order, disk, md5, json)
    ensures DownloadResult(s, j.mailbox, j.path, order, disk, md5, json) ==
            if j.content != [] && (forall n :: 1 <= n <= |Blocks(j)| ==> AtHand(s, j, n, md5, json)) then Some(j.content) else None
  {
    hide GoodJob, Cut, EntryFits, RecordOf, Consulted, AtHand, LeftBy, Unknown, Known, D.Downloaded, Fetcher;
    NotEmptyBlocks(j);
    ConsultedEntry(s, j, order, md5, json);
    var name, index := PlainName(j), Consulted(s, j.mailbox, j.path, order, json);
    if j.content != [] && (forall n :: 1 <= n <= |Blocks(j)| ==> AtHand(s, j, n, md5, json)) {
      assert AtHand(s, j, 1, md5, json);
      FullIfAllThere(s.mails, j, index[name], md5, json);
      FullEntryDownloads(s, j, order, disk, md5, json);
    } else if name in index {
      var n := MissingBlock(s, j, index[name], md5, json);
      ShortRecord(s.mails, j, index[name], n, md5, json);
    }
  }

  lemma MissingBlock(s: State, j: Job, e: Entry, md5: Digest, json: JsonReader) returns (n: int)
    requires j.blockSize > 0 && EntryFits(s.mails, j, e, md5, json) && forall n :: n in e.blocks <==> AtHand(s, j, n, md5, json)
    requires j.content == [] || !forall n :: 1 <= n <= |Blocks(j)| ==> AtHand(s, j, n, md5, json)
    ensures 1 <= n <= |Blocks(j)| && n !in e.blocks
  {
    hide Carries, Cut, AtHand;
    NotEmptyBlocks(j);
    if j.content == [] {
      var k := AnElement(e.blocks.Keys);
      assert RowFits(s.mails, j, k, e.blocks[k], md5, json);
      CarriesInRange(s.mails[e.blocks[k].uid], j, k, md5, json);
      assert false;
      n := 0;
    } else {
      n :| 1 <= n <= |Blocks(j)| && !AtHand(s, j, n, md5, json);
    }
  }

  /** From the server alone, with an index that does not know the path, the file downloads exactly
      when each block is on the server in a message that the index does not know; from a hidden
      mailbox as well. */
  lemma RestoredFromServer(s: State, j: Job, order: seq<nat>, md5: Digest, json: JsonReader)
    requires GoodJob(j) && j.blockSize > 0 && PlainName(j) !in s.index && OnlyThisFile(s, j, md5, json)
    requires Unknown(s, j.mailbox, order)
    ensures DownloadResult(s, j.mailbox, j.path, order, D.EMPTY_DISK, md5, json) ==
            if j.content != [] && (forall n :: 1 <= n <= |Blocks(j)| ==> Loose(s, j, n, md5, json)) then Some(j.content) else None
  {
    hide GoodJob, Cut, OnlyThisFile, Loose, Unknown, DownloadResult, LeftBy;
    NothingLeft(s, j, order, md5, json);
    assert NameFits(s, j, PlainName(j), md5, json);
    assert forall n :: AtHand(s, j, n, md5, json) <==> Loose(s, j, n, md5, json);
    DownloadIff(s, j, order, D.EMPTY_DISK, md5, json);
  }

  lemma NothingLeft(s: State, j: Job, order: seq<nat>, md5: Digest, json: JsonReader)
    requires j.blockSize > 0
    ensures LeftBy(s, j, order, D.EMPTY_DISK, md5, json)
  {
    hide Consulted, RecordOf, Cut;
  }

  // ---------------------------------------------------------------------------------------
  // What an upload does to the messages that the index knows

  ghost predicate RowUid(index: Index, j: Job, k: int, u: nat) {
    k in BlocksOf(index, StoredName(j)) && BlocksOf(index, StoredName(j))[k].uid == u
  }

  lemma RowUidCached(index: Index, j: Job, k: int, u: nat)
    requires RowUid(index, j, k, u)
    ensures IsCached(index, j.mailbox, u)
  {
    assert Mentions(index[StoredName(j)], u);
  }

  lemma SentRowUid(s: State, j: Job, n: nat, sending: Sending, md5: Digest)
    requires j.blockSize > 0 && 1 <= n <= |Blocks(j)| && sending.reported
    ensures RowUid(SendBlock(s, j, n, sending, md5).index, j, n, sending.uid)
  {
    SentIndex(s, j, n, sending, md5);
    hide SendBlock, Cut, MailFor, StoredName;
  }

  /** Indexing a block whose place was free loses no row. */
  lemma CachedStays(s: State, j: Job, n: nat, sending: Sending, md5: Digest, u: nat)
    requires j.blockSize > 0 && 1 <= n <= |Blocks(j)| && !Indexed(s.index, j, n) && IsCached(s.index, j.mailbox, u)
    ensures IsCached(SendBlock(s, j, n, sending, md5).index, j.mailbox, u)
  {
    hide SendBlock, Cut, StoredName, MailFor;
    var name :| name in s.index && name.mailFolder == j.mailbox && Mentions(s.index[name], u);
    var k :| k in s.index[name].blocks && s.index[name].blocks[k].uid == u;
    SentIndex(s, j, n, sending, md5);
    var after := SendBlock(s, j, n, sending, md5).index;
    if name != StoredName(j) { OtherNameStays(s, j, n, sending, md5, name); }
    assert k in after[name].blocks && after[name].blocks[k].uid == u;
    assert Mentions(after[name], u);
  }

  /** Only what was known and what is told is known afterwards. */
  lemma CachedOnly(s: State, j: Job, n: nat, sending: Sending, md5: Digest, u: nat)
    requires j.blockSize > 0 && 1 <= n <= |Blocks(j)| && IsCached(SendBlock(s, j, n, sending, md5).index, j.mailbox, u)
    ensures IsCached(s.index, j.mailbox, u) || (sending.reported && sending.uid == u)
  {
    hide SendBlock, Cut, StoredName, MailFor;
    var after := SendBlock(s, j, n, sending, md5).index;
    var name :| name in after && name.mailFolder == j.mailbox && Mentions(after[name], u);
    var k :| k in after[name].blocks && after[name].blocks[k].uid == u;
    SentIndex(s, j, n, sending, md5);
    if name != StoredName(j) || !sending.reported {
      OtherNameStays(s, j, n, sending, md5, name);
      assert Mentions(s.index[name], u);
    } else if k != n {
      assert k in s.index[name].blocks && s.index[name].blocks[k].uid == u;
      assert Mentions(s.index[name], u);
    }
  }

  ghost predicate ToldUid(present: set<int>, sendings: seq<Sending>, n: nat, u: nat)
    requires n <= |sendings|
  {
    exists k :: Told(present, sendings, n, k) && sendings[k - 1].uid == u
  }

  lemma ToldMore(present: set<int>, sendings: seq<Sending>, n: nat, u: nat)
    requires 1 <= n <= |sendings|
    ensures ToldUid(present, sendings, n, u) <==>
            ToldUid(present, sendings, n - 1, u) || (n !in present && sendings[n - 1].reported && sendings[n - 1].uid == u)
  {
    if ToldUid(present, sendings, n - 1, u) {
      var k :| Told(present, sendings, n - 1, k) && sendings[k - 1].uid == u;
      assert Told(present, sendings, n, k);
    }
    if n !in present && sendings[n - 1].reported && sendings[n - 1].uid == u {
      assert Told(present, sendings, n, n);
    }
    if ToldUid(present, sendings, n, u) {
      var k :| Told(present, sendings, n, k) && sendings[k - 1].uid == u;
      assert k < n ==> Told(present, sendings, n - 1, k);
    }
  }

  /** Where no row is written over, the index knows the messages it knew, and those it is told of. */
  lemma {:induction false} CachedAfter(s: State, j: Job, present: set<int>, sendings: seq<Sending>, md5: Digest, n: nat, u: nat)
    requires j.blockSize > 0 && n <= |Blocks(j)| == |sendings|
    requires forall k :: Indexed(s.index, j, k) ==> k in present
    ensures IsCached(SentUpTo(s, j, present, sendings, md5, n).index, j.mailbox, u) <==>
            IsCached(s.index, j.mailbox, u) || ToldUid(present, sendings, n, u)
  {
    hide *;
    if n == 0 {
      SentNothing(s, j, present, sendings, md5);
      ToldNothing(present, sendings, u);
    } else {
      var before := SentUpTo(s, j, present, sendings, md5, n - 1);
      CachedAfter(s, j, present, sendings, md5, n - 1, u);
      SentNext(s, j, present, sendings, md5, n);
      ToldMore(present, sendings, n, u);
      if n !in present {
        IndexedAfter(s, j, present, sendings, md5, n - 1, n);
        NotToldYet(present, sendings, n);
        CachedBySending(before, j, n, sendings[n - 1], md5, u);
      }
    }
  }

  lemma ToldNothing(present: set<int>, sendings: seq<Sending>, u: nat)
    ensures !ToldUid(present, sendings, 0, u)
  {
  }

  lemma NotToldYet(present: set<int>, sendings: seq<Sending>, n: nat)
    requires 1 <= n <= |sendings|
    ensures !Told(present, sendings, n - 1, n)
  {
  }

  lemma CachedBySending(s: State, j: Job, n: nat, sending: Sending, md5: Digest, u: nat)
    requires j.blockSize > 0 && 1 <= n <= |Blocks(j)| && !Indexed(s.index, j, n)
    ensures IsCached(SendBlock(s, j, n, sending, md5).index, j.mailbox, u) <==>
            IsCached(s.index, j.mailbox, u) || (sending.reported && sending.uid == u)
  {
    hide *;
    if IsCached(s.index, j.mailbox, u) {
      CachedStays(s, j, n, sending, md5, u);
    } else if sending.reported && sending.uid == u {
      SentRowUid(s, j, n, sending, md5);
      RowUidCached(SendBlock(s, j, n, sending, md5).index, j, n, u);
    } else if IsCached(SendBlock(s, j, n, sending, md5).index, j.mailbox, u) {
      CachedOnly(s, j, n, sending, md5, u);
    }
  }

  // ---------------------------------------------------------------------------------------
  // Upload, then download

  /** After the upload, block `n` is indexed under the path of the file: it was, or it is sent, its
      uid is told, and the mailbox is not a hidden one, for which the disguised path is indexed. */
  ghost predicate IndexedPlainly(s: State, j: Job, sendings: seq<Sending>, n: int)
    requires j.blockSize > 0 && |Blocks(j)| == |sendings|
  {
    n in BlocksOf(s.index, PlainName(j)) || (!Hidden(j) && Told(AlreadySent(s.index, j), sendings, |sendings|, n))
  }

  /** Block `n` is sent and its uid is not told, or it was on the server like that before. */
  ghost predicate MailedOnly(s: State, j: Job, sendings: seq<Sending>, n: int, md5: Digest, json: JsonReader)
    requires j.blockSize > 0 && |Blocks(j)| == |sendings|
  {
    || Loose(s, j, n, md5, json)
    || (1 <= n <= |sendings| && n !in AlreadySent(s.index, j) && !sendings[n - 1].reported)
  }

  /** Either some block ends up indexed under the path and all do, or none does and all are on the
      server for the index to find. */
  ghost predicate Retrievable(s: State, j: Job, sendings: seq<Sending>, md5: Digest, json: JsonReader)
    requires j.blockSize > 0 && |Blocks(j)| == |sendings|
  {
    var count := |Blocks(j)|;
    if exists n :: 1 <= n <= count && IndexedPlainly(s, j, sendings, n)
    then forall n :: 1 <= n <= count ==> IndexedPlainly(s, j, sendings, n)
    else forall n :: 1 <= n <= count ==> MailedOnly(s, j, sendings, n, md5, json)
  }

  /** The uids of new messages are new to the index, too. */
  ghost predicate NewToIndex(index: Index, mailbox: string, sendings: seq<Sending>) {
    forall k :: 0 <= k < |sendings| ==> !IsCached(index, mailbox, sendings[k].uid)
  }

  lemma PathsDiffer(j: Job)
    requires GoodJob(j) && Hidden(j)
    ensures PlainName(j) != StoredName(j)
  {
    hide Cut, Hidden;
    EncryptionRoundTrip(j.path);
  }

  lemma NamesSame(j: Job)
    requires !Hidden(j)
    ensures PlainName(j) == StoredName(j)
  {
  }

  /** The blocks under the path of the file, after the upload. */
  lemma PlainAfter(s: State, j: Job, sendings: seq<Sending>, md5: Digest, n: int)
    requires GoodJob(j) && j.blockSize > 0 && |Blocks(j)| == |sendings|
    ensures n in BlocksOf(Uploaded(s, j, sendings, md5).index, PlainName(j)) <==> IndexedPlainly(s, j, sendings, n)
  {
    hide Cut, SentUpTo, AlreadySent, Told, GoodJob, Hidden, PlainName, StoredName;
    var present := AlreadySent(s.index, j);
    if Hidden(j) {
      PathsDiffer(j);
      OthersAfter(s, j, present, sendings, md5, |Blocks(j)|, PlainName(j));
    } else {
      NamesSame(j);
      IndexedAfter(s, j, present, sendings, md5, |Blocks(j)|, n);
    }
  }

  /** The path is indexed after the upload exactly when one of its blocks is. */
  lemma PlainlyKnown(s: State, j: Job, sendings: seq<Sending>, md5: Digest, json: JsonReader)
    requires GoodJob(j) && j.blockSize > 0 && |Blocks(j)| == |sendings|
    requires NameFits(Uploaded(s, j, sendings, md5), j, PlainName(j), md5, json)
    ensures PlainName(j) in Uploaded(s, j, sendings, md5).index <==>
            exists n :: 1 <= n <= |Blocks(j)| && IndexedPlainly(s, j, sendings, n)
  {
    hide Cut, Uploaded, GoodJob, PlainName, Carries, IndexedPlainly;
    var t, name := Uploaded(s, j, sendings, md5), PlainName(j);
    if name in t.index {
      var e := t.index[name];
      var n := AnElement(e.blocks.Keys);
      assert RowFits(t.mails, j, n, e.blocks[n], md5, json);
      CarriesInRange(t.mails[e.blocks[n].uid], j, n, md5, json);
      PlainAfter(s, j, sendings, md5, n);
    }
    if n :| 1 <= n <= |Blocks(j)| && IndexedPlainly(s, j, sendings, n) {
      PlainAfter(s, j, sendings, md5, n);
    }
  }

  /** With the path not indexed, what is indexed is what is resumed. */
  lemma NoneOverwritten(s: State, j: Job, md5: Digest, json: JsonReader)
    requires GoodJob(j) && Partial(s, j, md5, json) && PlainName(j) !in s.index
    ensures forall k :: Indexed(s.index, j, k) ==> k in AlreadySent(s.index, j)
  {
    PresentIs(s, j, md5, json);
    hide GoodJob, Partial, AlreadySent, Hidden;
    if !Hidden(j) { NamesSame(j); }
  }

  /** A message that was there and not indexed still is. */
  lemma StaysLoose(s: State, j: Job, sendings: seq<Sending>, md5: Digest, u: nat, n: int, json: JsonReader)
    requires GoodJob(j) && j.blockSize > 0 && |Blocks(j)| == |sendings| && Fresh(s.mails, sendings) && u in s.mails
    requires Partial(s, j, md5, json) && PlainName(j) !in s.index
    ensures LooseUnder(Uploaded(s, j, sendings, md5), j, u, n, md5, json) <==> LooseUnder(s, j, u, n, md5, json)
  {
    hide Cut, GoodJob, Partial, AlreadySent, IsCached, Carries, MailFor, SentUpTo, PlainName;
    var present, count := AlreadySent(s.index, j), |Blocks(j)|;
    NoneOverwritten(s, j, md5, json);
    UploadAdds(s, j, present, sendings, md5, count);
    CachedAfter(s, j, present, sendings, md5, count, u);
    assert !ToldUid(present, sendings, count, u);
  }

  /** A message that was sent is one that the index does not know exactly when its uid was not told. */
  lemma SentLoose(s: State, j: Job, sendings: seq<Sending>, md5: Digest, k: nat, json: JsonReader)
    requires GoodJob(j) && GoodDigest(md5) && AllGood(sendings) && j.blockSize > 0 && |Blocks(j)| == |sendings|
    requires Fresh(s.mails, sendings) && NewToIndex(s.index, j.mailbox, sendings)
    requires Partial(s, j, md5, json) && PlainName(j) !in s.index && k < |sendings| && k + 1 !in AlreadySent(s.index, j)
    ensures LooseUnder(Uploaded(s, j, sendings, md5), j, sendings[k].uid, k + 1, md5, json) <==> !sendings[k].reported
  {
    hide Cut, GoodJob, GoodDigest, GoodSending, Partial, AlreadySent, IsCached, Carries, MailFor, SentUpTo, PlainName;
    var present, count := AlreadySent(s.index, j), |Blocks(j)|;
    NoneOverwritten(s, j, md5, json);
    UploadAdds(s, j, present, sendings, md5, count);
    MailCarries(j, k + 1, sendings[k], md5, json);
    CachedAfter(s, j, present, sendings, md5, count, sendings[k].uid);
    if sendings[k].reported {
      assert Told(present, sendings, count, k + 1);
    } else {
      NotTold(s.mails, present, sendings, k);
    }
  }

  lemma NotTold(mails: Mails, present: set<int>, sendings: seq<Sending>, k: nat)
    requires Fresh(mails, sendings) && k < |sendings| && !sendings[k].reported
    ensures !ToldUid(present, sendings, |sendings|, sendings[k].uid)
  {
    forall i | Told(present, sendings, |sendings|, i)
      ensures sendings[i - 1].uid != sendings[k].uid
    {
      assert i - 1 != k;
    }
  }

  /** Whose message it is that the upload leaves. */
  lemma NewOrOld(s: State, j: Job, sendings: seq<Sending>, md5: Digest, u: nat)
    requires j.blockSize > 0 && |Blocks(j)| == |sendings| && Fresh(s.mails, sendings)
    requires u in Uploaded(s, j, sendings, md5).mails
    ensures u in s.mails ||
            exists k :: 0 <= k < |sendings| && k + 1 !in AlreadySent(s.index, j) && sendings[k].uid == u
  {
    hide Cut, AlreadySent, MailFor, SentUpTo;
    UploadAdds(s, j, AlreadySent(s.index, j), sendings, md5, |Blocks(j)|);
  }

  /** What the index can find after the upload is what it could find before, and what was sent without
      its uid being told. */
  lemma LooseAfter(s: State, j: Job, sendings: seq<Sending>, md5: Digest, n: int, json: JsonReader)
    requires GoodJob(j) && GoodDigest(md5) && AllGood(sendings) && j.blockSize > 0 && |Blocks(j)| == |sendings|
    requires Fresh(s.mails, sendings) && NewToIndex(s.index, j.mailbox, sendings)
    requires Partial(s, j, md5, json) && PlainName(j) !in s.index
    ensures Loose(Uploaded(s, j, sendings, md5), j, n, md5, json) <==> MailedOnly(s, j, sendings, n, md5, json)
  {
    hide Cut, GoodJob, GoodDigest, GoodSending, Partial, AlreadySent, IsCached, Carries, Uploaded, PlainName, Fresh, NewToIndex,
      LooseUnder;
    var t := Uploaded(s, j, sendings, md5);
    if Loose(t, j, n, md5, json) {
      var u: nat :| LooseUnder(t, j, u, n, md5, json);
      LooseHere(t, j, u, n, md5, json);
      NewOrOld(s, j, sendings, md5, u);
      if u in s.mails {
        StaysLoose(s, j, sendings, md5, u, n, json);
      } else {
        var k :| 0 <= k < |sendings| && k + 1 !in AlreadySent(s.index, j) && sendings[k].uid == u;
        SentCarries(s, j, sendings, md5, k, json);
        CarriesOnce(t.mails[u], j, n, k + 1, md5, json);
        SentLoose(s, j, sendings, md5, k, json);
      }
    }
    if Loose(s, j, n, md5, json) {
      var u: nat :| LooseUnder(s, j, u, n, md5, json);
      LooseHere(s, j, u, n, md5, json);
      StaysLoose(s, j, sendings, md5, u, n, json);
    }
    if 1 <= n <= |sendings| && n !in AlreadySent(s.index, j) && !sendings[n - 1].reported {
      SentLoose(s, j, sendings, md5, n - 1, json);
    }
  }

  lemma LooseHere(s: State, j: Job, u: nat, n: int, md5: Digest, json: JsonReader)
    requires j.blockSize > 0 && LooseUnder(s, j, u, n, md5, json)
    ensures u in s.mails && Carries(s.mails[u], j, n, md5, json)
  {
    hide Carries, IsCached, Cut;
  }

  lemma SentCarries(s: State, j: Job, sendings: seq<Sending>, md5: Digest, k: nat, json: JsonReader)
    requires GoodJob(j) && GoodDigest(md5) && AllGood(sendings) && j.blockSize > 0 && |Blocks(j)| == |sendings|
    requires Fresh(s.mails, sendings) && k < |sendings| && k + 1 !in AlreadySent(s.index, j)
    ensures var t := Uploaded(s, j, sendings, md5);
            sendings[k].uid in t.mails && Carries(t.mails[sendings[k].uid], j, k + 1, md5, json)
  {
    hide Cut, GoodJob, GoodDigest, GoodSending, AlreadySent, Carries, MailFor, SentUpTo;
    UploadAdds(s, j, AlreadySent(s.index, j), sendings, md5, |Blocks(j)|);
    MailCarries(j, k + 1, sendings[k], md5, json);
  }

  lemma OnlyThisFileAfter(s: State, j: Job, sendings: seq<Sending>, md5: Digest, json: JsonReader)
    requires GoodJob(j) && GoodDigest(md5) && AllGood(sendings) && j.blockSize > 0 && |Blocks(j)| == |sendings|
    requires Fresh(s.mails, sendings) && Partial(s, j, md5, json) && PlainName(j) !in s.index && OnlyThisFile(s, j, md5, json)
    ensures OnlyThisFile(Uploaded(s, j, sendings, md5), j, md5, json)
  {
    hide Cut, GoodJob, GoodDigest, GoodSending, Partial, AlreadySent, IsCached, Carries, MailFor, SentUpTo, PlainName, Claims;
    var t, present, count := Uploaded(s, j, sendings, md5), AlreadySent(s.index, j), |Blocks(j)|;
    NoneOverwritten(s, j, md5, json);
    UploadAdds(s, j, present, sendings, md5, count);
    forall u: nat | u in t.mails && !IsCached(t.index, j.mailbox, u) && Claims(t.mails[u], j, json)
      ensures exists n :: LooseUnder(t, j, u, n, md5, json)
    {
      NewOrOld(s, j, sendings, md5, u);
      if u in s.mails {
        CachedAfter(s, j, present, sendings, md5, count, u);
        var n :| LooseUnder(s, j, u, n, md5, json);
        assert LooseUnder(t, j, u, n, md5, json);
      } else {
        var k :| 0 <= k < |sendings| && k + 1 !in present && sendings[k].uid == u;
        SentCarries(s, j, sendings, md5, k, json);
        assert LooseUnder(t, j, u, k + 1, md5, json);
      }
    }
  }

  /** After the upload the block is at hand in one of two ways, according to whether any is indexed
      under the path. */
  lemma AtHandAfter(s: State, j: Job, sendings: seq<Sending>, md5: Digest, n: int, json: JsonReader)
    requires GoodJob(j) && GoodDigest(md5) && AllGood(sendings) && j.blockSize > 0 && |Blocks(j)| == |sendings|
    requires Fresh(s.mails, sendings) && NewToIndex(s.index, j.mailbox, sendings) && Partial(s, j, md5, json)
    ensures var t := Uploaded(s, j, sendings, md5);
            AtHand(t, j, n, md5, json) <==>
            if PlainName(j) in t.index then IndexedPlainly(s, j, sendings, n) else MailedOnly(s, j, sendings, n, md5, json)
  {
    hide Cut, GoodJob, GoodDigest, GoodSending, Partial, Uploaded, PlainName, Fresh, NewToIndex, Loose, MailedOnly, IndexedPlainly;
    PlainAfter(s, j, sendings, md5, n);
    var t := Uploaded(s, j, sendings, md5);
    if PlainName(j) !in t.index {
      PlainWasAbsent(s, j, sendings, md5);
      LooseAfter(s, j, sendings, md5, n, json);
    }
  }

  /** An upload removes no entry. */
  lemma {:induction false} EntriesStay(s: State, j: Job, present: set<int>, sendings: seq<Sending>, md5: Digest, n: nat, name: FileName)
    requires j.blockSize > 0 && n <= |Blocks(j)| == |sendings| && name in s.index
    ensures name in SentUpTo(s, j, present, sendings, md5, n).index
  {
    hide *;
    if n == 0 {
      SentNothing(s, j, present, sendings, md5);
    } else {
      EntriesStay(s, j, present, sendings, md5, n - 1, name);
      SentNext(s, j, present, sendings, md5, n);
      var before := SentUpTo(s, j, present, sendings, md5, n - 1);
      if n !in present {
        SentIndex(before, j, n, sendings[n - 1], md5);
        if name != StoredName(j) || !sendings[n - 1].reported { OtherNameStays(before, j, n, sendings[n - 1], md5, name); }
      }
    }
  }

  lemma PlainWasAbsent(s: State, j: Job, sendings: seq<Sending>, md5: Digest)
    requires j.blockSize > 0 && |Blocks(j)| == |sendings| && PlainName(j) !in Uploaded(s, j, sendings, md5).index
    ensures PlainName(j) !in s.index
  {
    hide SentUpTo, AlreadySent, Cut, PlainName;
    if PlainName(j) in s.index {
      EntriesStay(s, j, AlreadySent(s.index, j), sendings, md5, |Blocks(j)|, PlainName(j));
    }
  }

  lemma KnownAfter(s: State, j: Job, sendings: seq<Sending>, md5: Digest, json: JsonReader)
    requires GoodJob(j) && GoodDigest(md5) && AllGood(sendings) && j.blockSize > 0 && |Blocks(j)| == |sendings|
    requires Fresh(s.mails, sendings) && Partial(s, j, md5, json)
    requires PlainName(j) !in s.index ==> OnlyThisFile(s, j, md5, json)
    ensures Known(Uploaded(s, j, sendings, md5), j, md5, json)
  {
    hide *;
    var t := Uploaded(s, j, sendings, md5);
    UploadIsSent(s, j, sendings, md5);
    UploadKeepsPartial(s, j, AlreadySent(s.index, j), sendings, md5, |Blocks(j)|, json);
    PartialMeans(t, j, md5, json);
    if PlainName(j) !in t.index {
      PlainWasAbsent(s, j, sendings, md5);
      OnlyThisFileAfter(s, j, sendings, md5, json);
    }
    KnownMeans(t, j, md5, json);
  }

  lemma KnownMeans(s: State, j: Job, md5: Digest, json: JsonReader)
    requires j.blockSize > 0
    ensures Known(s, j, md5, json) <==>
            NameFits(s, j, PlainName(j), md5, json) && (PlainName(j) !in s.index ==> OnlyThisFile(s, j, md5, json))
  {
    hide NameFits, OnlyThisFile;
  }

  /** Uploading a file, from the start or on top of a part of it, and downloading it again yields its
      bytes exactly when the file is not empty and, as replies, index and mailbox have it before the
      upload, either all of its blocks end up indexed under its path, or none does and all are on
      the server for the index to find. */
  lemma UploadThenDownload(s: State, j: Job, sendings: seq<Sending>, order: seq<nat>, md5: Digest, json: JsonReader)
    requires GoodJob(j) && GoodDigest(md5) && AllGood(sendings) && j.blockSize > 0 && |Blocks(j)| == |sendings|
    requires Fresh(s.mails, sendings) && NewToIndex(s.index, j.mailbox, sendings)
    requires Partial(s, j, md5, json) && (PlainName(j) !in s.index ==> OnlyThisFile(s, j, md5, json))
    requires Unknown(Uploaded(s, j, sendings, md5), j.mailbox, order)
    ensures DownloadResult(Uploaded(s, j, sendings, md5), j.mailbox, j.path, order, D.EMPTY_DISK, md5, json) ==
            if j.content != [] && Retrievable(s, j, sendings, md5, json) then Some(j.content) else None
  {
    hide GoodJob, Cut, GoodDigest, GoodSending, Partial, Uploaded, PlainName, Fresh, NewToIndex, OnlyThisFile, Unknown, AtHand, LeftBy,
      Known, DownloadResult, IndexedPlainly, MailedOnly, NameFits;
    var t := Uploaded(s, j, sendings, md5);
    KnownAfter(s, j, sendings, md5, json);
    KnownMeans(t, j, md5, json);
    PlainlyKnown(s, j, sendings, md5, json);
    forall n
      ensures AtHand(t, j, n, md5, json) <==>
              if PlainName(j) in t.index then IndexedPlainly(s, j, sendings, n) else MailedOnly(s, j, sendings, n, md5, json)
    {
      AtHandAfter(s, j, sendings, md5, n, json);
    }
    NothingLeft(t, j, order, md5, json);
    DownloadIff(t, j, order, D.EMPTY_DISK, md5, json);
  }

  /** From nothing: a file in a plain mailbox can be retrieved exactly when the replies tell all uids
      or none, one in a hidden mailbox exactly when they tell none. */
  lemma FromNothing(s: State, j: Job, sendings: seq<Sending>, md5: Digest, json: JsonReader)
    requires j.blockSize > 0 && |Blocks(j)| == |sendings| && j.content != []
    requires Existing(s.index, j).None? && forall n :: !Loose(s, j, n, md5, json)
    ensures Retrievable(s, j, sendings, md5, json) <==>
            || (forall k :: 0 <= k < |sendings| ==> !sendings[k].reported)
            || (!Hidden(j) && forall k :: 0 <= k < |sendings| ==> sendings[k].reported)
  {
    hide Cut, Hidden, Loose, StoredPath;
    NotEmptyBlocks(j);
    forall n | 1 <= n <= |sendings|
      ensures IndexedPlainly(s, j, sendings, n) <==> !Hidden(j) && sendings[n - 1].reported
      ensures MailedOnly(s, j, sendings, n, md5, json) <==> !sendings[n - 1].reported
    {
    }
    hide IndexedPlainly, MailedOnly, Existing;
    if k :| 0 <= k < |sendings| && sendings[k].reported {
      assert IndexedPlainly(s, j, sendings, k + 1) <==> !Hidden(j);
      assert !MailedOnly(s, j, sendings, k + 1, md5, json);
      if i :| 0 <= i < |sendings| && !sendings[i].reported {
        assert !IndexedPlainly(s, j, sendings, i + 1);
      }
    } else {
      assert forall n :: 1 <= n <= |sendings| ==> !IndexedPlainly(s, j, sendings, n);
    }
  }

  // ---------------------------------------------------------------------------------------
  // What an upload sends

  /** What need not be sent: the numbers that the entry of the path lists, or, for a hidden mailbox
      without one, those that the entry of the disguised path lists. */
  lemma AlreadySentIs(index: Index, j: Job, n: int)
    requires j.blockSize > 0
    ensures n in AlreadySent(index, j) <==>
            && 1 <= n <= |Blocks(j)|
            && var plain, stored := FileName(j.mailbox, j.path), FileName(j.mailbox, EncryptString(j.path));
               if plain in index then n in index[plain].blocks
               else Hidden(j) && stored in index && n in index[stored].blocks
  {
    hide Cut, Hidden, EncryptString;
  }

  /** The new message was built for this block, with this name and mode in its subject, and this path. */
  ghost predicate SentAs(t: State, j: Job, sendings: seq<Sending>, k: nat, name: string, mode: string, path: string)
    requires j.blockSize > 0 && |Blocks(j)| == |sendings| && k < |sendings|
  {
    sendings[k].uid in t.mails && exists m :: Built(t.mails[sendings[k].uid], m, j, sendings[k], k, name, mode, path)
  }

  ghost predicate Built(mail: Mail, m: Metadata, j: Job, sending: Sending, k: nat, name: string, mode: string, path: string)
    requires j.blockSize > 0 && k < |Blocks(j)|
  {
    && mail == Mail(BuildMessage(m, sending.envelope, name, Blocks(j)[k]), QP.Encode(BytesOf(ToLegacyText(m))))
    && m.localPath == path && m.mailFolder == j.mailbox
    && m.subject == name + ("/" + mode + "/" + Decimal(k + 1) + "-" + Decimal(|Blocks(j)|))
  }

  /** To a hidden mailbox, name and path of the file are mailed in their disguise. */
  lemma HiddenUpload(s: State, j: Job, sendings: seq<Sending>, md5: Digest, k: nat, a: string, b: string)
    requires j.blockSize > 0 && |Blocks(j)| == |sendings| && Fresh(s.mails, sendings)
    requires k < |sendings| && k + 1 !in AlreadySent(s.index, j)
    requires NoSlash(b) && (j.mailbox == a + "/." + b || j.mailbox == a + "\\." + b || j.mailbox == "." + b)
    ensures SentAs(Uploaded(s, j, sendings, md5), j, sendings, k, EncryptString(j.fileName), "encrypted", EncryptString(j.path))
  {
    HiddenMailbox(a, b);
    MessageSent(s, j, sendings, md5, k);
    hide ShouldEncryptMailbox, EncryptString, BuildMessage, ToLegacyText, QP.Encode, Uploaded, Cut, Decimal, AlreadySent;
    SubjectText(SubjectName(j), true, k + 1, |Blocks(j)|);
    assert Built(MailFor(j, k + 1, sendings[k], md5), MetadataFor(j, k + 1, sendings[k].time, md5), j, sendings[k], k,
                 EncryptString(j.fileName), "encrypted", EncryptString(j.path));
  }

  /** To any other, they are mailed as they are. */
  lemma PlainUpload(s: State, j: Job, sendings: seq<Sending>, md5: Digest, k: nat, a: string, b: string)
    requires j.blockSize > 0 && |Blocks(j)| == |sendings| && Fresh(s.mails, sendings)
    requires k < |sendings| && k + 1 !in AlreadySent(s.index, j)
    requires NoSlash(b) && (b == [] || b[0] != '.') && (j.mailbox == a + "/" + b || j.mailbox == a + "\\" + b || j.mailbox == b)
    ensures SentAs(Uploaded(s, j, sendings, md5), j, sendings, k, j.fileName, "plain", j.path)
  {
    PlainMailbox(a, b);
    MessageSent(s, j, sendings, md5, k);
    hide ShouldEncryptMailbox, EncryptString, BuildMessage, ToLegacyText, QP.Encode, Uploaded, Cut, Decimal, AlreadySent;
    SubjectText(SubjectName(j), false, k + 1, |Blocks(j)|);
    assert Built(MailFor(j, k + 1, sendings[k], md5), MetadataFor(j, k + 1, sendings[k].time, md5), j, sendings[k], k,
                 j.fileName, "plain", j.path);
  }

  lemma MessageSent(s: State, j: Job, sendings: seq<Sending>, md5: Digest, k: nat)
    requires j.blockSize > 0 && |Blocks(j)| == |sendings| && Fresh(s.mails, sendings)
    requires k < |sendings| && k + 1 !in AlreadySent(s.index, j)
    ensures var t := Uploaded(s, j, sendings, md5);
            sendings[k].uid in t.mails && t.mails[sendings[k].uid] == MailFor(j, k + 1, sendings[k], md5)
  {
    hide Cut, AlreadySent, MailFor, SentUpTo;
    UploadAdds(s, j, AlreadySent(s.index, j), sendings, md5, |Blocks(j)|);
  }

  /** What an upload sends, however far it gets: the missing blocks and only those, each carrying its
      bytes; everything that was on the server stays. */
  lemma UploadSendsMissing(s: State, j: Job, sendings: seq<Sending>, md5: Digest, n: nat, json: JsonReader)
    requires GoodJob(j) && GoodDigest(md5) && AllGood(sendings) && n <= |Blocks(j)| == |sendings|
    requires Fresh(s.mails, sendings) && Partial(s, j, md5, json)
    ensures var t := SentUpTo(s, j, AlreadySent(s.index, j), sendings, md5, n);
            && Extends(t.mails, s.mails) && Partial(t, j, md5, json)
            && (forall u: nat :: u in t.mails ==> u in s.mails || NewUid(AlreadySent(s.index, j), sendings, n, u))
            && (forall k :: 0 <= k < n && k + 1 !in AlreadySent(s.index, j) ==>
                  sendings[k].uid in t.mails && Carries(t.mails[sendings[k].uid], j, k + 1, md5, json))
  {
    hide GoodJob, GoodDigest, Cut, Carries, SentUpTo, AlreadySent, Partial, MailFor, NewUid, Fresh;
    JobSize(j);
    var present := AlreadySent(s.index, j);
    UploadAdds(s, j, present, sendings, md5, n);
    UploadKeepsPartial(s, j, present, sendings, md5, n, json);
    forall k | 0 <= k < n && k + 1 !in present
      ensures Carries(MailFor(j, k + 1, sendings[k], md5), j, k + 1, md5, json)
    {
      MailCarries(j, k + 1, sendings[k], md5, json);
    }
  }

  /** An upload looks at block numbers only: it sends nothing exactly when all of them are indexed,
      whatever file they belong to. */
  lemma SendsNothingIff(s: State, j: Job, sendings: seq<Sending>, md5: Digest)
    requires j.blockSize > 0 && |Blocks(j)| == |sendings| && Fresh(s.mails, sendings)
    ensures Uploaded(s, j, sendings, md5) == s <==> forall n :: 1 <= n <= |Blocks(j)| ==> n in AlreadySent(s.index, j)
  {
    hide *;
    var present, count := AlreadySent(s.index, j), |Blocks(j)|;
    UploadIsSent(s, j, sendings, md5);
    if forall n :: 1 <= n <= count ==> n in present {
      NothingSent(s, j, present, sendings, md5, count);
    } else {
      var n :| 1 <= n <= count && n !in present;
      UploadAdds(s, j, present, sendings, md5, count);
      MissingIsAdded(s.mails, Uploaded(s, j, sendings, md5).mails, j, present, sendings, md5, count, n);
    }
  }

  lemma MissingIsAdded(before: Mails, after: Mails, j: Job, present: set<int>, sendings: seq<Sending>, md5: Digest, n: nat, k: int)
    requires j.blockSize > 0 && n <= |Blocks(j)| == |sendings| && Fresh(before, sendings)
    requires MailsAdded(before, after, j, present, sendings, md5, n) && 1 <= k <= n && k !in present
    ensures before != after
  {
    hide MailFor, Cut;
    var i := k - 1;
    assert sendings[i].uid in after && sendings[i].uid !in before;
  }
}
