/** Where a byte of a file lies among its blocks, and which bytes a request asks for. */
module Streaming {
  import opened Basics
  import opened Text
  import opened Records

  // ---------------------------------------------------------------------------------------
  // Block offsets

  /** The recorded size of a block, or the configured one when none was recorded. */
  function EffectiveSize(block: BlockRecord, fallback: nat): nat {
    if block.size == 0 then fallback else block.size
  }

  /** The sums of the sizes of the first 0, 1, ..., n blocks. */
  function SizeSums(blocks: seq<BlockRecord>, fallback: nat, n: nat): (sums: seq<nat>)
    requires n <= |blocks|
    ensures |sums| == n + 1
  {
    if n == 0 then [0]
    else
      var sums := SizeSums(blocks, fallback, n - 1);
      sums + [sums[n - 1] + EffectiveSize(blocks[n - 1], fallback)]
  }

  /** Where each block starts, and last the file size when it is known. */
  function BlockOffsets(file: FileRecord, fallback: nat): seq<nat> {
    var sums := SizeSums(file.blocks, fallback, |file.blocks|);
    if file.size > 0 then sums[|file.blocks| := file.size] else sums
  }

  method BuildBlockOffsets(file: FileRecord, fallback: nat) returns (offsets: seq<nat>)
    ensures offsets == BlockOffsets(file, fallback)
  {
    offsets := [0];
    var i := 0;
    while i < |file.blocks|
      invariant 0 <= i <= |file.blocks| && offsets == SizeSums(file.blocks, fallback, i)
    {
      var size := file.blocks[i].size;
      if size == 0 {
        size := fallback;
      }
      offsets := offsets + [offsets[i] + size];
      i := i + 1;
    }
    if file.size > 0 {
      offsets := offsets[|offsets| - 1 := file.size];
    }
  }

  ghost predicate StartsBy(offsets: seq<nat>, byteOffset: nat, upTo: nat) {
    |offsets| > 1 ==> forall i :: 0 <= i <= upTo && i < |offsets| ==> offsets[i] <= byteOffset
  }

  /** The first block at or after `from` that ends beyond the byte, and the byte's place in it;
      past the end, the last block. The subtractions never go below zero. */
  function BlockFor(offsets: seq<nat>, byteOffset: nat, from: nat): (nat, nat)
    requires StartsBy(offsets, byteOffset, from)
    decreases |offsets| - from
  {
    if from + 1 < |offsets| then
      if byteOffset < offsets[from + 1] then (from, byteOffset - offsets[from])
      else BlockFor(offsets, byteOffset, from + 1)
    else if |offsets| > 1 then (|offsets| - 2, byteOffset - offsets[|offsets| - 2])
    else (0, byteOffset)
  }

  method FindBlockForOffset(offsets: seq<nat>, byteOffset: nat) returns (block: nat, within: nat)
    requires StartsBy(offsets, byteOffset, 0)
    ensures (block, within) == BlockFor(offsets, byteOffset, 0)
  {
    var i := 0;
    while i + 1 < |offsets|
      invariant StartsBy(offsets, byteOffset, i)
      invariant BlockFor(offsets, byteOffset, i) == BlockFor(offsets, byteOffset, 0)
    {
      if byteOffset < offsets[i + 1] {
        return i, byteOffset - offsets[i];
      }
      i := i + 1;
    }
    if |offsets| > 1 {
      return |offsets| - 2, byteOffset - offsets[|offsets| - 2];
    }
    return 0, byteOffset;
  }

  lemma {:induction false} FirstSumIsZero(blocks: seq<BlockRecord>, fallback: nat, n: nat)
    requires n <= |blocks|
    ensures SizeSums(blocks, fallback, n)[0] == 0
  {
    if n > 0 {
      FirstSumIsZero(blocks, fallback, n - 1);
    }
  }

  /** Where in a file of known size a stream that starts at `position` begins. */
  function Locate(file: FileRecord, fallback: nat, position: nat): (nat, nat) {
    FirstSumIsZero(file.blocks, fallback, |file.blocks|);
    BlockFor(BlockOffsets(file, fallback), position, 0)
  }

  // ---------------------------------------------------------------------------------------
  // Bytes

  function Concat(payloads: seq<seq<byte>>): seq<byte> {
    if payloads == [] then [] else Concat(payloads[..|payloads| - 1]) + payloads[|payloads| - 1]
  }

  lemma {:induction false} ConcatPrefix(payloads: seq<seq<byte>>, i: nat)
    requires i <= |payloads|
    ensures Concat(payloads[..i]) <= Concat(payloads)
    decreases |payloads| - i
  {
    if i == |payloads| {
      assert payloads[..i] == payloads;
    } else {
      ConcatPrefix(payloads, i + 1);
      assert payloads[..i + 1][..i] == payloads[..i];
    }
  }

  lemma ConcatNext(payloads: seq<seq<byte>>, i: nat)
    requires i < |payloads|
    ensures Concat(payloads[..i + 1]) == Concat(payloads[..i]) + payloads[i]
    ensures Concat(payloads[..i + 1]) <= Concat(payloads)
  {
    assert payloads[..i + 1][..i] == payloads[..i];
    ConcatPrefix(payloads, i + 1);
  }

  /** The index has the size of the block, or has none and the configured one is right. */
  ghost predicate SizeOnRecord(block: BlockRecord, fallback: nat, size: nat) {
    block.size == size || (block.size == 0 && fallback == size)
  }

  /** The index agrees with the blocks: no block is empty, every block but the last has its size
      on record, and the file size is the total. */
  ghost predicate WellRecorded(file: FileRecord, fallback: nat, payloads: seq<seq<byte>>) {
    && |payloads| == |file.blocks| > 0
    && (forall i :: 0 <= i < |payloads| ==> payloads[i] != [])
    && (forall i :: 0 <= i < |payloads| - 1 ==> SizeOnRecord(file.blocks[i], fallback, |payloads[i]|))
    && file.size == |Concat(payloads)|
  }

  lemma {:induction false} SumIsConcat(file: FileRecord, fallback: nat, payloads: seq<seq<byte>>, n: nat, i: nat)
    requires WellRecorded(file, fallback, payloads) && i <= n <= |payloads| && i < |payloads|
    ensures SizeSums(file.blocks, fallback, n)[i] == |Concat(payloads[..i])|
  {
    if i < n {
      SumIsConcat(file, fallback, payloads, n - 1, i);
    } else if n > 0 {
      SumIsConcat(file, fallback, payloads, n - 1, n - 1);
      ConcatNext(payloads, n - 1);
    }
  }

  lemma OffsetIsConcat(file: FileRecord, fallback: nat, payloads: seq<seq<byte>>, i: nat)
    requires WellRecorded(file, fallback, payloads) && i <= |payloads|
    ensures BlockOffsets(file, fallback)[i] == |Concat(payloads[..i])|
  {
    if i < |payloads| {
      SumIsConcat(file, fallback, payloads, |payloads|, i);
      ConcatNext(payloads, 0);
    } else {
      assert payloads[..i] == payloads;
      ConcatNext(payloads, 0);
    }
  }

  /** The block found for a byte of the file is the one that holds it. */
  lemma {:induction false} BlockForHoldsByte(file: FileRecord, fallback: nat, payloads: seq<seq<byte>>,
                                             position: nat, from: nat)
    requires WellRecorded(file, fallback, payloads) && from < |payloads|
    requires |Concat(payloads[..from])| <= position < file.size
    requires StartsBy(BlockOffsets(file, fallback), position, from)
    ensures var (block, within) := BlockFor(BlockOffsets(file, fallback), position, from);
            && block < |payloads| && within < |payloads[block]|
            && position == |Concat(payloads[..block])| + within
    decreases |payloads| - from
  {
    var offsets := BlockOffsets(file, fallback);
    OffsetIsConcat(file, fallback, payloads, from);
    OffsetIsConcat(file, fallback, payloads, from + 1);
    ConcatNext(payloads, from);
    if offsets[from + 1] <= position {
      assert payloads[..|payloads|] == payloads;
      BlockForHoldsByte(file, fallback, payloads, position, from + 1);
    }
  }

  lemma LocateHoldsByte(file: FileRecord, fallback: nat, payloads: seq<seq<byte>>, position: nat)
    requires WellRecorded(file, fallback, payloads) && position < file.size
    ensures var (block, within) := Locate(file, fallback, position);
            && block < |payloads| && within < |payloads[block]|
            && position == |Concat(payloads[..block])| + within
  {
    FirstSumIsZero(file.blocks, fallback, |file.blocks|);
    BlockForHoldsByte(file, fallback, payloads, position, 0);
  }

  // ---------------------------------------------------------------------------------------
  // Range requests

  datatype ByteRange = ByteRange(first: nat, last: nat)

  /** The requested range, cut to the file; `None` when the header is not understood or no byte of
      the file is in the range. Only the first of several ranges is used. */
  function ParseRangeHeader(header: string, total: nat): (r: Option<ByteRange>)
    ensures r.Some? ==> r.value.first <= r.value.last < total
  {
    if !StartsWith(header, "bytes=") || total == 0 then None
    else
      var spec := FirstSpec(header[6..]);
      var dash := Find(spec, "-", 0);
      if dash.None? then None
      else Requested(Trim(spec[..dash.value], SPACE), Trim(spec[dash.value + 1..], SPACE), total)
  }

  /** The range between the texts before and after the dash. */
  function Requested(first: string, last: string, total: nat): (r: Option<ByteRange>)
    requires total > 0
    ensures r.Some? ==> r.value.first <= r.value.last < total
  {
    if first == [] then
      var suffix := ParseUnsigned(last);
      if suffix.None? || suffix.value == 0 then None
      else Clip(if suffix.value >= total then 0 else total - suffix.value, total - 1, total)
    else
      var start := ParseUnsigned(first);
      var end := if last == [] then Some(total - 1) else ParseUnsigned(last);
      if start.None? || end.None? then None
      else Clip(start.value, end.value, total)
  }

  function FirstSpec(spec: string): string {
    var comma := Find(spec, ",", 0);
    if comma.Some? then spec[..comma.value] else spec
  }

  function Clip(start: nat, end: nat, total: nat): (r: Option<ByteRange>)
    requires total > 0
    ensures r.Some? <==> start <= end && start < total
    ensures r.Some? ==> r.value.first <= r.value.last < total
  {
    if start > end || start >= total then None
    else Some(ByteRange(start, if end >= total then total - 1 else end))
  }

  lemma RangeSplits(a: string, b: string, total: nat)
    requires AllDigits(a) && AllDigits(b)
    ensures ParseRangeHeader("bytes=" + (a + "-" + b), total) == if total == 0 then None else Requested(a, b, total)
  {
    var header, spec := "bytes=" + (a + "-" + b), a + ['-'] + b;
    assert "-" == ['-'];
    assert header[..6] == "bytes=" && header[6..] == spec;
    DigitsExclude(a, ',');
    DigitsExclude(b, ',');
    FindNoChar(spec, ',');
    DigitsExclude(a, '-');
    FindChar(a, '-', b);
    assert spec[..|a|] == a && spec[|a| + 1..] == b;
    TrimDigits(a);
    TrimDigits(b);
  }

  lemma TrimDigits(s: string)
    requires AllDigits(s)
    ensures Trim(s, SPACE) == s
  {
    if s != [] {
      assert IsDigit(s[0]) && IsDigit(s[|s| - 1]);
    }
  }

  /** Other units than bytes are not understood. */
  lemma OtherUnits(header: string, total: nat)
    requires |header| < 6 || header[..6] != "bytes="
    ensures ParseRangeHeader(header, total) == None
  {
  }

  ghost predicate Blank(s: string) { forall i :: 0 <= i < |s| ==> s[i] in {' ', '\t', '\n', '\r', '\U{0B}', '\U{0C}'} }

  /** Blanks around the numbers make no difference, nor do further ranges. */
  lemma BlanksAndMore(a: string, b: string, s0: string, s1: string, s2: string, s3: string, more: string, total: nat)
    requires AllDigits(a) && AllDigits(b) && Blank(s0) && Blank(s1) && Blank(s2) && Blank(s3)
    requires more != [] ==> more[0] == ','
    ensures ParseRangeHeader("bytes=" + (s0 + a + s1 + "-" + (s2 + b + s3) + more), total)
            == ParseRangeHeader("bytes=" + (a + "-" + b), total)
  {
    var left, right := s0 + a + s1, s2 + b + s3;
    var spec := left + ['-'] + right;
    var header := "bytes=" + (left + "-" + right + more);
    assert header[..6] == "bytes=" && header[6..] == spec + more;
    OutsideNumber(s0, a, s1);
    OutsideNumber(s2, b, s3);
    SpecEnds(spec, more);
    hide Requested, Trim, FirstSpec;
    RangeSplits(a, b, total);
    FindChar(left, '-', right);
    assert spec[..|left|] == left && spec[|left| + 1..] == right;
    TrimAround(s0, a, s1);
    TrimAround(s2, b, s3);
  }

  lemma OutsideNumber(s: string, a: string, t: string)
    requires Blank(s) && AllDigits(a) && Blank(t)
    ensures '-' !in s + a + t && ',' !in s + a + t
  {
  }

  lemma SpecEnds(spec: string, more: string)
    requires ',' !in spec && (more != [] ==> more[0] == ',')
    ensures FirstSpec(spec + more) == spec
  {
    if more == [] {
      assert spec + more == spec;
      FindNoChar(spec, ',');
    } else {
      assert spec + more == spec + [','] + more[1..];
      FindChar(spec, ',', more[1..]);
      assert (spec + more)[..|spec|] == spec;
    }
  }

  lemma BlankIsSpace(s: string)
    requires Blank(s)
    ensures forall i :: 0 <= i < |s| ==> s[i] in SPACE
  {
  }

  lemma DigitsNotSpace(a: string)
    requires AllDigits(a) && a != []
    ensures a[0] !in SPACE && a[|a| - 1] !in SPACE
  {
    assert IsDigit(a[0]) && IsDigit(a[|a| - 1]);
  }

  lemma TrimAround(s: string, a: string, t: string)
    requires Blank(s) && AllDigits(a) && Blank(t)
    ensures Trim(s + a + t, SPACE) == a
  {
    BlankIsSpace(s);
    BlankIsSpace(t);
    if a != [] { DigitsNotSpace(a); }
    hide TrimLeft, TrimRight, Blank, AllDigits, SPACE;
    if a == [] {
      assert s + a + t == s + t;
      AllTrimmed(s + t, SPACE);
      LeftTrimmed([], [], SPACE);
    } else {
      AllTrimmed(t, SPACE);
      TrimRightAfter(s + a, t, SPACE);
      assert s + a + [] == s + a;
      LeftTrimmed(s, a, SPACE);
    }
  }

  /** The number that a printed one is read as. */
  function Fitting(n: nat): Option<nat> { if n < TWO_64 then Some(n) else None }

  lemma ReadsFitting(n: nat)
    ensures ParseUnsigned(Decimal(n)) == Fitting(n)
  {
    if n < TWO_64 { ParseUnsignedDecimal(n); } else { ParseUnsignedLarge(n); }
  }

  /** `bytes=a-b`: satisfied exactly when a <= b, a is inside, and both numbers fit 64 bits. */
  lemma RangeFromTo(a: nat, b: nat, total: nat)
    ensures ParseRangeHeader("bytes=" + (Decimal(a) + "-" + Decimal(b)), total) ==
            if a <= b && a < total && a < TWO_64 && b < TWO_64 then Some(ByteRange(a, Min(b, total - 1))) else None
  {
    ReadsFitting(a);
    ReadsFitting(b);
    if total > 0 {
      RequestedFromTo(Decimal(a), Decimal(b), a, b, total);
    }
    RangeSplits(Decimal(a), Decimal(b), total);
  }

  lemma RequestedFromTo(first: string, last: string, a: nat, b: nat, total: nat)
    requires first != [] && last != [] && ParseUnsigned(first) == Fitting(a) && ParseUnsigned(last) == Fitting(b) && total > 0
    ensures Requested(first, last, total) ==
            if a <= b && a < total && a < TWO_64 && b < TWO_64 then Some(ByteRange(a, Min(b, total - 1))) else None
  {
  }

  /** What section 14.1.2 of RFC 9110 asks for. */
  function Asked(a: nat, b: nat, total: nat): Option<ByteRange> {
    if a <= b && a < total then Some(ByteRange(a, Min(b, total - 1))) else None
  }

  /** The program answers as the standard asks exactly when the last position fits 64 bits or the
      first one is outside the file anyway. */
  lemma RangeAsAsked(a: nat, b: nat, total: nat)
    requires total < TWO_64
    ensures ParseRangeHeader("bytes=" + (Decimal(a) + "-" + Decimal(b)), total) == Asked(a, b, total) <==> b < TWO_64 || a >= total
  {
    RangeFromTo(a, b, total);
    hide ParseRangeHeader, Decimal;
  }

  /** `bytes=a-`: from a to the end, when the number fits 64 bits. */
  lemma RangeFrom(a: nat, total: nat)
    ensures ParseRangeHeader("bytes=" + (Decimal(a) + "-" + []), total) ==
            if a < total && a < TWO_64 then Some(ByteRange(a, total - 1)) else None
  {
    ReadsFitting(a);
    if total > 0 {
      RequestedFrom(Decimal(a), a, total);
    }
    RangeSplits(Decimal(a), [], total);
  }

  lemma RequestedFrom(text: string, a: nat, total: nat)
    requires text != [] && ParseUnsigned(text) == Fitting(a) && total > 0
    ensures Requested(text, [], total) == if a < total && a < TWO_64 then Some(ByteRange(a, total - 1)) else None
  {
  }

  /** `bytes=-n`: the last n bytes, or all of them, when the number fits 64 bits. */
  lemma RangeSuffix(n: nat, total: nat)
    ensures ParseRangeHeader("bytes=" + ([] + "-" + Decimal(n)), total) ==
            if 0 < n < TWO_64 && total > 0 then Some(ByteRange(total - Min(n, total), total - 1)) else None
  {
    ReadsFitting(n);
    if total > 0 {
      RequestedSuffix(Decimal(n), n, total);
    }
    RangeSplits([], Decimal(n), total);
  }

  lemma RequestedSuffix(text: string, n: nat, total: nat)
    requires ParseUnsigned(text) == Fitting(n) && total > 0
    ensures Requested([], text, total) ==
            if 0 < n < TWO_64 then Some(ByteRange(total - Min(n, total), total - 1)) else None
  {
  }

  // ---------------------------------------------------------------------------------------
  // One stream by itself

  /** A chunk taken from the right place in a block continues the range. */
  lemma ChunkContinues(payloads: seq<seq<byte>>, block: nat, within: nat, size: nat, first: nat, sent: seq<byte>)
    requires block < |payloads| && within + size <= |payloads[block]|
    requires first + |sent| == |Concat(payloads[..block])| + within <= |Concat(payloads)|
    requires sent == Concat(payloads)[first..first + |sent|]
    ensures first + |sent| + size <= |Concat(payloads)|
    ensures sent + payloads[block][within..within + size] == Concat(payloads)[first..first + |sent| + size]
  {
    ConcatNext(payloads, block);
    var content, chunk := Concat(payloads), payloads[block][within..within + size];
    var reached := first + |sent|;
    assert Concat(payloads[..block + 1])[reached..reached + size] == chunk;
    assert content[reached..reached + size] == chunk;
    assert content[first..reached + size] == content[first..reached] + content[reached..reached + size];
  }

  /** The index is right about the blocks, and a load yields the block or fails. */
  ghost predicate Serves(file: FileRecord, fallback: nat, payloads: seq<seq<byte>>, range: ByteRange,
                         load: nat -> Option<seq<byte>>) {
    && WellRecorded(file, fallback, payloads) && range.first <= range.last < file.size
    && forall i: nat :: i < |payloads| ==> load(i).None? || load(i) == Some(payloads[i])
  }

  /** What has been sent is the beginning of the range, and the next byte is where the loop points. */
  ghost predicate OnTrack(payloads: seq<seq<byte>>, range: ByteRange, sent: seq<byte>, remaining: nat, block: nat, within: nat) {
    && range.first + |sent| + remaining == range.last + 1 <= |Concat(payloads)|
    && sent == Concat(payloads)[range.first..range.first + |sent|]
    && (remaining > 0 ==> block < |payloads|)
    && (remaining > 0 ==> within < |payloads[block]| && range.first + |sent| == |Concat(payloads[..block])| + within)
  }

  lemma TrackStarts(file: FileRecord, fallback: nat, payloads: seq<seq<byte>>, range: ByteRange, load: nat -> Option<seq<byte>>)
    requires Serves(file, fallback, payloads, range, load)
    ensures var (block, within) := Locate(file, fallback, range.first);
            OnTrack(payloads, range, [], range.last - range.first + 1, block, within)
  {
    LocateHoldsByte(file, fallback, payloads, range.first);
  }

  lemma TrackContinues(payloads: seq<seq<byte>>, range: ByteRange, sent: seq<byte>, remaining: nat, block: nat, within: nat)
    requires OnTrack(payloads, range, sent, remaining, block, within) && remaining > 0
    requires forall i :: 0 <= i < |payloads| ==> payloads[i] != []
    ensures var size := Min(remaining, |payloads[block]| - within);
            OnTrack(payloads, range, sent + payloads[block][within..within + size], remaining - size, block + 1, 0)
  {
    var size := Min(remaining, |payloads[block]| - within);
    ConcatNext(payloads, block);
    ChunkContinues(payloads, block, within, size, range.first, sent);
    if remaining > size {
      assert payloads[..|payloads|] == payloads;
    }
  }

  /** The loop that writes a range block by block. `accepts` says which chunks the client takes. When
      the blocks are served right, the client has received the beginning of the range, all of it when
      the stream reports success, and it does so unless a load failed or the client went away. */
  method StreamBody(file: FileRecord, fallback: nat, range: ByteRange, load: nat -> Option<seq<byte>>, accepts: nat -> bool,
                    ghost payloads: seq<seq<byte>>) returns (sent: seq<byte>, complete: bool)
    requires range.first <= range.last
    ensures Serves(file, fallback, payloads, range, load) ==>
              sent <= Concat(payloads)[range.first..range.last + 1] && (complete ==> sent == Concat(payloads)[range.first..range.last + 1])
    ensures Serves(file, fallback, payloads, range, load) && (forall i :: load(i).Some? && accepts(i)) ==> complete
  {
    hide Concat, BlockFor, BlockOffsets, OnTrack, Serves, StartsBy, Locate;
    ghost var served := Serves(file, fallback, payloads, range, load);
    var offsets := BuildBlockOffsets(file, fallback);
    StartsAtZero(file, fallback, range.first);
    var block: nat, within: nat := FindBlockForOffset(offsets, range.first);
    var remaining: nat := range.last - range.first + 1;
    sent := [];
    if served {
      TrackStarts(file, fallback, payloads, range, load);
      ServedCount(file, fallback, payloads, range, load);
    }
    while remaining > 0 && block < |file.blocks|
      invariant served ==> OnTrack(payloads, range, sent, remaining, block, within)
      decreases |file.blocks| - block
    {
      if served {
        RangeSoFar(payloads, range, sent, remaining, block, within);
        ServedBlock(file, fallback, payloads, range, load, sent, remaining, block, within);
        TrackContinues(payloads, range, sent, remaining, block, within);
      }
      var payload := load(block);
      if payload.None? {
        return sent, false;
      }
      var available := if |payload.value| > within then |payload.value| - within else 0;
      if available == 0 {
        break;
      }
      var size := Min(remaining, available);
      if !accepts(block) {
        return sent, false;
      }
      sent := sent + payload.value[within..within + size];
      remaining := remaining - size;
      block := block + 1;
      within := 0;
    }
    complete := remaining == 0;
    if served {
      RangeSoFar(payloads, range, sent, remaining, block, within);
      if remaining > 0 { ServedBlock(file, fallback, payloads, range, load, sent, remaining, block, within); }
    }
  }

  lemma StartsAtZero(file: FileRecord, fallback: nat, position: nat)
    ensures StartsBy(BlockOffsets(file, fallback), position, 0)
    ensures Locate(file, fallback, position) == BlockFor(BlockOffsets(file, fallback), position, 0)
  {
    FirstSumIsZero(file.blocks, fallback, |file.blocks|);
  }

  lemma ServedCount(file: FileRecord, fallback: nat, payloads: seq<seq<byte>>, range: ByteRange, load: nat -> Option<seq<byte>>)
    requires Serves(file, fallback, payloads, range, load)
    ensures |payloads| == |file.blocks| && forall i :: 0 <= i < |payloads| ==> payloads[i] != []
  {
  }

  lemma ServedBlock(file: FileRecord, fallback: nat, payloads: seq<seq<byte>>, range: ByteRange, load: nat -> Option<seq<byte>>,
                    sent: seq<byte>, remaining: nat, block: nat, within: nat)
    requires Serves(file, fallback, payloads, range, load)
    requires OnTrack(payloads, range, sent, remaining, block, within) && remaining > 0
    ensures block < |payloads| && within < |payloads[block]| && (load(block).None? || load(block) == Some(payloads[block]))
  {
    hide Concat;
  }

  lemma RangeSoFar(payloads: seq<seq<byte>>, range: ByteRange, sent: seq<byte>, remaining: nat, block: nat, within: nat)
    requires range.first <= range.last && OnTrack(payloads, range, sent, remaining, block, within)
    ensures range.last + 1 <= |Concat(payloads)|
    ensures sent <= Concat(payloads)[range.first..range.last + 1]
    ensures remaining == 0 ==> sent == Concat(payloads)[range.first..range.last + 1]
  {
    hide Concat;
    PartSoFar(Concat(payloads), range.first, range.last + 1, sent);
  }

  lemma PartSoFar(whole: seq<byte>, first: nat, end: nat, sent: seq<byte>)
    requires first + |sent| <= end <= |whole| && sent == whole[first..first + |sent|]
    ensures sent <= whole[first..end] && (first + |sent| == end ==> sent == whole[first..end])
  {
    assert whole[first..end][..|sent|] == whole[first..first + |sent|];
  }
}
