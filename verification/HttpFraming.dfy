/**
 How the guest agent calls one HTTP request from a connection that delivers it in pieces: a buffer
 that grows read by read until the header and the announced body are there.

 Bytes are modelled as characters.
 */
module HttpFraming {
  import opened Options
  import opened Text

  const MAX: nat := 0x100_0000          // 16 MiB
  const CHUNK: nat := 8192
  const MAX_INT: int := 0x7fff_ffff_ffff_ffff

  // ---- the content length ----------------------------------------------------------------------

  const MAX_LINE: nat := 65536

  /** The white space that trimming removes from ASCII text. */
  predicate IsAsciiSpace(c: char) { c == ' ' || '\t' <= c <= '\r' }

  /** The first index from `i` on that is not white space, or the length. */
  function SkipSpace(s: string, i: nat): (r: nat)
    requires i <= |s|
    ensures i <= r <= |s|
    decreases |s| - i
  {
    if i < |s| && IsAsciiSpace(s[i]) then SkipSpace(s, i + 1) else i
  }

  /** The end of the text before `j` without the white space at its end. */
  function DropSpace(s: string, j: nat): (r: nat)
    requires j <= |s|
    ensures r <= j
  {
    if j > 0 && IsAsciiSpace(s[j - 1]) then DropSpace(s, j - 1) else j
  }

  function Trim(s: string): string {
    var a, b := SkipSpace(s, 0), DropSpace(s, |s|);
    if a < b then s[a..b] else []
  }

  /** The first `c` from index `i` on, or the length. */
  function FindChar(s: string, c: char, i: nat): (r: nat)
    requires i <= |s|
    ensures i <= r <= |s| && (r < |s| ==> s[r] == c) && forall j :: i <= j < r ==> s[j] != c
    decreases |s| - i
  {
    if i == |s| || s[i] == c then i else FindChar(s, c, i + 1)
  }

  predicate IsDigit(c: char) { '0' <= c <= '9' }

  function DigitValue(c: char): nat
    requires IsDigit(c)
  {
    c as int - '0' as int
  }

  function Digits(s: string): nat
    requires forall i :: 0 <= i < |s| ==> IsDigit(s[i])
  {
    if s == [] then 0 else 10 * Digits(s[..|s| - 1]) + DigitValue(s[|s| - 1])
  }

  predicate AllDigits(s: string) { s != [] && forall i :: 0 <= i < |s| ==> IsDigit(s[i]) }

  /** `strconv.Atoi`: an optional sign, then at least one digit, within 64 bits. */
  function Atoi(s: string): (r: Option<int>)
    ensures r.Some? ==> -MAX_INT - 1 <= r.value <= MAX_INT
  {
    var negative := s != [] && s[0] == '-';
    var digits := if s != [] && (s[0] == '-' || s[0] == '+') then s[1..] else s;
    if !AllDigits(digits) then None
    else
      var n: int := Digits(digits);
      if negative then (if n <= MAX_INT + 1 then Some(-n) else None)
      else (if n <= MAX_INT then Some(n) else None)
  }

  /** The line is a Content-Length field, in any capitalisation and with white space around the name. */
  predicate IsLengthField(line: string) {
    var colon := FindChar(line, ':', 0);
    0 < colon < |line| && ToLower(Trim(line[..colon])) == "content-length"
  }

  /** The number that the field gives, or 0. */
  function FieldNumber(line: string): (n: int)
    ensures n <= MAX_INT
  {
    var colon := FindChar(line, ':', 0);
    if colon == |line| then 0
    else
      var n := Atoi(Trim(line[colon + 1..]));
      if n.Some? then n.value else 0
  }

  /** The text before `end`, without a carriage return at its end. */
  function LineOf(header: string, end: nat): string
    requires end <= |header|
  {
    if end > 0 && header[end - 1] == '\r' then header[..end - 1] else header[..end]
  }

  /** The value of the first Content-Length line; 0 if there is none or it is not a number. */
  function ContentLength(header: string): (n: int)
    ensures n <= MAX_INT
    decreases |header|
  {
    if header == [] then 0
    else
      var end := FindChar(header, '\n', 0);
      if end >= MAX_LINE then 0
      else
        var line := LineOf(header, end);
        if IsLengthField(line) then FieldNumber(line)
        else if end == |header| then 0
        else ContentLength(header[end + 1..])
  }

  // ---- one request -----------------------------------------------------------------------------

  /** The empty line that ends a header stands at `i`. */
  predicate HeaderEndsAt(s: string, i: nat) {
    i + 3 < |s| && s[i] == '\r' && s[i + 1] == '\n' && s[i + 2] == '\r' && s[i + 3] == '\n'
  }

  function FindHeaderEnd(s: string, i: nat): (r: int)
    ensures r < 0 ==> forall j: nat :: i <= j ==> !HeaderEndsAt(s, j)
    ensures r >= 0 ==> i <= r && HeaderEndsAt(s, r) && forall j: nat :: i <= j < r ==> !HeaderEndsAt(s, j)
    decreases |s| - i
  {
    if i >= |s| then -1 else if HeaderEndsAt(s, i) then i else FindHeaderEnd(s, i + 1)
  }

  /** 64-bit addition, for two non-negative numbers. */
  function Add64(a: int, b: int): int { if a + b > MAX_INT then a + b - 2 * (MAX_INT + 1) else a + b }

  /** It is addition modulo the machine's range. */
  lemma Add64Wraps(a: int, b: int)
    requires 0 <= a <= MAX_INT && 0 <= b <= MAX_INT
    ensures -0x8000_0000_0000_0000 <= Add64(a, b) <= 0x7fff_ffff_ffff_ffff
    ensures Add64(a, b) % 0x1_0000_0000_0000_0000 == (a + b) % 0x1_0000_0000_0000_0000
  {
  }

  datatype Outcome =
    | Message(bytes: string)
    | TooLarge
    | ReadFailed
    | Crashed          // a slice expression with a negative bound

  /** How the body length is found from the header. */
  type Measure = string -> int

  /** What the loop returns for a buffer as it stands, if it is enough. */
  function Enough(buf: string, measure: Measure): Option<Outcome> {
    var end := FindHeaderEnd(buf, 0);
    if end < 0 then None
    else
      var cl := measure(buf[..end]);
      var need := if cl > 0 then Add64(end + 4, cl) else end + 4;
      if |buf| < need then None
      else if need < 0 then Some(Crashed)
      else Some(Message(buf[..need]))
  }

  datatype ReadError = Fine | Eof | Broken

  /** What one call of the reader delivers. */
  datatype Read = Read(data: string, err: ReadError)

  /** The read loop; a reader that has nothing left reports the end of the stream. */
  function ReadOn(buf: string, calls: seq<Read>, measure: Measure): Outcome
    decreases |calls|
  {
    if Enough(buf, measure).Some? then Enough(buf, measure).value
    else if calls == [] then Message(buf)
    else
      var more := buf + calls[0].data;
      if calls[0].err == Eof then Message(more)
      else if calls[0].err == Broken then ReadFailed
      else if |more| > MAX then TooLarge
      else ReadOn(more, calls[1..], measure)
  }

  method ReadFullRequest(calls: seq<Read>) returns (r: Outcome)
    ensures r == ReadOn("", calls, ContentLength)
  {
    var buf := "";
    var i := 0;
    while true
      invariant 0 <= i <= |calls|
      invariant ReadOn("", calls, ContentLength) == ReadOn(buf, calls[i..], ContentLength)
      decreases |calls| - i
    {
      var end := FindHeaderEnd(buf, 0);
      if end >= 0 {
        var cl := ContentLength(buf[..end]);
        var need := end + 4;
        if cl > 0 {
          need := Add64(need, cl);
        }
        if |buf| >= need {
          return if need < 0 then Crashed else Message(buf[..need]);
        }
      }
      if i == |calls| {
        return Message(buf);
      }
      assert calls[i..][0] == calls[i] && calls[i..][1..] == calls[i + 1..];
      buf := buf + calls[i].data;
      if calls[i].err == Eof {
        return Message(buf);
      }
      if calls[i].err == Broken {
        return ReadFailed;
      }
      if |buf| > MAX {
        return TooLarge;
      }
      i := i + 1;
    }
  }

  function Body(req: string): Option<string> {
    var end := FindHeaderEnd(req, 0);
    if end < 0 then None else Some(req[end + 4..])
  }

  // ---- what a stream means ---------------------------------------------------------------------

  /** How many bytes of the stream the loop must have before it returns; `None` if no number will do. */
  function Needed(stream: string, measure: Measure): Option<nat> {
    var end := FindHeaderEnd(stream, 0);
    if end < 0 then None
    else
      var cl := measure(stream[..end]);
      if cl > 0 && end + 4 + cl <= MAX_INT then Some(end + 4 + cl) else Some(end + 4)
  }

  /** The announced length does not fit the machine's integers together with the header. */
  predicate Overflows(stream: string, measure: Measure) {
    var end := FindHeaderEnd(stream, 0);
    end >= 0 && measure(stream[..end]) > 0 && end + 4 + measure(stream[..end]) > MAX_INT
  }

  /** What the loop returns once it has what it needs. */
  function Framed(stream: string, measure: Measure): Outcome
    requires Needed(stream, measure).Some? && Needed(stream, measure).value <= |stream|
  {
    if Overflows(stream, measure) then Crashed else Message(stream[..Needed(stream, measure).value])
  }

  predicate Bounded(measure: Measure, header: string) { measure(header) <= MAX_INT }

  /** A prefix of the stream is enough exactly when it is as long as needed. */
  lemma EnoughIff(stream: string, k: nat, measure: Measure)
    requires k <= |stream| && |stream| < MAX_INT && forall h :: Bounded(measure, h)
    ensures var need := Needed(stream, measure);
            Enough(stream[..k], measure)
            == if need.Some? && need.value <= k then Some(Framed(stream, measure)) else None
  {
    var buf := stream[..k];
    var end := FindHeaderEnd(stream, 0);
    PrefixHeaderEnd(stream, k);
    if end >= 0 && end + 4 <= k {
      assert buf[..end] == stream[..end];
      assert Bounded(measure, stream[..end]);
      if Needed(stream, measure).value <= k {
        assert buf[..Needed(stream, measure).value] == stream[..Needed(stream, measure).value];
      }
    }
  }

  lemma HeaderEndIs(s: string, i: nat, r: int)
    requires r < 0 ==> r == -1 && forall j: nat :: i <= j ==> !HeaderEndsAt(s, j)
    requires r >= 0 ==> i <= r && HeaderEndsAt(s, r) && forall j: nat :: i <= j < r ==> !HeaderEndsAt(s, j)
    ensures FindHeaderEnd(s, i) == r
    decreases |s| - i
  {
    if i < |s| && !HeaderEndsAt(s, i) {
      HeaderEndIs(s, i + 1, r);
    }
  }

  lemma PrefixHeaderEnd(stream: string, k: nat)
    requires k <= |stream|
    ensures var end := FindHeaderEnd(stream, 0);
            FindHeaderEnd(stream[..k], 0) == if 0 <= end && end + 4 <= k then end else -1
  {
    var buf := stream[..k];
    var end := FindHeaderEnd(stream, 0);
    forall j: nat ensures HeaderEndsAt(buf, j) <==> HeaderEndsAt(stream, j) && j + 4 <= k {
    }
    HeaderEndIs(buf, 0, if 0 <= end && end + 4 <= k then end else -1);
  }

  // ---- chunking --------------------------------------------------------------------------------

  function Concat(chunks: seq<string>): string {
    if chunks == [] then "" else chunks[0] + Concat(chunks[1..])
  }

  /** Reads without error, after which the end of the stream comes on its own. */
  function Delivery(chunks: seq<string>): seq<Read> {
    if chunks == [] then [Read("", Eof)] else [Read(chunks[0], Fine)] + Delivery(chunks[1..])
  }

  /** No chunk is larger than the buffer that the reader fills. */
  predicate Small(chunks: seq<string>) { forall i :: 0 <= i < |chunks| ==> |chunks[i]| <= CHUNK }

  /** A way for the reader to cut the stream. */
  predicate Chunks(chunks: seq<string>, stream: string) {
    Concat(chunks) == stream && Small(chunks)
  }

  /** The outcome as a matter of lengths, with `k` bytes of the stream in the buffer. */
  predicate ByLength(stream: string, k: nat, r: Outcome, measure: Measure) {
    var need := Needed(stream, measure);
    if need.None? || need.value > |stream| then r == if |stream| <= MAX then Message(stream) else TooLarge
    else if need.value <= k || |stream| <= MAX || need.value + CHUNK <= MAX + 1 then r == Framed(stream, measure)
    else need.value > MAX ==> r == TooLarge
  }

  lemma OneRead(buf: string, c: string, calls: seq<Read>, measure: Measure)
    requires Enough(buf, measure).None?
    ensures ReadOn(buf, [Read(c, Fine)] + calls, measure)
            == if |buf + c| > MAX then TooLarge else ReadOn(buf + c, calls, measure)
  {
    assert ([Read(c, Fine)] + calls)[1..] == calls;
  }

  lemma ByLengthStep(stream: string, k: nat, chunks: seq<string>, measure: Measure)
    requires chunks != [] && Small(chunks) && k + |chunks[0]| <= |stream|
    requires stream[..k] + chunks[0] == stream[..k + |chunks[0]|]
    requires Enough(stream[..k], measure).None? && (Needed(stream, measure).Some? ==> Needed(stream, measure).value > k)
    requires k + |chunks[0]| <= MAX ==>
               ByLength(stream, k + |chunks[0]|, ReadOn(stream[..k + |chunks[0]|], Delivery(chunks[1..]), measure), measure)
    ensures ByLength(stream, k, ReadOn(stream[..k], Delivery(chunks), measure), measure)
  {
    OneRead(stream[..k], chunks[0], Delivery(chunks[1..]), measure);
  }

  lemma {:induction false} ReadOnIs(stream: string, k: nat, chunks: seq<string>, measure: Measure)
    requires |stream| < MAX_INT && forall h :: Bounded(measure, h)
    requires k <= |stream| && k <= MAX && stream[..k] + Concat(chunks) == stream
    requires Small(chunks)
    ensures ByLength(stream, k, ReadOn(stream[..k], Delivery(chunks), measure), measure)
    decreases |chunks|
  {
    EnoughIff(stream, k, measure);
    if Enough(stream[..k], measure).None? {
      if chunks == [] {
        assert stream[..k] + "" == stream[..k];
      } else {
        var c := chunks[0];
        assert stream[..k] + c == stream[..k + |c|] by {
          assert stream == (stream[..k] + c) + Concat(chunks[1..]);
        }
        if k + |c| <= MAX {
          ReadOnIs(stream, k + |c|, chunks[1..], measure);
        }
        ByLengthStep(stream, k, chunks, measure);
      }
    }
  }

  /** The outcome for a stream delivered in the given chunks. */
  function Received(chunks: seq<string>, measure: Measure): Outcome { ReadOn("", Delivery(chunks), measure) }

  /** The message ends so close to the size limit that one read can step over both. */
  predicate InBand(stream: string, measure: Measure) {
    var need := Needed(stream, measure);
    need.Some? && need.value <= MAX < |stream| && need.value + CHUNK > MAX + 1
  }

  /** What the stream is worth, when its chunking does not matter. */
  function Meaning(stream: string, measure: Measure): Outcome {
    var need := Needed(stream, measure);
    if need.Some? && need.value <= |stream| && need.value <= MAX then Framed(stream, measure)
    else if |stream| <= MAX then Message(stream)
    else TooLarge
  }

  lemma OutsideBand(stream: string, chunks: seq<string>, measure: Measure)
    requires |stream| < MAX_INT && forall h :: Bounded(measure, h)
    requires Chunks(chunks, stream) && !InBand(stream, measure)
    ensures Received(chunks, measure) == Meaning(stream, measure)
  {
    assert stream[..0] + Concat(chunks) == stream;
    ReadOnIs(stream, 0, chunks, measure);
    assert stream[..0] == "";
  }

  // ---- inside the band -------------------------------------------------------------------------

  /** The stream one byte at a time, then `rest`. */
  function Bytewise(s: string, rest: seq<string>): seq<string> {
    if s == [] then rest else [[s[0]]] + Bytewise(s[1..], rest)
  }

  lemma ConcatCons(c: string, chunks: seq<string>)
    ensures Concat([c] + chunks) == c + Concat(chunks)
  {
    assert ([c] + chunks)[1..] == chunks;
  }

  lemma {:induction false} BytewiseConcat(s: string, rest: seq<string>)
    ensures Concat(Bytewise(s, rest)) == s + Concat(rest)
  {
    if s == [] {
      assert s + Concat(rest) == Concat(rest);
    } else {
      ConcatCons([s[0]], Bytewise(s[1..], rest));
      BytewiseConcat(s[1..], rest);
      assert [s[0]] + (s[1..] + Concat(rest)) == s + Concat(rest);
    }
  }

  lemma {:induction false} BytewiseSmall(s: string, rest: seq<string>)
    requires Small(rest)
    ensures Small(Bytewise(s, rest))
  {
    if s != [] {
      BytewiseSmall(s[1..], rest);
    }
  }

  lemma BytewiseChunks(s: string, rest: seq<string>)
    requires Small(rest)
    ensures Small(Bytewise(s, rest)) && Concat(Bytewise(s, rest)) == s + Concat(rest)
  {
    BytewiseConcat(s, rest);
    BytewiseSmall(s, rest);
  }

  /** Byte by byte up to `upTo`, the loop arrives there if nothing shorter was enough. */
  lemma {:induction false} BytewiseArrives(stream: string, k: nat, upTo: nat, rest: seq<string>, measure: Measure)
    requires |stream| < MAX_INT && forall h :: Bounded(measure, h)
    requires k <= upTo <= |stream| && upTo <= MAX
    requires Needed(stream, measure).None? || Needed(stream, measure).value >= upTo
    ensures ReadOn(stream[..k], Delivery(Bytewise(stream[k..upTo], rest)), measure)
            == ReadOn(stream[..upTo], Delivery(rest), measure)
    decreases upTo - k
  {
    var piece := stream[k..upTo];
    if k < upTo {
      EnoughIff(stream, k, measure);
      var chunks := Bytewise(piece, rest);
      assert piece[1..] == stream[k + 1..upTo];
      assert stream[..k] + [piece[0]] == stream[..k + 1];
      assert chunks[1..] == Bytewise(stream[k + 1..upTo], rest);
      assert Delivery(chunks)[1..] == Delivery(chunks[1..]);
      BytewiseArrives(stream, k + 1, upTo, rest, measure);
    }
  }

  /** Byte by byte, with a boundary at `n`. */
  function SmallReads(stream: string, n: nat): seq<string>
    requires n <= |stream|
  {
    Bytewise(stream[..n], Bytewise(stream[n..], []))
  }

  lemma SmallReadsCover(stream: string, n: nat)
    requires n <= |stream|
    ensures Chunks(SmallReads(stream, n), stream)
  {
    BytewiseChunks(stream[n..], []);
    BytewiseChunks(stream[..n], Bytewise(stream[n..], []));
    assert stream[n..] + "" == stream[n..];
    assert stream[..n] + stream[n..] == stream;
  }

  lemma SmallReadsArrive(stream: string, n: nat, measure: Measure)
    requires |stream| < MAX_INT && forall h :: Bounded(measure, h)
    requires n <= |stream| && n <= MAX && Needed(stream, measure) == Some(n)
    ensures Received(SmallReads(stream, n), measure)
            == ReadOn(stream[..n], Delivery(Bytewise(stream[n..], [])), measure)
  {
    assert stream[0..n] == stream[..n] && stream[..0] == "";
    BytewiseArrives(stream, 0, n, Bytewise(stream[n..], []), measure);
  }

  lemma BandSmallReads(stream: string, measure: Measure) returns (chunks: seq<string>)
    requires |stream| < MAX_INT && forall h :: Bounded(measure, h)
    requires InBand(stream, measure)
    ensures Chunks(chunks, stream) && Received(chunks, measure) == Framed(stream, measure)
  {
    var n := Needed(stream, measure).value;
    chunks := SmallReads(stream, n);
    SmallReadsCover(stream, n);
    SmallReadsArrive(stream, n, measure);
    EnoughIff(stream, n, measure);
  }

  /** Byte by byte up to one before `n`, and then one chunk that goes past the limit. */
  function LargeRead(stream: string, n: nat): seq<string>
    requires 0 < n <= MAX < |stream|
  {
    Bytewise(stream[..n - 1], [stream[n - 1..MAX + 1]] + Bytewise(stream[MAX + 1..], []))
  }

  lemma ThreeParts(s: string, a: nat, b: nat)
    requires a <= b <= |s|
    ensures s[..a] + (s[a..b] + (s[b..] + [])) == s
  {
  }

  lemma LargeReadCuts(stream: string, n: nat)
    requires 0 < n <= MAX < |stream| && n + CHUNK > MAX + 1
    ensures Chunks(LargeRead(stream, n), stream)
  {
    var big := stream[n - 1..MAX + 1];
    var last := Bytewise(stream[MAX + 1..], []);
    BytewiseChunks(stream[MAX + 1..], []);
    ConcatCons(big, last);
    BytewiseChunks(stream[..n - 1], [big] + last);
    ThreeParts(stream, n - 1, MAX + 1);
  }

  lemma BandLargeRead(stream: string, measure: Measure) returns (chunks: seq<string>)
    requires |stream| < MAX_INT && forall h :: Bounded(measure, h)
    requires InBand(stream, measure)
    ensures Chunks(chunks, stream) && Received(chunks, measure) == TooLarge
  {
    var n := Needed(stream, measure).value;
    chunks := LargeRead(stream, n);
    LargeReadCuts(stream, n);
    var tail := [stream[n - 1..MAX + 1]] + Bytewise(stream[MAX + 1..], []);
    assert stream[0..n - 1] == stream[..n - 1] && stream[..0] == "";
    BytewiseArrives(stream, 0, n - 1, tail, measure);
    EnoughIff(stream, n - 1, measure);
    assert Delivery(tail)[0] == Read(tail[0], Fine);
  }

  /** Every chunking of the stream gives the same outcome. */
  ghost predicate ChunkingIrrelevant(stream: string, measure: Measure) {
    forall a, b :: Chunks(a, stream) && Chunks(b, stream) ==> Received(a, measure) == Received(b, measure)
  }

  /**
   The outcome depends on the stream alone exactly when the message does not end in the last 8191
   bytes before the size limit of a longer stream; then it is the header with its announced body if
   the stream holds them, and otherwise the whole stream or the size error.
   */
  lemma ChunkingIrrelevantIff(stream: string, measure: Measure)
    requires |stream| < MAX_INT && forall h :: Bounded(measure, h)
    ensures ChunkingIrrelevant(stream, measure) <==> !InBand(stream, measure)
    ensures !InBand(stream, measure) ==>
              forall chunks :: Chunks(chunks, stream) ==> Received(chunks, measure) == Meaning(stream, measure)
  {
    if InBand(stream, measure) {
      var a := BandSmallReads(stream, measure);
      var b := BandLargeRead(stream, measure);
    } else {
      forall chunks | Chunks(chunks, stream) ensures Received(chunks, measure) == Meaning(stream, measure) {
        OutsideBand(stream, chunks, measure);
      }
    }
  }

  /** The same for the length that the code reads from the header. */
  lemma RequestChunkingIrrelevantIff(stream: string)
    requires |stream| < MAX_INT
    ensures ChunkingIrrelevant(stream, ContentLength) <==> !InBand(stream, ContentLength)
  {
    assert forall h :: Bounded(ContentLength, h);
    ChunkingIrrelevantIff(stream, ContentLength);
  }

  /** Whatever the reads, a stream that holds what is needed is framed or refused as too large. */
  lemma {:induction false} FramedOrRefused(stream: string, k: nat, chunks: seq<string>, measure: Measure)
    requires |stream| < MAX_INT && forall h :: Bounded(measure, h)
    requires k <= |stream| && stream[..k] + Concat(chunks) == stream
    requires Needed(stream, measure).Some? && Needed(stream, measure).value <= |stream|
    ensures ReadOn(stream[..k], Delivery(chunks), measure) in {Framed(stream, measure), TooLarge}
    decreases |chunks|
  {
    EnoughIff(stream, k, measure);
    assert chunks == [] ==> |stream[..k] + ""| == |stream|;
    if Needed(stream, measure).value > k {
      var c := chunks[0];
      assert stream[..k] + c == stream[..k + |c|] by {
        assert stream == (stream[..k] + c) + Concat(chunks[1..]);
      }
      assert Delivery(chunks)[1..] == Delivery(chunks[1..]);
      FramedOrRefused(stream, k + |c|, chunks[1..], measure);
    }
  }

  /** The slice bound can go negative. */
  ghost predicate CanCrash(stream: string, measure: Measure) {
    exists chunks :: Chunks(chunks, stream) && Received(chunks, measure) == Crashed
  }

  lemma CrashOverflows(stream: string, chunks: seq<string>, measure: Measure)
    requires |stream| < MAX_INT && forall h :: Bounded(measure, h)
    requires Chunks(chunks, stream) && Received(chunks, measure) == Crashed
    ensures Overflows(stream, measure) && Needed(stream, measure).value <= MAX
  {
    if InBand(stream, measure) {
      assert stream[..0] + Concat(chunks) == stream && stream[..0] == "";
      FramedOrRefused(stream, 0, chunks, measure);
    } else {
      OutsideBand(stream, chunks, measure);
    }
  }

  /**
   The slice bound goes negative under some splitting exactly when the announced length overflows and
   the header ends within the size limit, and then under every splitting unless the header ends in the
   band.
   */
  lemma CrashesIff(stream: string, measure: Measure)
    requires |stream| < MAX_INT && forall h :: Bounded(measure, h)
    ensures CanCrash(stream, measure) <==> Overflows(stream, measure) && Needed(stream, measure).value <= MAX
    ensures CanCrash(stream, measure) && !InBand(stream, measure) ==>
              forall chunks :: Chunks(chunks, stream) ==> Received(chunks, measure) == Crashed
  {
    if CanCrash(stream, measure) {
      var chunks :| Chunks(chunks, stream) && Received(chunks, measure) == Crashed;
      CrashOverflows(stream, chunks, measure);
    }
    if Overflows(stream, measure) && Needed(stream, measure).value <= MAX {
      if InBand(stream, measure) {
        var chunks := BandSmallReads(stream, measure);
        assert Received(chunks, measure) == Crashed;
      } else {
        forall chunks | Chunks(chunks, stream) ensures Received(chunks, measure) == Crashed {
          OutsideBand(stream, chunks, measure);
        }
        SmallReadsCover(stream, 0);
        assert Received(SmallReads(stream, 0), measure) == Crashed;
      }
    }
  }

  // ---- the end of the stream together with data ------------------------------------------------

  /** Reads without error, the last of which also reports the end of the stream. */
  function EofDelivery(front: seq<string>, last: string): seq<Read> {
    if front == [] then [Read(last, Eof)] else [Read(front[0], Fine)] + EofDelivery(front[1..], last)
  }

  /** The loop returns before the last read. */
  predicate Decided(stream: string, k: nat, measure: Measure) {
    k > MAX || (Needed(stream, measure).Some? && Needed(stream, measure).value <= k)
  }

  /** What the loop returns once the whole stream has come without the end being reported. */
  function AtLast(stream: string, measure: Measure): Outcome {
    if |stream| > MAX then TooLarge
    else if Needed(stream, measure).Some? && Needed(stream, measure).value <= |stream| then Framed(stream, measure)
    else Message(stream)
  }

  /** With `k` bytes in the buffer, the last read with and without the end of the stream. */
  lemma LastRead(stream: string, k: nat, last: string, measure: Measure)
    requires |stream| < MAX_INT && forall h :: Bounded(measure, h)
    requires k <= MAX && k <= |stream| && stream[..k] + last == stream && !Decided(stream, k, measure)
    ensures ReadOn(stream[..k], [Read(last, Eof)], measure) == Message(stream)
    ensures ReadOn(stream[..k], Delivery([last]), measure) == AtLast(stream, measure)
  {
    EnoughIff(stream, k, measure);
    EnoughIff(stream, |stream|, measure);
    assert stream[..|stream|] == stream && stream + "" == stream;
    assert Delivery([last])[1..] == [Read("", Eof)];
  }

  lemma DeliveryOfFront(front: seq<string>, last: string)
    requires front != []
    ensures Delivery(front + [last]) == [Read(front[0], Fine)] + Delivery(front[1..] + [last])
  {
    assert (front + [last])[1..] == front[1..] + [last];
  }

  /** The two deliveries of a stream, from `k` bytes in the buffer on. */
  ghost predicate EofMatters(stream: string, k: nat, front: seq<string>, last: string, measure: Measure)
    requires k <= |stream|
  {
    var with := ReadOn(stream[..k], EofDelivery(front, last), measure);
    var without := ReadOn(stream[..k], Delivery(front + [last]), measure);
    if Decided(stream, k + |Concat(front)|, measure) then with == without
    else with == Message(stream) && without == AtLast(stream, measure)
  }

  lemma EofStep(stream: string, k: nat, front: seq<string>, last: string, measure: Measure)
    requires front != [] && k + |front[0]| <= |stream| && stream[..k] + front[0] == stream[..k + |front[0]|]
    requires Enough(stream[..k], measure).None?
    requires k + |front[0]| <= MAX ==> EofMatters(stream, k + |front[0]|, front[1..], last, measure)
    ensures EofMatters(stream, k, front, last, measure)
  {
    var c := front[0];
    DeliveryOfFront(front, last);
    OneRead(stream[..k], c, Delivery(front[1..] + [last]), measure);
    OneRead(stream[..k], c, EofDelivery(front[1..], last), measure);
  }

  lemma NextChunk(stream: string, k: nat, c: string, rest: string)
    requires k <= |stream| && stream[..k] + (c + rest) == stream
    ensures k + |c| <= |stream| && stream[..k] + c == stream[..k + |c|] && stream[..k + |c|] + rest == stream
  {
    assert stream == (stream[..k] + c) + rest;
  }

  lemma EofDecided(stream: string, k: nat, front: seq<string>, last: string, measure: Measure)
    requires k <= |stream| && Enough(stream[..k], measure).Some?
    requires Needed(stream, measure).Some? && Needed(stream, measure).value <= k
    ensures EofMatters(stream, k, front, last, measure)
  {
  }

  lemma EofAtLast(stream: string, k: nat, last: string, measure: Measure)
    requires |stream| < MAX_INT && forall h :: Bounded(measure, h)
    requires k <= MAX && k <= |stream| && stream[..k] + last == stream && !Decided(stream, k, measure)
    ensures EofMatters(stream, k, [], last, measure)
  {
    assert [] + [last] == [last];
    LastRead(stream, k, last, measure);
  }

  lemma {:induction false} EofReadsFrom(stream: string, k: nat, front: seq<string>, last: string, measure: Measure)
    requires |stream| < MAX_INT && forall h :: Bounded(measure, h)
    requires k <= MAX && k <= |stream| && stream[..k] + (Concat(front) + last) == stream
    ensures EofMatters(stream, k, front, last, measure)
    decreases |front|
  {
    EnoughIff(stream, k, measure);
    if Enough(stream[..k], measure).Some? {
      EofDecided(stream, k, front, last, measure);
    } else if front == [] {
      assert Concat(front) + last == last;
      EofAtLast(stream, k, last, measure);
    } else {
      var c, rest := front[0], Concat(front[1..]) + last;
      assert Concat(front) + last == c + rest;
      NextChunk(stream, k, c, rest);
      if k + |c| <= MAX {
        EofReadsFrom(stream, k + |c|, front[1..], last, measure);
      }
      EofStep(stream, k, front, last, measure);
    }
  }

  /**
   A last read that also reports the end of the stream makes a difference exactly when the loop was
   still waiting and the stream is over the limit, goes on after the request, or overflows: then the
   whole buffer is returned.
   */
  lemma EofWithDataIff(front: seq<string>, last: string, measure: Measure)
    requires forall h :: Bounded(measure, h)
    requires |Concat(front) + last| < MAX_INT
    ensures var stream := Concat(front) + last;
            var need := Needed(stream, measure);
            ReadOn("", EofDelivery(front, last), measure) == Received(front + [last], measure)
            <==> || Decided(stream, |Concat(front)|, measure)
                 || (|stream| <= MAX
                     && (need.None? || need.value > |stream| || (need.value == |stream| && !Overflows(stream, measure))))
  {
    var stream := Concat(front) + last;
    assert stream[..0] + stream == stream && stream[..0] == "";
    EofReadsFrom(stream, 0, front, last, measure);
    assert stream[..|stream|] == stream;
  }

  /** However the reads split it, the loop returns exactly the request and nothing of what follows. */
  ghost predicate AlwaysFramed(request: string, extra: string, measure: Measure) {
    forall chunks :: Chunks(chunks, request + extra) ==> Received(chunks, measure) == Message(request)
  }

  /** A request is within the limit, and so is one full read past its last byte or all that follows. */
  predicate Fits(request: nat, extra: nat) {
    request <= MAX && (request + extra <= MAX || request + CHUNK <= MAX + 1)
  }

  /** What the loop needs of a request: all of it. `head` is a header with the empty line that ends it. */
  lemma NeedsRequest(head: string, body: string, extra: string, measure: Measure)
    requires |head| >= 4 && FindHeaderEnd(head, 0) == |head| - 4
    requires measure(head[..|head| - 4]) == |body| && |head| + |body| <= MAX_INT
    ensures var stream := head + body + extra;
            && Needed(stream, measure) == Some(|head + body|) && !Overflows(stream, measure)
            && stream[..|head + body|] == head + body && Body(head + body) == Some(body)
  {
    HeaderEndExtends(head, body, |head| - 4);
    HeaderEndExtends(head + body, extra, |head| - 4);
    assert (head + body + extra)[..|head| - 4] == head[..|head| - 4];
    assert (head + body)[|head|..] == body;
  }

  /**
   For any way of measuring the body, a request followed by anything else is returned exactly under every
   splitting if and only if it fits.
   */
  lemma MeasuredIsFramedIff(head: string, body: string, extra: string, measure: Measure)
    requires forall h :: Bounded(measure, h)
    requires |head| >= 4 && FindHeaderEnd(head, 0) == |head| - 4
    requires measure(head[..|head| - 4]) == |body| && |head| + |body| + |extra| < MAX_INT
    ensures AlwaysFramed(head + body, extra, measure) <==> Fits(|head| + |body|, |extra|)
  {
    var stream := head + body + extra;
    NeedsRequest(head, body, extra, measure);
    if Fits(|head| + |body|, |extra|) {
      forall chunks | Chunks(chunks, stream) ensures Received(chunks, measure) == Message(head + body) {
        OutsideBand(stream, chunks, measure);
      }
    } else if InBand(stream, measure) {
      var chunks := BandLargeRead(stream, measure);
    } else {
      var chunks := SmallReads(stream, 0);
      SmallReadsCover(stream, 0);
      OutsideBand(stream, chunks, measure);
    }
  }

  lemma HeaderEndExtends(s: string, more: string, end: nat)
    requires FindHeaderEnd(s, 0) == end
    ensures FindHeaderEnd(s + more, 0) == end
  {
    assert (s + more)[..|s|] == s;
    PrefixHeaderEnd(s + more, |s|);
  }

  // ---- reading the length back -----------------------------------------------------------------

  function Decimal(n: nat): (s: string)
    ensures s != [] && forall i :: 0 <= i < |s| ==> IsDigit(s[i])
  {
    var last := [('0' as int + n % 10) as char];
    if n < 10 then last else Decimal(n / 10) + last
  }

  lemma {:induction false} DigitsOfDecimal(n: nat)
    ensures Digits(Decimal(n)) == n
  {
    var s := Decimal(n);
    if n >= 10 {
      DigitsOfDecimal(n / 10);
      assert s[..|s| - 1] == Decimal(n / 10);
    }
  }

  lemma {:induction false} DecimalLength(n: nat, k: nat)
    requires n < Pow10(k) && k >= 1
    ensures |Decimal(n)| <= k
  {
    if n >= 10 {
      DecimalLength(n / 10, k - 1);
    }
  }

  function Pow10(k: nat): nat { if k == 0 then 1 else 10 * Pow10(k - 1) }

  lemma DecimalShort(n: nat)
    requires n <= MAX_INT
    ensures |Decimal(n)| <= 19
  {
    assert Pow10(6) == 1000000;
    assert Pow10(12) == 1000000000000;
    assert Pow10(19) == 10000000000000000000;
    DecimalLength(n, 19);
  }

  const CRLF: string := ['\r', '\n']

  /** Lines, each ended by CRLF. */
  function Lines(lines: seq<string>): string {
    if lines == [] then [] else lines[0] + CRLF + Lines(lines[1..])
  }

  /** The lines of a request before its body: the request line, the fields and an empty line. */
  function Head(lines: seq<string>): string { Lines(lines) + CRLF }

  predicate IsLine(line: string) { line != [] && '\n' !in line && |line| + 1 < MAX_LINE }

  ghost predicate AllLines(lines: seq<string>) { forall i :: 0 <= i < |lines| ==> IsLine(lines[i]) }

  /** None of the lines is a Content-Length field. */
  ghost predicate NoLength(lines: seq<string>) { forall i :: 0 <= i < |lines| ==> !IsLengthField(lines[i]) }

  lemma {:induction false} LinesConcat(a: seq<string>, b: seq<string>)
    ensures Lines(a + b) == Lines(a) + Lines(b)
  {
    if a == [] {
      assert a + b == b;
    } else {
      assert (a + b)[1..] == a[1..] + b;
      LinesConcat(a[1..], b);
    }
  }

  /** The first line ends where its CRLF stands. */
  lemma LineEnds(line: string, rest: string)
    requires '\n' !in line
    ensures FindChar(line + CRLF + rest, '\n', 0) == |line| + 1
    ensures LineOf(line + CRLF + rest, |line| + 1) == line && (line + CRLF + rest)[|line| + 2..] == rest
  {
    var s := line + CRLF + rest;
    FirstCharIs(s, '\n', |line| + 1);
  }

  /** What the lines after the one that ends at `end` give. */
  function LaterLength(header: string, end: nat): int
    requires end <= |header|
  {
    if end == |header| then 0 else ContentLength(header[end + 1..])
  }

  lemma OneLine(header: string, end: nat)
    requires header != [] && FindChar(header, '\n', 0) == end < MAX_LINE
    ensures ContentLength(header)
            == if IsLengthField(LineOf(header, end)) then FieldNumber(LineOf(header, end)) else LaterLength(header, end)
  {
  }

  lemma FirstLine(line: string, rest: string)
    requires IsLine(line)
    ensures ContentLength(line + CRLF + rest)
            == if IsLengthField(line) then FieldNumber(line) else ContentLength(rest)
  {
    LineEnds(line, rest);
    OneLine(line + CRLF + rest, |line| + 1);
  }

  lemma {:induction false} SkipLines(lines: seq<string>, rest: string)
    requires AllLines(lines) && NoLength(lines)
    ensures ContentLength(Lines(lines) + rest) == ContentLength(rest)
  {
    if lines == [] {
      assert [] + rest == rest;
    } else {
      FirstLine(lines[0], Lines(lines[1..]) + rest);
      assert Lines(lines) + rest == lines[0] + CRLF + (Lines(lines[1..]) + rest);
      SkipLines(lines[1..], rest);
    }
  }

  lemma FirstCharIs(s: string, c: char, k: nat)
    requires k < |s| && s[k] == c && forall j :: 0 <= j < k ==> s[j] != c
    ensures FindChar(s, c, 0) == k
  {
  }

  lemma {:induction false} NoCharFrom(s: string, c: char, i: nat)
    requires i <= |s| && c !in s
    ensures FindChar(s, c, i) == |s|
    decreases |s| - i
  {
    if i < |s| {
      NoCharFrom(s, c, i + 1);
    }
  }

  /** A Content-Length field that gives `n` in decimal, with any white space around name and number. */
  predicate Gives(line: string, n: nat) {
    var colon := FindChar(line, ':', 0);
    && IsLine(line) && IsLengthField(line)
    && line[|line| - 1] != '\r'
    && Trim(line[colon + 1..]) == Decimal(n)
  }

  lemma FieldGives(line: string, n: nat)
    requires Gives(line, n) && n <= MAX_INT
    ensures FieldNumber(line) == n
  {
    AtoiOfDecimal(n);
  }

  /** The last line of a header comes without its CRLF, and loses a carriage return of its own. */
  lemma LastLine(line: string)
    requires IsLine(line)
    ensures ContentLength(line)
            == if IsLengthField(LineOf(line, |line|)) then FieldNumber(LineOf(line, |line|)) else 0
    ensures line[|line| - 1] != '\r' ==> LineOf(line, |line|) == line
  {
    NoCharFrom(line, '\n', 0);
    OneLine(line, |line|);
  }

  lemma AtoiOfDecimal(n: nat)
    requires n <= MAX_INT
    ensures Atoi(Decimal(n)) == Some(n)
  {
    DigitsOfDecimal(n);
    assert IsDigit(Decimal(n)[0]);
  }

  predicate StartsEmpty(s: string) { |s| >= 2 && s[0] == '\r' && s[1] == '\n' }

  lemma InsideLine(line: string, rest: string, j: nat)
    requires IsLine(line) && (j < |line| || j == |line| + 1)
    ensures !HeaderEndsAt(line + CRLF + rest, j)
  {
    var s := line + CRLF + rest;
    if j < |line| {
      assert s[j + 1] != '\n' by {
        assert j + 1 < |line| ==> s[j + 1] == line[j + 1];
      }
    } else {
      assert s[j] == '\n';
    }
  }

  lemma AtLineEnd(line: string, rest: string)
    ensures HeaderEndsAt(line + CRLF + rest, |line|) <==> StartsEmpty(rest)
  {
    var s, n := line + CRLF + rest, |line|;
    assert s[n] == '\r' && s[n + 1] == '\n';
    assert |rest| >= 2 ==> s[n + 2] == rest[0] && s[n + 3] == rest[1];
  }

  lemma AfterLine(line: string, rest: string, j: nat)
    ensures HeaderEndsAt(line + CRLF + rest, |line| + 2 + j) <==> HeaderEndsAt(rest, j)
  {
    var s := line + CRLF + rest;
    assert forall k :: 0 <= k < |rest| ==> s[|line| + 2 + k] == rest[k];
  }

  lemma HeadCons(lines: seq<string>)
    requires lines != []
    ensures Head(lines) == lines[0] + CRLF + Head(lines[1..])
  {
  }

  lemma HeadStarts(lines: seq<string>)
    requires AllLines(lines)
    ensures StartsEmpty(Head(lines)) <==> lines == []
  {
    if lines != [] {
      HeadCons(lines);
      var line, s := lines[0], Head(lines);
      assert IsLine(line) && s[0] == line[0];
      assert |line| > 1 ==> s[1] == line[1];
      assert |line| == 1 ==> s[1] == '\r';
    }
  }

  /** The empty line ends the head and stands nowhere before. */
  lemma {:induction false} HeadEndsOnce(lines: seq<string>, j: nat)
    requires lines != [] && AllLines(lines)
    ensures |Head(lines)| >= 4 && (HeaderEndsAt(Head(lines), j) <==> j == |Head(lines)| - 4)
    decreases |lines|
  {
    var line, rest := lines[0], Head(lines[1..]);
    HeadCons(lines);
    HeadStarts(lines[1..]);
    if j == |line| {
      AtLineEnd(line, rest);
    } else if j < |line| + 2 {
      InsideLine(line, rest, j);
    } else {
      AfterLine(line, rest, j - |line| - 2);
    }
    if |lines| > 1 {
      HeadEndsOnce(lines[1..], if j >= |line| + 2 then j - |line| - 2 else 0);
    } else {
      assert rest == CRLF;
    }
  }

  lemma HeadEnds(lines: seq<string>)
    requires lines != [] && AllLines(lines)
    ensures |Head(lines)| >= 4 && FindHeaderEnd(Head(lines), 0) == |Head(lines)| - 4
  {
    forall j: nat ensures HeaderEndsAt(Head(lines), j) <==> j == |Head(lines)| - 4 {
      HeadEndsOnce(lines, j);
    }
    HeadEndsOnce(lines, 0);
    HeaderEndIs(Head(lines), 0, |Head(lines)| - 4);
  }

  lemma HeadAround(before: seq<string>, line: string, after: seq<string>)
    ensures Head(before + [line] + after) == Lines(before) + (line + CRLF + (Lines(after) + CRLF))
  {
    LinesConcat(before + [line], after);
    LinesConcat(before, [line]);
    LinesOfOne(line);
    Regroup(Lines(before), line, CRLF, Lines(after));
  }

  lemma LinesOfOne(line: string)
    ensures Lines([line]) == line + CRLF
  {
    assert line + CRLF + [] == line + CRLF;
  }

  lemma Regroup(p: string, line: string, c: string, a: string)
    ensures p + (line + c) + a + c == p + (line + c + (a + c))
  {
  }

  lemma DropEnd(p: string, line: string, c: string, l: string)
    requires |c| == 2
    ensures var s := p + (line + c + (l + c));
            && |s| >= 4
            && (l == [] ==> s[..|s| - 4] == p + line)
            && (|l| >= 2 ==> s[..|s| - 4] == p + (line + c + l[..|l| - 2]))
  {
  }

  /** The header as the code measures it: all lines, without the CRLF of the last. */
  lemma HeaderOf(before: seq<string>, line: string, after: seq<string>)
    ensures var head := Head(before + [line] + after);
            && |head| >= 4
            && (after == [] ==> head[..|head| - 4] == Lines(before) + line)
            && (after != [] ==>
                  && |Lines(after)| >= 2
                  && head[..|head| - 4] == Lines(before) + (line + CRLF + Lines(after)[..|Lines(after)| - 2]))
  {
    HeadAround(before, line, after);
    DropEnd(Lines(before), line, CRLF, Lines(after));
  }

  /** A request with a Content-Length field among its lines is measured by that field's number. */
  lemma ContentLengthReadsBack(before: seq<string>, field: string, after: seq<string>, n: nat)
    requires AllLines(before) && NoLength(before) && Gives(field, n) && n <= MAX_INT
    ensures var head := Head(before + [field] + after);
            |head| >= 4 && ContentLength(head[..|head| - 4]) == n
  {
    HeaderOf(before, field, after);
    var head := Head(before + [field] + after);
    if after == [] {
      LengthAtEnd(before, field, n, head[..|head| - 4]);
    } else {
      LengthInside(before, field, Lines(after)[..|Lines(after)| - 2], n, head[..|head| - 4]);
    }
  }

  lemma LengthAtEnd(before: seq<string>, field: string, n: nat, header: string)
    requires AllLines(before) && NoLength(before) && Gives(field, n) && n <= MAX_INT
    requires header == Lines(before) + field
    ensures ContentLength(header) == n
  {
    FieldGives(field, n);
    SkipLines(before, field);
    LastLine(field);
  }

  lemma LengthInside(before: seq<string>, field: string, rest: string, n: nat, header: string)
    requires AllLines(before) && NoLength(before) && Gives(field, n) && n <= MAX_INT
    requires header == Lines(before) + (field + CRLF + rest)
    ensures ContentLength(header) == n
  {
    FieldGives(field, n);
    SkipLines(before, field + CRLF + rest);
    FirstLine(field, rest);
  }

  lemma NoLengthMeasured(before: seq<string>, last: string, header: string)
    requires AllLines(before) && NoLength(before)
    requires IsLine(last) && !IsLengthField(LineOf(last, |last|))
    requires header == Lines(before) + last
    ensures ContentLength(header) == 0
  {
    SkipLines(before, last);
    LastLine(last);
  }

  /** A request without such a field has no body. The last line is judged as the code reads it. */
  lemma NoLengthNoBody(before: seq<string>, last: string)
    requires AllLines(before) && NoLength(before)
    requires IsLine(last) && !IsLengthField(LineOf(last, |last|))
    ensures Announces(Head(before + [last]), 0)
  {
    var lines := before + [last];
    var head := Head(lines);
    assert lines + [] == lines;
    AllLinesJoin(before, last, []);
    HeadEnds(lines);
    HeaderOf(before, last, []);
    NoLengthMeasured(before, last, head[..|head| - 4]);
  }

  lemma AllLinesJoin(before: seq<string>, line: string, after: seq<string>)
    requires AllLines(before) && IsLine(line) && AllLines(after)
    ensures AllLines(before + [line] + after)
  {
  }

  /**
   A request as clients send it, with its Content-Length field wherever it stands, followed by anything
   else: the loop returns exactly the request under every splitting if and only if it fits.
   */
  lemma RequestIsFramedIff(before: seq<string>, field: string, after: seq<string>, body: string, extra: string)
    requires AllLines(before) && NoLength(before) && AllLines(after) && Gives(field, |body|)
    requires |Head(before + [field] + after)| + |body| + |extra| < MAX_INT
    ensures var head := Head(before + [field] + after);
            && (AlwaysFramed(head + body, extra, ContentLength) <==> Fits(|head| + |body|, |extra|))
            && Body(head + body) == Some(body)
  {
    MeasuredHead(before, field, after, |body|);
    AnnouncedIsFramedIff(Head(before + [field] + after), body, extra);
  }

  lemma AnnouncedIsFramedIff(head: string, body: string, extra: string)
    requires Announces(head, |body|) && |head| + |body| + |extra| < MAX_INT
    ensures AlwaysFramed(head + body, extra, ContentLength) <==> Fits(|head| + |body|, |extra|)
    ensures Body(head + body) == Some(body)
  {
    assert forall h :: Bounded(ContentLength, h);
    MeasuredIsFramedIff(head, body, extra, ContentLength);
    NeedsRequest(head, body, extra, ContentLength);
  }

  /** Without such a field the loop returns exactly the lines and the empty line, whatever follows. */
  lemma HeadIsFramedIff(before: seq<string>, last: string, extra: string)
    requires AllLines(before) && NoLength(before)
    requires IsLine(last) && !IsLengthField(LineOf(last, |last|))
    requires |Head(before + [last])| + |extra| < MAX_INT
    ensures var head := Head(before + [last]);
            AlwaysFramed(head, extra, ContentLength) <==> Fits(|head|, |extra|)
  {
    NoLengthNoBody(before, last);
    var head := Head(before + [last]);
    assert head + [] == head;
    AnnouncedIsFramedIff(head, [], extra);
  }

  // ---- what the header says ------------------------------------------------------------------------

  predicate Ascii(s: string) { forall i :: 0 <= i < |s| ==> s[i] as int < 128 }

  lemma AsciiSpaceIff(c: char)
    requires c as int < 128
    ensures IsAsciiSpace(c) <==> IsSpace(c)
  {
  }

  lemma {:induction false} SkipSpaceIs(s: string, i: nat)
    requires i <= |s|
    ensures forall k :: i <= k < SkipSpace(s, i) ==> IsAsciiSpace(s[k])
    ensures SkipSpace(s, i) < |s| ==> !IsAsciiSpace(s[SkipSpace(s, i)])
    decreases |s| - i
  {
    if i < |s| && IsAsciiSpace(s[i]) {
      SkipSpaceIs(s, i + 1);
    }
  }

  lemma {:induction false} DropSpaceIs(s: string, j: nat)
    requires j <= |s|
    ensures forall k :: DropSpace(s, j) <= k < j ==> IsAsciiSpace(s[k])
    ensures DropSpace(s, j) > 0 ==> !IsAsciiSpace(s[DropSpace(s, j) - 1])
  {
    if j > 0 && IsAsciiSpace(s[j - 1]) {
      DropSpaceIs(s, j - 1);
    }
  }

  lemma AsciiBlank(s: string, a: nat, b: nat)
    requires Ascii(s) && a <= b <= |s| && forall k :: a <= k < b ==> IsAsciiSpace(s[k])
    ensures Blank(s[a..b])
  {
    var t := s[a..b];
    forall i | 0 <= i < |t| ensures IsSpace(t[i]) {
      assert t[i] == s[a + i];
      AsciiSpaceIff(s[a + i]);
    }
  }

  lemma TrimmedPart(s: string, a: nat, b: nat)
    requires Ascii(s) && a < b <= |s| && Blank(s[..a]) && Blank(s[b..])
    requires !IsAsciiSpace(s[a]) && !IsAsciiSpace(s[b - 1])
    ensures TrimSpace(s) == s[a..b]
  {
    AsciiSpaceIff(s[a]);
    AsciiSpaceIff(s[b - 1]);
    assert s == s[..a] + s[a..b] + s[b..];
    TrimOf(s[..a], s[a..b], s[b..]);
  }

  /** On ASCII text the white space that is dropped is the usual one. */
  lemma TrimIsTrimSpace(s: string)
    requires Ascii(s)
    ensures Trim(s) == TrimSpace(s)
  {
    var a, b := SkipSpace(s, 0), DropSpace(s, |s|);
    SkipSpaceIs(s, 0);
    DropSpaceIs(s, |s|);
    AsciiBlank(s, 0, a);
    AsciiBlank(s, b, |s|);
    assert s[0..a] == s[..a] && s[b..|s|] == s[b..];
    if a < b {
      TrimmedPart(s, a, b);
    } else {
      AsciiBlank(s, 0, |s|);
      assert s[0..|s|] == s;
      TrimmedAwayIff(s);
    }
  }

  lemma LowerTrim(s: string)
    ensures ToLower(TrimSpace(s)) == TrimSpace(ToLower(s))
  {
    var before, after := TrimCuts(s);
    var t := TrimSpace(s);
    LowerConcat(before + t, after);
    LowerConcat(before, t);
    LowerBlank(before);
    LowerBlank(after);
    if t != [] {
      LowerBlank([t[0]]);
      LowerBlank([t[|t| - 1]]);
      assert ToLower([t[0]])[0] == ToLower(t)[0] && ToLower([t[|t| - 1]])[0] == ToLower(t)[|t| - 1];
      assert !Blank([t[0]]) && !Blank([t[|t| - 1]]);
      assert Tight(ToLower(t));
    }
    TrimOf(ToLower(before), ToLower(t), ToLower(after));
  }

  predicate ColonAt(line: string, c: nat) { c < |line| && line[c] == ':' && ':' !in line[..c] }

  /** A line is the field exactly if the name before its first colon is, in any case and white space. */
  lemma LengthFieldIff(line: string)
    requires Ascii(line)
    ensures IsLengthField(line) <==> exists c: nat :: ColonAt(line, c) && Padded(line[..c], "content-length")
  {
    var colon := FindChar(line, ':', 0);
    assert forall c: nat :: ColonAt(line, c) ==> c == colon by {
      forall c: nat | ColonAt(line, c) ensures c == colon {
        FirstCharIs(line, ':', c) by {
          assert forall j :: 0 <= j < c ==> line[j] == line[..c][j];
        }
      }
    }
    if colon < |line| {
      var name := line[..colon];
      assert ColonAt(line, colon);
      TrimIsTrimSpace(name);
      LowerTrim(name);
      TrimLowerIff(name, "content-length");
      if colon == 0 {
        assert name == "";
      }
    }
  }

  // The number of a field.

  function Zeros(k: nat): string { seq(k, i => '0') }

  predicate Minus(sign: string) { |sign| == 1 && sign[0] == '-' }

  predicate NoMinus(sign: string) { sign == [] || (|sign| == 1 && sign[0] == '+') }

  /** `s` is the number `v` with leading zeros and with or without a sign. */
  ghost predicate Numeral(s: string, v: int) {
    exists sign: string, k: nat :: NumeralWith(s, v, sign, k)
  }

  predicate NumeralWith(s: string, v: int, sign: string, k: nat) {
    && s == sign + (Zeros(k) + Decimal(if v < 0 then -v else v))
    && ((Minus(sign) && v <= 0) || (NoMinus(sign) && v >= 0))
  }

  lemma {:induction false} DigitsFrom(k: nat, s: string)
    requires forall i :: 0 <= i < |s| ==> IsDigit(s[i])
    ensures forall i :: 0 <= i < |Zeros(k) + s| ==> IsDigit((Zeros(k) + s)[i])
    ensures Digits(Zeros(k) + s) == Digits(s)
    decreases |s|, k
  {
    var t := Zeros(k) + s;
    if s == [] {
      if k > 0 {
        assert t[..|t| - 1] == Zeros(k - 1) + s;
        DigitsFrom(k - 1, s);
      }
    } else {
      assert t[..|t| - 1] == Zeros(k) + s[..|s| - 1];
      DigitsFrom(k, s[..|s| - 1]);
    }
  }

  /** Digits are a number in decimal after some zeros. */
  lemma {:induction false} DigitsAre(s: string) returns (k: nat)
    requires AllDigits(s)
    ensures s == Zeros(k) + Decimal(Digits(s))
  {
    var n, last := |s| - 1, s[|s| - 1];
    var v := Digits(s);
    if n == 0 {
      k := 0;
      assert s[..n] == [];
    } else {
      var front := s[..n];
      var j := DigitsAre(front);
      var d := DigitValue(last);
      assert v == 10 * Digits(front) + d && v / 10 == Digits(front) && v % 10 == d;
      if v < 10 {
        k := n;
        ZeroDigits(front, j);
        assert s == front + [last];
      } else {
        k := j;
        assert Decimal(v) == Decimal(v / 10) + [last];
        assert s == front + [last];
      }
    }
  }

  lemma ZeroDigits(front: string, j: nat)
    requires front == Zeros(j) + Decimal(0)
    ensures front == Zeros(|front|)
  {
  }

  lemma DecimalNumeral(k: nat, n: nat)
    ensures AllDigits(Zeros(k) + Decimal(n)) && Digits(Zeros(k) + Decimal(n)) == n
  {
    DigitsFrom(k, Decimal(n));
    DigitsOfDecimal(n);
  }

  lemma AtoiOfDigits(s: string, sign: string)
    requires AllDigits(s) && (Minus(sign) || NoMinus(sign))
    ensures var v: int := if Minus(sign) then -(Digits(s) as int) else Digits(s);
            Atoi(sign + s) == if -0x8000_0000_0000_0000 <= v <= 0x7fff_ffff_ffff_ffff then Some(v) else None
  {
    if sign == [] {
      assert sign + s == s;
      assert IsDigit(s[0]);
    } else {
      assert (sign + s)[1..] == s;
    }
  }

  lemma NumeralIsRead(s: string, v: int, sign: string, k: nat)
    requires NumeralWith(s, v, sign, k)
    ensures Atoi(s) == if -0x8000_0000_0000_0000 <= v <= 0x7fff_ffff_ffff_ffff then Some(v) else None
  {
    var n: nat := if v < 0 then -v else v;
    DecimalNumeral(k, n);
    AtoiOfDigits(Zeros(k) + Decimal(n), sign);
  }

  lemma ReadIsNumeral(s: string)
    requires Atoi(s).Some?
    ensures Numeral(s, Atoi(s).value)
  {
    var digits := if s != [] && (s[0] == '-' || s[0] == '+') then s[1..] else s;
    var sign := s[..|s| - |digits|];
    assert s == sign + digits && AllDigits(digits);
    var k := DigitsAre(digits);
    AtoiOfDigits(digits, sign);
    assert NumeralWith(s, Atoi(s).value, sign, k);
  }

  /** A text is read as a number exactly if it is a numeral of one that 64 bits hold. */
  lemma AtoiIff(s: string, v: int)
    ensures Atoi(s) == Some(v) <==> Numeral(s, v) && -0x8000_0000_0000_0000 <= v <= 0x7fff_ffff_ffff_ffff
  {
    if Atoi(s) == Some(v) {
      ReadIsNumeral(s);
    }
    if Numeral(s, v) {
      var sign: string, k: nat :| NumeralWith(s, v, sign, k);
      NumeralIsRead(s, v, sign, k);
    }
  }

  /** What a field gives: the numeral after its colon, or 0 if there is none. */
  lemma FieldNumberIs(line: string, c: nat, v: int)
    requires Ascii(line) && ColonAt(line, c)
    ensures var text := TrimSpace(line[c + 1..]);
            && (Numeral(text, v) && -0x8000_0000_0000_0000 <= v <= 0x7fff_ffff_ffff_ffff ==> FieldNumber(line) == v)
            && (Atoi(text).None? ==> FieldNumber(line) == 0)
  {
    assert forall j :: 0 <= j < c ==> line[j] == line[..c][j];
    FirstCharIs(line, ':', c);
    TrimIsTrimSpace(line[c + 1..]);
    AtoiIff(TrimSpace(line[c + 1..]), v);
  }

  // The lines of a header.

  /** Lines with a newline between any two. */
  function Joined(lines: seq<string>): string
    requires lines != []
  {
    if |lines| == 1 then lines[0] else lines[0] + "\n" + Joined(lines[1..])
  }

  ghost predicate NoNewlines(lines: seq<string>) { forall i :: 0 <= i < |lines| ==> '\n' !in lines[i] }

  /** A line without one carriage return at its end. */
  function Stripped(line: string): string {
    if line != [] && line[|line| - 1] == '\r' then line[..|line| - 1] else line
  }

  /** The number of the first field, unless a line of 64 KiB or more comes before it. */
  function FirstLength(lines: seq<string>): int {
    if lines == [] || |lines[0]| >= 65536 then 0
    else if IsLengthField(Stripped(lines[0])) then FieldNumber(Stripped(lines[0]))
    else FirstLength(lines[1..])
  }

  lemma OneLineOf(line: string, rest: string, header: string)
    requires '\n' !in line && (header == line || header == line + "\n" + rest)
    ensures FindChar(header, '\n', 0) == |line| && LineOf(header, |line|) == Stripped(line)
    ensures header != line ==> header[|line| + 1..] == rest
  {
    assert forall j :: 0 <= j < |line| ==> header[j] == line[j];
    assert header[..|line|] == line;
    if header == line {
      NoCharFrom(line, '\n', 0);
    } else {
      assert header[|line|] == '\n';
      FirstCharIs(header, '\n', |line|);
    }
  }

  lemma NoField(s: string)
    requires s == "" || s == "\r"
    ensures !IsLengthField(Stripped(s))
  {
  }

  /** The header's length is that of its first field, line by line. */
  lemma {:induction false} LengthByLines(lines: seq<string>)
    requires lines != [] && NoNewlines(lines)
    ensures ContentLength(Joined(lines)) == FirstLength(lines)
    decreases |lines|
  {
    var header := Joined(lines);
    var rest := if |lines| == 1 then "" else Joined(lines[1..]);
    assert |lines| == 1 ==> lines[1..] == [];
    OneLineOf(lines[0], rest, header);
    if |lines| > 1 {
      LengthByLines(lines[1..]);
    }
    if header == [] {
      NoField(lines[0]);
    } else if |lines[0]| < 65536 {
      OneLine(header, |lines[0]|);
    }
  }

  // ---- the failures happen ---------------------------------------------------------------------

  lemma DecimalIsTrimmed(n: nat)
    ensures Trim(Decimal(n)) == Decimal(n)
  {
    var s := Decimal(n);
    assert IsDigit(s[0]) && IsDigit(s[|s| - 1]);
  }

  const FIELD := "Content-Length"

  lemma FieldNameIs()
    ensures |FIELD| == 14 && ':' !in FIELD && '\n' !in FIELD && ToLower(Trim(FIELD)) == "content-length"
  {
    assert Trim(FIELD) == FIELD;
    assert ToLower(FIELD) == "content-length";
  }

  /** The usual spelling of the field. */
  lemma UsualFieldGives(n: nat)
    requires n <= MAX_INT
    ensures Gives(FIELD + ":" + Decimal(n), n) && |FIELD + ":" + Decimal(n)| <= 34
  {
    FieldNameIs();
    DecimalShort(n);
    DecimalIsTrimmed(n);
    var line := FIELD + ":" + Decimal(n);
    FirstCharIs(line, ':', 14);
    assert line[..14] == FIELD && line[15..] == Decimal(n);
    assert line[|line| - 1] == Decimal(n)[|Decimal(n)| - 1] && IsDigit(Decimal(n)[|Decimal(n)| - 1]);
    forall i | 0 <= i < |line| ensures line[i] != '\n' {
      if i >= 15 {
        assert line[i] == Decimal(n)[i - 15] && IsDigit(Decimal(n)[i - 15]);
      } else if i < 14 {
        assert line[i] == FIELD[i];
      }
    }
  }

  lemma NeededAfter(head: string, more: string, n: nat, measure: Measure)
    requires |head| >= 4 && FindHeaderEnd(head, 0) == |head| - 4
    requires measure(head[..|head| - 4]) == n && 0 < n
    ensures Overflows(head + more, measure) <==> |head| + n > MAX_INT
    ensures Needed(head + more, measure) == Some(if |head| + n <= MAX_INT then |head| + n else |head|)
  {
    HeaderEndExtends(head, more, |head| - 4);
    PrefixOfSum(head, more, |head| - 4);
  }

  lemma PrefixOfSum(a: string, b: string, k: nat)
    requires k <= |a|
    ensures (a + b)[..k] == a[..k]
  {
  }

  /** The head ends with its empty line and announces `n` bytes. */
  ghost predicate Announces(head: string, n: nat) {
    |head| >= 4 && FindHeaderEnd(head, 0) == |head| - 4 && ContentLength(head[..|head| - 4]) == n
  }

  /** What the loop needs for a request that announces `n` bytes, and whether that overflows. */
  lemma NeededFor(head: string, n: nat, more: string)
    requires Announces(head, n) && 0 < n
    ensures Overflows(head + more, ContentLength) <==> |head| + n > MAX_INT
    ensures Needed(head + more, ContentLength) == Some(if |head| + n <= MAX_INT then |head| + n else |head|)
  {
    NeededAfter(head, more, n, ContentLength);
  }

  lemma MeasuredHead(before: seq<string>, field: string, after: seq<string>, n: nat)
    requires AllLines(before) && NoLength(before) && AllLines(after) && Gives(field, n) && n <= MAX_INT
    ensures Announces(Head(before + [field] + after), n)
  {
    AllLinesJoin(before, field, after);
    HeadEnds(before + [field] + after);
    ContentLengthReadsBack(before, field, after, n);
  }

  /** A request of nothing but the field. */
  lemma ShortRequest(n: nat) returns (head: string)
    requires n <= MAX_INT
    ensures Announces(head, n) && 4 <= |head| <= 38
  {
    var field := FIELD + ":" + Decimal(n);
    UsualFieldGives(n);
    head := Head([] + [field] + []);
    HeadOfOne(field);
    MeasuredHead([], field, [], n);
  }

  lemma Filler(n: nat) returns (s: string)
    ensures |s| == n
  {
    s := seq(n, i => 'x');
  }

  lemma InBandWhen(head: string, n: nat, more: string)
    requires Announces(head, n) && 0 < n && |head| + n <= MAX < |head + more| && |head| + n + CHUNK > MAX + 1
    ensures InBand(head + more, ContentLength)
  {
    NeededFor(head, n, more);
  }

  /** Some stream is in the band: the outcome does depend on the reads. */
  lemma BandHappens()
    ensures exists stream :: |stream| < MAX_INT && InBand(stream, ContentLength)
  {
    var n := MAX - 100;
    var head := ShortRequest(n);
    var more := Filler(MAX);
    InBandWhen(head, n, more);
  }

  /** Some stream overflows: the loop does crash. */
  lemma CrashHappens()
    ensures exists stream :: |stream| < MAX_INT && CanCrash(stream, ContentLength)
  {
    var head := ShortRequest(MAX_INT);
    NeededFor(head, MAX_INT, []);
    assert head + [] == head;
    assert forall h :: Bounded(ContentLength, h);
    CrashesIff(head, ContentLength);
  }

  lemma HeadOfOne(line: string)
    ensures |Head([] + [line] + [])| == |line| + 4
  {
    assert [] + [line] + [] == [line];
    assert Lines([line]) == line + CRLF + [];
  }
}
