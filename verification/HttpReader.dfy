/**
 getHTTPResponse as it runs: the function's local variables are the fields, one call of
 `Receive` is one turn of its outer loop.
 */
module HttpReader {
  import opened Common
  import opened ChunkCoding
  import opened HttpResponse

  /** The size of the buffer one receive fills. */
  const RECEIVE_SIZE: nat := 2048

  class ResponseReader {
    const parse: string -> Headers
    var headerBuf: string
    var endOfHeaders: nat
    var chunked: bool
    var contentLength: int
    var chunkSize: nat
    var chunkSizeBuf: array<char>
    var chunkSizeIndex: nat
    var contentBuf: array<char>
    var contentUsed: nat
    /** The loop was left, by break or by goto. */
    var ended: bool
    /** A copy would have left the receive buffer. */
    var overrun: bool

    /** The buffers and counters agree with each other. */
    ghost predicate Buffers()
      reads this, chunkSizeBuf, contentBuf
    {
      && chunkSizeBuf != contentBuf
      && chunkSizeBuf.Length == 32 && chunkSizeIndex <= MAX_DIGITS
      && AllHex(chunkSizeBuf[..chunkSizeIndex])
      && contentUsed <= contentBuf.Length
      && (chunkSize > 0 ==> chunkSizeIndex == 0)
    }

    ghost predicate Consistent()
      reads this, chunkSizeBuf, contentBuf
    {
      Buffers() && (!overrun ==> chunkSize < TWO_31)
    }

    ghost predicate Valid()
      reads this, chunkSizeBuf, contentBuf
    {
      && Consistent()
      && (overrun ==> ended)
      && (!ended && endOfHeaders == 0 ==> EndOfHeaders(headerBuf) == 0 && Decoding() == START)
      && (!ended && endOfHeaders > 0 && contentLength > 0 ==> contentUsed < contentLength)
    }

    /** The decoder state between two turns of the chunk loop. */
    ghost function Decoding(): (st: Decoder)
      requires Consistent() && !overrun
      reads this, chunkSizeBuf, contentBuf
      ensures ChunkCoding.Valid(st) && Resume(st) == st && st.phase !in {Done, Overrun}
    {
      if chunkSize > 0 then Decoder(Data, "", chunkSize, contentBuf[..contentUsed])
      else
        var phase := if chunkSizeIndex == 0 then SkipCR else Digits;
        Decoder(phase, chunkSizeBuf[..chunkSizeIndex], 0, contentBuf[..contentUsed])
    }

    ghost function State(): (r: Reader)
      requires Valid()
      reads this, chunkSizeBuf, contentBuf
      ensures ReaderOk(r)
    {
      if overrun then Fault
      else if ended then Finished(contentBuf[..contentUsed])
      else if endOfHeaders == 0 then Heading(headerBuf)
      else if chunked then Chunks(contentLength, Decoding())
      else Plain(contentLength, contentBuf[..contentUsed])
    }

    constructor (parse: string -> Headers)
      ensures Valid() && State() == Heading("")
      ensures this.parse == parse && fresh(chunkSizeBuf) && fresh(contentBuf)
    {
      this.parse := parse;
      headerBuf, endOfHeaders, chunked, contentLength := "", 0, false, -1;
      chunkSize, chunkSizeIndex, contentUsed := 0, 0, 0;
      ended, overrun := false, false;
      chunkSizeBuf := new char[32];
      contentBuf := new char[2048];
      new;
      chunkSizeBuf[0] := '\0';
    }

    /** Append to the content, growing its buffer to Content-Length or to what is needed. */
    method Append(piece: string)
      requires Buffers()
      modifies this`contentBuf, this`contentUsed, contentBuf
      ensures contentBuf == old(contentBuf) || fresh(contentBuf)
      ensures contentUsed <= contentBuf.Length && contentBuf[..contentUsed] == old(contentBuf[..contentUsed]) + piece
      ensures chunkSizeBuf[..] == old(chunkSizeBuf[..])
    {
      var need := contentUsed + |piece|;
      if need > contentBuf.Length {
        var newLength := if contentLength >= need then contentLength else need;
        var grown := new char[newLength];
        forall j | 0 <= j < contentUsed {
          grown[j] := contentBuf[j];
        }
        assert grown[..contentUsed] == contentBuf[..contentUsed];
        contentBuf := grown;
      }
      ghost var before := contentBuf[..contentUsed];
      forall j | 0 <= j < |piece| {
        contentBuf[contentUsed + j] := piece[j];
      }
      assert contentBuf[..need] == before + piece;
      contentUsed := need;
    }

    /** The value of the collected digits, in 32 bit unsigned arithmetic. */
    method SizeFromDigits() returns (size: nat)
      requires Consistent()
      ensures size == WrappedValue(chunkSizeBuf[..chunkSizeIndex])
    {
      size := 0;
      var j := 0;
      while j < chunkSizeIndex
        invariant j <= chunkSizeIndex
        invariant size == WrappedValue(chunkSizeBuf[..j])
      {
        size := (size * 16 % TWO_32 + DigitValue(chunkSizeBuf[j])) % TWO_32;
        j := j + 1;
        assert chunkSizeBuf[..j][..j - 1] == chunkSizeBuf[..j - 1];
      }
    }

    /** Digits go to the buffer while it has room. */
    method CollectDigits(buf: string, i0: nat, ghost st0: Decoder) returns (i: nat, ghost st: Decoder)
      requires Consistent() && i0 <= |buf| && Awaiting(st0, buf, i0) && st0.digits == chunkSizeBuf[..chunkSizeIndex]
      modifies this`chunkSizeIndex, chunkSizeBuf
      ensures i0 <= i <= |buf| && contentBuf[..] == old(contentBuf[..])
      ensures chunkSizeIndex <= MAX_DIGITS && st.digits == chunkSizeBuf[..chunkSizeIndex] && st.content == st0.content
      ensures Awaiting(st, buf, i) && (i < |buf| && IsHexDigit(buf[i]) ==> |st.digits| == MAX_DIGITS)
      ensures st == Run(st0, buf[i0..i])
    {
      hide WrappedValue, Run;
      i, st := i0, st0;
      RunNothing(st0, buf, i0);
      while i < |buf| && IsHexDigit(buf[i]) && chunkSizeIndex < chunkSizeBuf.Length - 1
        invariant i0 <= i <= |buf| && chunkSizeIndex <= MAX_DIGITS && contentBuf[..] == old(contentBuf[..])
        invariant Awaiting(st, buf, i) && st.content == st0.content && st.digits == chunkSizeBuf[..chunkSizeIndex]
        invariant st == Run(st0, buf[i0..i])
      {
        chunkSizeBuf[chunkSizeIndex] := buf[i];
        chunkSizeIndex := chunkSizeIndex + 1;
        chunkSizeBuf[chunkSizeIndex] := '\0';
        st := RunStep(st0, st, buf, i0, i);
        i := i + 1;
      }
    }

    /**
     One size line, or as much of it as `buf` holds from i0 on.  When `complete` is set the line
     has ended and `chunkSize` is its value; otherwise only the digits are kept.
     */
    method ReadSize(buf: string, i0: nat) returns (i: nat, complete: bool, ghost st: Decoder)
      requires Consistent() && !overrun && chunkSize == 0 && i0 < |buf|
      modifies this`chunkSize, this`chunkSizeIndex, chunkSizeBuf
      ensures i0 < i <= |buf| && st == Run(old(Decoding()), buf[i0..i])
      ensures contentBuf[..] == old(contentBuf[..])
      ensures chunkSizeIndex <= MAX_DIGITS && AllHex(chunkSizeBuf[..chunkSizeIndex])
      ensures !complete ==> Consistent() && chunkSize == 0 && AtHead(st, buf, i) && Decoding() == Resume(st)
      ensures complete ==> chunkSizeIndex == 0 && chunkSize < TWO_32
      ensures complete ==>
                var content := contentBuf[..contentUsed];
                st == if chunkSize == 0 then Decoder(Done, "", 0, content)
                      else if chunkSize < TWO_31 then Decoder(Data, "", chunkSize, content)
                      else Decoder(Overrun, "", 0, content)
    {
      hide WrappedValue, Run, AllHex;
      ghost var st0 := Decoding();
      ghost var i1: nat, i2: nat;
      st := st0;
      if chunkSizeIndex == 0 {
        i, st := SkipLineBreak(buf, i0, st);
      } else {
        i := i0;
        RunNothing(st0, buf, i0);
      }
      i1 := i;
      i, st := CollectDigits(buf, i, st);
      RunOn(st0, buf, i0, i1, i);
      i2 := i;
      i, complete, st := SkipExtension(buf, i, st);
      RunOn(st0, buf, i0, i2, i);
      if complete {
        chunkSize := SizeFromDigits();
        chunkSizeBuf[0] := '\0';
        chunkSizeIndex := 0;
      }
    }

    /** Copy what the receive holds of the current chunk; the size is compared as a signed int. */
    method CopyData(buf: string, i0: nat) returns (i: nat)
      requires Buffers() && !ended && !overrun && 0 < chunkSize < TWO_32 && i0 <= |buf| <= RECEIVE_SIZE
      modifies this`chunkSize, this`contentBuf, this`contentUsed, this`ended, this`overrun, contentBuf
      ensures contentBuf == old(contentBuf) || fresh(contentBuf)
      ensures Consistent() && i0 <= i <= |buf| && ended == overrun == (old(chunkSize) >= TWO_31)
      ensures overrun ==> i == i0 && contentBuf[..contentUsed] == old(contentBuf[..contentUsed])
      ensures !overrun ==> i0 < |buf| ==> i0 < i
      ensures !overrun ==>
                Decoding() == Run(Decoder(Data, "", old(chunkSize), old(contentBuf[..contentUsed])), buf[i0..i])
    {
      hide Run, Step, AllHex;
      i := i0;
      var signed := if chunkSize < TWO_31 then chunkSize else chunkSize - TWO_32;
      var bytesToCopy := if signed < |buf| - i then chunkSize else |buf| - i;
      if bytesToCopy > |buf| - i {
        ended, overrun := true, true;
        return;
      }
      CopiedData(Decoder(Data, "", chunkSize, contentBuf[..contentUsed]), buf[i..i + bytesToCopy]);
      Append(buf[i..i + bytesToCopy]);
      i := i + bytesToCopy;
      chunkSize := chunkSize - bytesToCopy;
    }

    /**
     The chunk loop over one receive.  `heads` lists the loop heads: the index reached and what
     the fields hold there.  Each turn advances the index or leaves the loop.
     */
    method FeedChunks(buf: string) returns (ghost heads: seq<(nat, Decoder)>)
      requires Consistent() && !ended && !overrun && |buf| <= RECEIVE_SIZE
      modifies this`chunkSize, this`chunkSizeIndex, this`contentBuf, this`contentUsed, this`ended, this`overrun,
               chunkSizeBuf, contentBuf
      ensures contentBuf == old(contentBuf) || fresh(contentBuf)
      ensures Consistent() && (overrun ==> ended)
      ensures var st := Feed(old(Decoding()), buf);
              && overrun == (st.phase == Overrun) && ended == (st.phase in {Done, Overrun})
              && contentBuf[..contentUsed] == st.content
              && (!ended ==> st == Decoding())
      ensures HeadsOf(old(Decoding()), buf, heads)
      ensures !ended ==> heads != [] && heads[|heads| - 1] == (|buf|, Decoding())
    {
      hide Run, Step, AllHex, Feed, Resume, AtHead, HeadsOf;
      var i := 0;
      ghost var start := Decoding();
      ghost var st := start;
      RunNothing(start, buf, 0);
      assert buf[..0] == buf[0..0];
      HeadStart(start, buf);
      heads := [(0, start)];
      while i < |buf|
        invariant i <= |buf|
        invariant contentBuf == old(contentBuf) || fresh(contentBuf)
        invariant Consistent() && !ended && !overrun
        invariant st == Run(start, buf[..i]) && AtHead(st, buf, i) && Decoding() == Resume(st)
        invariant heads != [] && HeadsOf(start, buf, heads) && heads[|heads| - 1] == (i, Decoding())
      {
        ghost var i0, st0 := i, st;
        if chunkSize == 0 {
          var complete;
          i, complete, st := ReadSize(buf, i);
          HeadRun(start, st0, buf, i0, i);
          if !complete {
            heads := NextHead(start, st, buf, i, heads);
            continue;
          }
          if chunkSize == 0 {
            RunEnds(start, st, buf, i);
            ended := true;
            return;
          }
          i0 := i;
        } else {
          HeadStill(st0, buf, i0);
        }
        i := CopyData(buf, i);
        if overrun {
          RunEnds(start, st, buf, i);
          return;
        }
        RunTo(start, st, buf, i0, i);
        st := Decoding();
        HeadSettled(st, buf, i);
        heads := NextHead(start, st, buf, i, heads);
      }
      FeedWhole(start, st, buf);
    }

    /** The part of a turn that deals with the body. */
    method TakeBody(buf: string)
      requires Valid() && !ended && endOfHeaders > 0 && |buf| <= RECEIVE_SIZE
      modifies this, chunkSizeBuf, contentBuf
      ensures Valid() && (contentBuf == old(contentBuf) || fresh(contentBuf)) && chunkSizeBuf == old(chunkSizeBuf)
      ensures State() == ReceiveBody(old(State()), buf)
    {
      hide Feed, AllHex;
      if chunked {
        ghost var heads := FeedChunks(buf);
        if ended {
          return;
        }
      } else {
        var n := |buf|;
        if contentLength > 0 && contentUsed + n > contentLength {
          n := contentLength - contentUsed;
        }
        Append(buf[..n]);
      }
      if contentLength > 0 && contentUsed >= contentLength {
        ended := true;
      }
    }

    /** One turn of the receive loop. */
    method Receive(received: string)
      requires Valid() && !ended && |received| <= RECEIVE_SIZE
      modifies this, chunkSizeBuf, contentBuf
      ensures Valid() && (contentBuf == old(contentBuf) || fresh(contentBuf)) && chunkSizeBuf == old(chunkSizeBuf)
      ensures State() == HttpResponse.Receive(parse, old(State()), received)
    {
      hide ReceiveBody, EndOfHeaders;
      var buf := received;
      if endOfHeaders == 0 {
        ghost var seen := headerBuf;
        headerBuf := headerBuf + buf;
        endOfHeaders := FindEndOfHeaders(headerBuf);
        if endOfHeaders == 0 {
          return;
        }
        var headers := parse(headerBuf[..endOfHeaders]);
        chunked, contentLength := headers.chunked, headers.contentLength;
        RemainderFits(seen, buf);
        buf := headerBuf[endOfHeaders..];
        assert State() == Open(headers);
      }
      TakeBody(buf);
    }
  }

  method FindEndOfHeaders(h: string) returns (endOfHeaders: nat)
    ensures endOfHeaders == EndOfHeaders(h)
  {
    endOfHeaders := 0;
    var i := 0;
    while i < |h| - 1 && endOfHeaders == 0
      invariant endOfHeaders == 0 ==> ScanFrom(h, i) == EndOfHeaders(h)
      invariant endOfHeaders != 0 ==> endOfHeaders == EndOfHeaders(h)
      decreases |h| - i
    {
      if h[i] == '\r' {
        i := i + 1;
        if h[i] == '\n' {
          i := i + 1;
          if i < |h| && h[i] == '\r' {
            i := i + 1;
            if i < |h| && h[i] == '\n' {
              endOfHeaders := i + 1;
            }
          }
        }
      } else if h[i] == '\n' {
        i := i + 1;
        if h[i] == '\n' {
          endOfHeaders := i + 1;
        }
      }
      i := i + 1;
    }
  }

  datatype Outcome = Response(content: Option<string>) | OutOfBounds

  /** The whole call: an empty content is reported as no content. */
  method GetHttpResponse(parse: string -> Headers, receives: seq<string>) returns (outcome: Outcome)
    requires forall k :: 0 <= k < |receives| ==> 0 < |receives[k]| <= RECEIVE_SIZE
    ensures var r := ReceiveAll(parse, Heading(""), receives);
            outcome == if r.Fault? then OutOfBounds
                       else Response(if Content(r) == "" then None else Some(Content(r)))
  {
    var reader := new ResponseReader(parse);
    var k := 0;
    while k < |receives| && !reader.ended
      invariant k <= |receives| && reader.Valid() && fresh(reader) && fresh(reader.chunkSizeBuf)
              && fresh(reader.contentBuf)
      invariant reader.parse == parse
      invariant ReceiveAll(parse, reader.State(), receives[k..]) == ReceiveAll(parse, Heading(""), receives)
    {
      assert receives[k..][1..] == receives[k + 1..];
      reader.Receive(receives[k]);
      k := k + 1;
    }
    if reader.ended {
      StaysFinished(parse, reader.State(), receives[k..]);
    }
    if reader.overrun {
      outcome := OutOfBounds;
    } else if reader.contentUsed == 0 {
      outcome := Response(None);
    } else {
      outcome := Response(Some(reader.contentBuf[..reader.contentUsed]));
    }
  }

  /** Before the extension of a size line; leading CR and LF are already skipped. */
  ghost predicate Awaiting(st: Decoder, buf: string, i: nat) {
    && ChunkCoding.Valid(st) && st.phase in {SkipCR, SkipLF, Digits}
    && (st.phase == SkipCR && i < |buf| ==> buf[i] != '\r' && buf[i] != '\n')
    && (st.phase == SkipLF && i < |buf| ==> buf[i] != '\n')
  }

  /** Where the chunk loop may be entered again: only the digits of an unfinished line count from here on. */
  ghost predicate AtHead(st: Decoder, buf: string, i: nat)
    requires i <= |buf|
  {
    && ChunkCoding.Valid(st)
    && (Resume(st) == st || i == |buf| || (st.phase == LineFeed && buf[i] != '\n'))
  }

  /** Indices that grow from 0, and at each of them the decoder after that much of the receive. */
  ghost predicate HeadsOf(start: Decoder, buf: string, heads: seq<(nat, Decoder)>)
    requires ChunkCoding.Valid(start)
  {
    && heads != [] && heads[0].0 == 0
    && (forall k :: 0 <= k < |heads| ==> heads[k].0 <= |buf| && heads[k].1 == Feed(start, buf[..heads[k].0]))
    && (forall j, k :: 0 <= j < k < |heads| ==> heads[j].0 < heads[k].0)
  }

  /** A leading CR LF, CR or LF is skipped when no digit was read yet. */
  method SkipLineBreak(buf: string, i0: nat, ghost st0: Decoder) returns (i: nat, ghost st: Decoder)
    requires ChunkCoding.Valid(st0) && i0 <= |buf|
    requires st0.phase == SkipCR
    ensures i0 <= i <= |buf| && Awaiting(st, buf, i) && st.digits == st0.digits && st.content == st0.content
    ensures st == Run(st0, buf[i0..i])
  {
    hide WrappedValue, Run;
    i, st := i0, st0;
    RunNothing(st0, buf, i0);
    if i < |buf| && buf[i] == '\r' {
      st := RunStep(st0, st, buf, i0, i);
      i := i + 1;
    }
    if i < |buf| && buf[i] == '\n' {
      st := RunStep(st0, st, buf, i0, i);
      i := i + 1;
    }
  }

  /** The extension is discarded; `complete` tells whether the line ended. */
  method SkipExtension(buf: string, i0: nat, ghost st0: Decoder) returns (i: nat, complete: bool, ghost st: Decoder)
    requires i0 <= |buf| && Awaiting(st0, buf, i0)
    requires i0 < |buf| && IsHexDigit(buf[i0]) ==> |st0.digits| == MAX_DIGITS
    ensures i0 <= i <= |buf| && (i0 < |buf| ==> i0 < i)
    ensures ChunkCoding.Valid(st) && st == Run(st0, buf[i0..i])
    ensures complete ==> st == FinishLine(st0)
    ensures !complete ==> st.phase !in {Data, Done, Overrun} && st.digits == st0.digits && st.content == st0.content
    ensures !complete ==> i == |buf| || (st.phase == LineFeed && buf[i] != '\n')
  {
    hide WrappedValue, Run;
    i, st := i0, st0;
    RunNothing(st0, buf, i0);
    while i < |buf| && buf[i] != '\r' && buf[i] != '\n'
      invariant i0 <= i <= |buf|
      invariant ChunkCoding.Valid(st) && st.digits == st0.digits && st.content == st0.content
      invariant st.phase == Extension || (i == i0 && st == st0)
      invariant st == Run(st0, buf[i0..i])
    {
      st := RunStep(st0, st, buf, i0, i);
      i := i + 1;
    }
    if i < |buf| && buf[i] == '\r' {
      st := RunStep(st0, st, buf, i0, i);
      i := i + 1;
    }
    complete := i < |buf| && buf[i] == '\n';
    if complete {
      st := RunStep(st0, st, buf, i0, i);
      i := i + 1;
    }
  }

  /** One more character of a run. */
  ghost function RunStep(st0: Decoder, st: Decoder, buf: string, i0: nat, i: nat): (st': Decoder)
    requires ChunkCoding.Valid(st0) && i0 <= i < |buf| && st == Run(st0, buf[i0..i])
    ensures ChunkCoding.Valid(st') && st' == Step(st, buf[i]) && st' == Run(st0, buf[i0..i + 1])
  {
    StepValid(st, buf[i]);
    assert buf[i0..i + 1] == buf[i0..i] + [buf[i]];
    RunSplit(st0, buf[i0..i], [buf[i]]);
    RunOne(st, buf[i]);
    Step(st, buf[i])
  }

  lemma RunOne(st: Decoder, c: char)
    requires ChunkCoding.Valid(st)
    ensures Run(st, [c]) == Step(st, c)
  {
    hide Step;
    StepValid(st, c);
    var s := [c];
    assert s[0] == c && s[1..] == "";
    assert Run(st, s) == Run(Step(st, c), "");
  }

  lemma RunNothing(st: Decoder, buf: string, i: nat)
    requires ChunkCoding.Valid(st) && i <= |buf|
    ensures Run(st, buf[i..i]) == st
  {
  }

  lemma RunOn(st: Decoder, buf: string, i0: nat, i1: nat, i2: nat)
    requires ChunkCoding.Valid(st) && i0 <= i1 <= i2 <= |buf|
    ensures Run(Run(st, buf[i0..i1]), buf[i1..i2]) == Run(st, buf[i0..i2])
  {
    RunSplit(st, buf[i0..i1], buf[i1..i2]);
    assert buf[i0..i1] + buf[i1..i2] == buf[i0..i2];
  }

  lemma CopiedData(st: Decoder, copied: string)
    requires ChunkCoding.Valid(st) && st.phase == Data && |copied| <= st.owed
    ensures Run(st, copied) == AfterCopy(st, copied)
  {
    RunData(st, copied, |copied|);
    assert copied[..|copied|] == copied && copied[|copied|..] == "";
  }

  lemma RunTo(start: Decoder, st: Decoder, buf: string, i: nat, j: nat)
    requires ChunkCoding.Valid(start) && i <= j <= |buf| && st == Run(start, buf[..i])
    ensures Run(st, buf[i..j]) == Run(start, buf[..j])
  {
    RunOn(start, buf, 0, i, j);
    assert buf[0..i] == buf[..i] && buf[0..j] == buf[..j];
  }

  /** At a loop head it makes no difference that the place in the line was forgotten. */
  lemma HeadRun(start: Decoder, st: Decoder, buf: string, i: nat, j: nat)
    requires ChunkCoding.Valid(start) && i < j <= |buf| && st == Run(start, buf[..i]) && AtHead(st, buf, i)
    ensures ChunkCoding.Valid(Resume(st)) && Run(Resume(st), buf[i..j]) == Run(start, buf[..j])
  {
    RunTo(start, st, buf, i, j);
    var s := buf[i..j];
    assert s[0] == buf[i];
    if Resume(st) != st {
      assert Step(Resume(st), s[0]) == Step(st, s[0]);
    }
  }

  lemma HeadStart(start: Decoder, buf: string)
    requires ChunkCoding.Valid(start) && Resume(start) == start
    ensures AtHead(start, buf, 0) && HeadsOf(start, buf, [(0, start)])
  {
    assert buf[..0] == "";
  }

  lemma HeadStill(st: Decoder, buf: string, i: nat)
    requires ChunkCoding.Valid(st) && Resume(st).phase == Data
    ensures Resume(st) == st
  {
  }

  lemma HeadSettled(st: Decoder, buf: string, i: nat)
    requires ChunkCoding.Valid(st) && Resume(st) == st && i <= |buf|
    ensures AtHead(st, buf, i)
  {
  }

  ghost function NextHead(start: Decoder, st: Decoder, buf: string, i: nat,
      heads: seq<(nat, Decoder)>): (r: seq<(nat, Decoder)>)
    requires ChunkCoding.Valid(start) && HeadsOf(start, buf, heads) && heads[|heads| - 1].0 < i <= |buf|
            && st == Run(start, buf[..i])
    ensures HeadsOf(start, buf, r) && r[|r| - 1] == (i, Resume(st))
  {
    heads + [(i, Resume(st))]
  }

  lemma RunEnds(start: Decoder, st: Decoder, buf: string, i: nat)
    requires ChunkCoding.Valid(start) && i <= |buf| && st == Run(start, buf[..i]) && st.phase in {Done, Overrun}
    ensures Feed(start, buf) == st
  {
    RunTo(start, st, buf, i, |buf|);
    assert buf[..|buf|] == buf;
    RunDone(st, buf[i..|buf|]);
  }

  lemma FeedWhole(start: Decoder, st: Decoder, buf: string)
    requires ChunkCoding.Valid(start) && st == Run(start, buf[..|buf|])
    ensures Feed(start, buf) == Resume(st)
  {
    assert buf[..|buf|] == buf;
  }
}
