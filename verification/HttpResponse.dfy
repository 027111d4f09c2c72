/**
 getHTTPResponse (miniwget.c): header collection, end-of-header search, the chunked and the
 plain body, the Content-Length cut-off and the growing content buffer.

 What the header lines say (chunked or not, Content-Length) is a parameter: any function of
 the header block.
 */
module HttpResponse {
  import opened ChunkCoding

  datatype Headers = Headers(chunked: bool, contentLength: int)

  // ---------------------------------------------------------------- end of headers

  /** The search from index i: the index after CR LF CR LF or LF LF, or 0. */
  function ScanFrom(h: string, i: nat): (e: nat)
    ensures e == 0 || i + 2 <= e <= |h|
    decreases |h| - i
  {
    if i + 1 >= |h| then 0
    else if h[i] == '\r' then
      if h[i + 1] != '\n' then ScanFrom(h, i + 2)
      else if i + 2 >= |h| || h[i + 2] != '\r' then ScanFrom(h, i + 3)
      else if i + 3 < |h| && h[i + 3] == '\n' then i + 4
      else ScanFrom(h, i + 4)
    else if h[i] == '\n' then
      if h[i + 1] == '\n' then i + 2 else ScanFrom(h, i + 2)
    else ScanFrom(h, i + 1)
  }

  function EndOfHeaders(h: string): (e: nat)
    ensures e <= |h|
  {
    ScanFrom(h, 0)
  }

  lemma ScanUnfold(h: string, i: nat)
    ensures ScanFrom(h, i) ==
            if i + 1 >= |h| then 0
            else if h[i] == '\r' then
              if h[i + 1] != '\n' then ScanFrom(h, i + 2)
              else if i + 2 >= |h| || h[i + 2] != '\r' then ScanFrom(h, i + 3)
              else if i + 3 < |h| && h[i + 3] == '\n' then i + 4
              else ScanFrom(h, i + 4)
            else if h[i] == '\n' then
              if h[i + 1] == '\n' then i + 2 else ScanFrom(h, i + 2)
            else ScanFrom(h, i + 1)
  {
  }

  /** A blank line that starts at i: the line break twice. */
  predicate BlankLineAt(h: string, i: nat) {
    i <= |h| && ("\r\n\r\n" <= h[i..] || "\n\n" <= h[i..])
  }

  /** A blank line that lies behind i ends at e. */
  predicate BlankLineEnds(h: string, i: nat, e: nat) {
    && e <= |h|
    && ((i + 4 <= e && h[e - 4] == '\r' && h[e - 3] == '\n' && h[e - 2] == '\r' && h[e - 1] == '\n') ||
        (i + 2 <= e && h[e - 2] == '\n' && h[e - 1] == '\n'))
  }

  /** What the search reports is the end of a blank line. */
  lemma {:induction false} ScanSound(h: string, i: nat)
    ensures ScanFrom(h, i) > 0 ==> BlankLineEnds(h, i, ScanFrom(h, i))
    decreases |h| - i
  {
    hide ScanFrom;
    ScanUnfold(h, i);
    if i + 1 >= |h| {
    } else if h[i] == '\r' {
      if h[i + 1] != '\n' {
        ScanSound(h, i + 2);
      } else if i + 2 >= |h| || h[i + 2] != '\r' {
        ScanSound(h, i + 3);
      } else {
        ScanSound(h, i + 4);
      }
    } else if h[i] == '\n' {
      ScanSound(h, i + 2);
    } else {
      ScanSound(h, i + 1);
    }
  }

  /** No blank line that follows other text is missed. */
  lemma {:induction false} ScanFinds(h: string, i: nat, k: nat)
    requires i <= k && BlankLineAt(h, k) && (k == i || h[k - 1] !in {'\r', '\n'})
    ensures 0 < ScanFrom(h, i) <= k + 4
    decreases |h| - i
  {
    hide ScanFrom;
    ScanUnfold(h, i);
    if i == k {
      BlankLineChars(h, k);
    } else if h[i] == '\r' {
      if h[i + 1] != '\n' {
        ScanFinds(h, i + 2, k);
      } else if i + 2 >= |h| || h[i + 2] != '\r' {
        ScanFinds(h, i + 3, k);
      } else if i + 3 < |h| && h[i + 3] == '\n' {
      } else {
        ScanFinds(h, i + 4, k);
      }
    } else if h[i] == '\n' {
      if h[i + 1] != '\n' {
        ScanFinds(h, i + 2, k);
      }
    } else {
      ScanFinds(h, i + 1, k);
    }
  }

  lemma BlankLineChars(h: string, k: nat)
    requires BlankLineAt(h, k)
    ensures k + 2 <= |h| && (h[k] == h[k + 1] == '\n' ||
            (k + 4 <= |h| && h[k] == h[k + 2] == '\r' && h[k + 1] == h[k + 3] == '\n'))
  {
    var t := h[k..];
    if "\n\n" <= t {
      assert t[0] == "\n\n"[0] && t[1] == "\n\n"[1];
    } else {
      var b := "\r\n\r\n";
      assert t[0] == b[0] && t[1] == b[1] && t[2] == b[2] && t[3] == b[3];
    }
  }

  /** How many line break characters, none of them before i, stand directly before k. */
  function BreaksBefore(h: string, i: nat, k: nat): (n: nat)
    requires k <= |h|
    ensures i <= k ==> n <= k - i
  {
    if k <= i || h[k - 1] !in {'\r', '\n'} then 0 else 1 + BreaksBefore(h, i, k - 1)
  }

  lemma {:induction false} BreaksSplit(h: string, i: nat, j: nat, k: nat)
    requires i <= j <= k <= |h|
    ensures BreaksBefore(h, i, k) ==
            BreaksBefore(h, j, k) + if BreaksBefore(h, j, k) == k - j then BreaksBefore(h, i, j) else 0
    decreases k
  {
    if k == j {
    } else {
      BreaksSplit(h, i, j, k - 1);
    }
  }

  lemma {:induction false} AllBreaks(h: string, i: nat, k: nat)
    requires i <= k <= |h| && forall t :: i <= t < k ==> h[t] in {'\r', '\n'}
    ensures BreaksBefore(h, i, k) == k - i
    decreases k
  {
    if i == k {
    } else {
      AllBreaks(h, i, k - 1);
    }
  }

  /** An even number of breaks from i to j, or something else just before j, makes no difference behind j. */
  lemma BreaksStep(h: string, i: nat, j: nat, k: nat)
    requires i < j <= k <= |h|
    requires h[j - 1] in {'\r', '\n'} ==> (j - i) % 2 == 0 && forall t :: i <= t < j ==> h[t] in {'\r', '\n'}
    ensures BreaksBefore(h, i, k) % 2 == BreaksBefore(h, j, k) % 2
  {
    BreaksSplit(h, i, j, k);
    if h[j - 1] in {'\r', '\n'} {
      AllBreaks(h, i, j);
    }
  }

  ghost predicate NoneBetween(h: string, i: nat, k: nat) {
    forall j :: i <= j < k ==> !BlankLineAt(h, j)
  }

  function BlankLineEnd(h: string, k: nat): nat
    requires k < |h|
  {
    if h[k] == '\n' then k + 2 else k + 4
  }

  lemma BlankAt(h: string, k: nat)
    requires k + 2 <= |h|
    ensures BlankLineAt(h, k) <==>
            (h[k] == h[k + 1] == '\n' ||
             (k + 4 <= |h| && h[k] == h[k + 2] == '\r' && h[k + 1] == h[k + 3] == '\n'))
  {
    if h[k] == h[k + 1] == '\n' {
      assert h[k..] == "\n\n" + h[k + 2..];
    } else if k + 4 <= |h| && h[k] == h[k + 2] == '\r' && h[k + 1] == h[k + 3] == '\n' {
      assert h[k..] == "\r\n\r\n" + h[k + 4..];
    } else if BlankLineAt(h, k) {
      BlankLineChars(h, k);
    }
  }

  /** A search from inside a blank line does not report its end. */
  lemma SteppedOver(h: string, k: nat, j: nat)
    requires BlankLineAt(h, k) && (j == k + 1 || (h[k] == '\n' && j == k + 2))
    ensures k < |h| && ScanFrom(h, j) != BlankLineEnd(h, k)
  {
    BlankLineChars(h, k);
    ScanSound(h, j);
  }

  /**
   The search stops at the first blank line exactly when an even number of line break characters
   stands directly before it: it consumes them two or four at a time.
   */
  lemma {:induction false} FoundExactly(h: string, i: nat, k: nat)
    requires i <= k && BlankLineAt(h, k) && NoneBetween(h, i, k)
    ensures k < |h| && (ScanFrom(h, i) == BlankLineEnd(h, k) <==> BreaksBefore(h, i, k) % 2 == 0)
    decreases |h| - i, 1
  {
    hide ScanFrom, BlankLineAt;
    ScanUnfold(h, i);
    BlankLineChars(h, k);
    BlankAt(h, i);
    if i == k {
    } else if h[i] !in {'\r', '\n'} {
      BreaksStep(h, i, i + 1, k);
      FoundExactly(h, i + 1, k);
    } else if i + 1 == k {
      AllBreaks(h, i, k);
      SteppedOver(h, k, if h[i] == '\r' && h[k] == '\n' then k + 2 else k + 1);
    } else if h[i] == '\n' || h[i + 1] != '\n' {
      BreaksStep(h, i, i + 2, k);
      FoundExactly(h, i + 2, k);
    } else {
      FoundAfterBreak(h, i, k);
    }
  }

  /** A whole line break at i, which is not part of a blank line. */
  lemma {:induction false} FoundAfterBreak(h: string, i: nat, k: nat)
    requires i + 2 <= k && BlankLineAt(h, k) && NoneBetween(h, i, k) && h[i] == '\r' && h[i + 1] == '\n'
    ensures k < |h| && (ScanFrom(h, i) == BlankLineEnd(h, k) <==> BreaksBefore(h, i, k) % 2 == 0)
    decreases |h| - i, 0
  {
    hide ScanFrom, BlankLineAt;
    ScanUnfold(h, i);
    BlankLineChars(h, k);
    BlankAt(h, i);
    BlankAt(h, i + 1);
    if h[i + 2] != '\r' {
      BreaksStep(h, i, i + 3, k);
      FoundExactly(h, i + 3, k);
    } else if k == i + 3 {
      AllBreaks(h, i, k);
      SteppedOver(h, k, k + 1);
    } else {
      BreaksStep(h, i, i + 4, k);
      FoundExactly(h, i + 4, k);
    }
  }

  /** After another line break it may be: the search steps over the character behind it. */
  lemma ScanMisses()
    ensures BlankLineAt("\n\r\n\r\n", 1) && EndOfHeaders("\n\r\n\r\n") == 0
    ensures BlankLineAt("\r\r\n\r\n", 1) && EndOfHeaders("\r\r\n\r\n") == 0
  {
    var a, b := "\n\r\n\r\n", "\r\r\n\r\n";
    assert a[1..] == "\r\n\r\n" && b[1..] == "\r\n\r\n";
    assert ScanFrom(a, 0) == ScanFrom(a, 2) == ScanFrom(a, 4) == 0;
    assert ScanFrom(b, 0) == ScanFrom(b, 2) == ScanFrom(b, 4) == 0;
  }

  /** A prefix of a stream reports the stream's own end of headers as soon as it contains it, and nothing before. */
  lemma {:induction false} ScanPrefix(h: string, k: nat, i: nat)
    requires k <= |h|
    ensures ScanFrom(h[..k], i) == if ScanFrom(h, i) <= k then ScanFrom(h, i) else 0
    decreases |h| - i
  {
    if i + 1 >= k {
    } else {
      if h[i] == '\r' {
        if h[i + 1] != '\n' {
          ScanPrefix(h, k, i + 2);
        } else if i + 2 >= |h| || h[i + 2] != '\r' {
          ScanPrefix(h, k, i + 3);
        } else {
          ScanPrefix(h, k, i + 4);
        }
      } else if h[i] == '\n' {
        ScanPrefix(h, k, i + 2);
      } else {
        ScanPrefix(h, k, i + 1);
      }
    }
  }

  /** The body bytes that came with the headers came in the last receive, so they fit its buffer. */
  lemma RemainderFits(seen: string, buf: string)
    requires EndOfHeaders(seen) == 0 && EndOfHeaders(seen + buf) > 0
    ensures |seen + buf| - EndOfHeaders(seen + buf) < |buf|
  {
    assert (seen + buf)[..|seen|] == seen;
    ScanPrefix(seen + buf, |seen|, 0);
  }

  ghost predicate HeaderLines(lines: seq<string>) {
    forall i :: 0 <= i < |lines| ==> lines[i] != "" && NoLineBreak(lines[i])
  }

  function Lines(lines: seq<string>, eol: string): string {
    if lines == [] then "" else lines[0] + eol + Lines(lines[1..], eol)
  }

  /** Scanning over text without line breaks finds nothing. */
  lemma {:induction false} ScanText(text: string, h: string, i: nat)
    requires i <= |text| && NoLineBreak(text) && h != ""
    ensures ScanFrom(text + h, i) == ScanFrom(text + h, |text|)
    decreases |text| - i
  {
    if i == |text| {
    } else {
      assert (text + h)[i] == text[i];
      ScanText(text, h, i + 1);
    }
  }

  lemma {:induction false} ScanShift(a: string, h: string, i: nat)
    ensures ScanFrom(a + h, |a| + i) == if ScanFrom(h, i) == 0 then 0 else |a| + ScanFrom(h, i)
    decreases |h| - i
  {
    hide ScanFrom;
    ScanUnfold(h, i);
    ScanUnfold(a + h, |a| + i);
    if i + 1 >= |h| {
    } else {
      var b := a + h;
      assert b[|a| + i] == h[i] && b[|a| + i + 1] == h[i + 1];
      assert i + 2 < |h| ==> b[|a| + i + 2] == h[i + 2];
      assert i + 3 < |h| ==> b[|a| + i + 3] == h[i + 3];
      if h[i] == '\r' {
        if h[i + 1] != '\n' {
          ScanShift(a, h, i + 2);
        } else if i + 2 >= |h| || h[i + 2] != '\r' {
          ScanShift(a, h, i + 3);
        } else {
          ScanShift(a, h, i + 4);
        }
      } else if h[i] == '\n' {
        ScanShift(a, h, i + 2);
      } else {
        ScanShift(a, h, i + 1);
      }
    }
  }

  /** After a line break the search either ends or steps over one more character. */
  lemma ScanBreak(text: string, eol: string, h: string)
    requires eol in {"\r\n", "\n"} && h != ""
    ensures h[0] !in {'\r', '\n'} ==>
              ScanFrom(text + (eol + h), |text|) == ScanFrom((text + eol) + h, |text + eol| + 1)
    ensures eol <= h ==> ScanFrom(text + (eol + h), |text|) == |text + eol + eol|
  {
    var w := text + (eol + h);
    assert w == (text + eol) + h;
    assert w[|text|] == eol[0] && w[|text| + |eol|] == h[0];
    if eol == "\r\n" {
      assert w[|text| + 1] == '\n';
    }
    if eol <= h && |eol| == 2 {
      assert w[|text| + 3] == h[1];
    }
  }

  lemma {:induction false} ScanLines(skip: nat, lines: seq<string>, eol: string, body: string)
    requires HeaderLines(lines) && lines != [] && skip <= 1 && eol in {"\r\n", "\n"}
    ensures ScanFrom(Lines(lines, eol) + (eol + body), skip) == |Lines(lines, eol)| + |eol|
    decreases |lines|
  {
    hide ScanFrom;
    var text, rest := lines[0], Lines(lines[1..], eol);
    var h := rest + (eol + body);
    assert Lines(lines, eol) + (eol + body) == text + (eol + h);
    ScanText(text, eol + h, skip);
    ScanBreak(text, eol, h);
    if lines[1..] == [] {
      assert h == eol + body;
    } else {
      var next := lines[1..][0];
      assert h[0] == next[0];
      ScanShift(text + eol, h, 1);
      ScanLines(1, lines[1..], eol, body);
    }
  }

  /** On a proper header block the search stops exactly at its end, whatever follows. */
  lemma HeaderBlockEnds(lines: seq<string>, eol: string, body: string)
    requires HeaderLines(lines) && lines != [] && eol in {"\r\n", "\n"}
    ensures EndOfHeaders(Lines(lines, eol) + eol + body) == |Lines(lines, eol) + eol|
  {
    ScanLines(0, lines, eol, body);
    assert Lines(lines, eol) + eol + body == Lines(lines, eol) + (eol + body);
  }

  // ---------------------------------------------------------------- one receive after another

  /** What the reader holds between two receives. */
  datatype Reader =
    | Heading(seen: string)
    | Plain(length: int, content: string)
    | Chunks(length: int, st: Decoder)
    | Finished(content: string)
    | Fault

  ghost predicate ReaderOk(r: Reader) {
    match r
    case Heading(seen) => EndOfHeaders(seen) == 0
    case Plain(length, content) => length > 0 ==> |content| < length
    case Chunks(length, st) => ChunkCoding.Valid(st) && st.phase !in {Done, Overrun} && Resume(st) == st
        && (length > 0 ==> |st.content| < length)
    case Finished(_) => true
    case Fault => true
  }

  ghost function Open(h: Headers): (r: Reader)
    ensures ReaderOk(r)
  {
    if h.chunked then Chunks(h.contentLength, START) else Plain(h.contentLength, "")
  }

  ghost function ReceiveBody(r: Reader, buf: string): (r': Reader)
    requires ReaderOk(r) && (r.Plain? || r.Chunks?)
    ensures ReaderOk(r') && !r'.Heading?
  {
    match r
    case Plain(length, content) =>
      var n := if length > 0 && |content| + |buf| > length then length - |content| else |buf|;
      var content' := content + buf[..n];
      if length > 0 && |content'| >= length then Finished(content') else Plain(length, content')
    case Chunks(length, st) =>
      var st' := Feed(st, buf);
      if st'.phase == Done then Finished(st'.content)
      else if st'.phase == Overrun then Fault
      else if length > 0 && |st'.content| >= length then Finished(st'.content)
      else Chunks(length, st')
  }

  ghost function Receive(parse: string -> Headers, r: Reader, buf: string): (r': Reader)
    requires ReaderOk(r)
    ensures ReaderOk(r')
  {
    match r
    case Heading(seen) =>
      var all := seen + buf;
      var e := EndOfHeaders(all);
      if e == 0 then Heading(all) else ReceiveBody(Open(parse(all[..e])), all[e..])
    case Finished(_) => r
    case Fault => r
    case _ => ReceiveBody(r, buf)
  }

  ghost function ReceiveAll(parse: string -> Headers, r: Reader, receives: seq<string>): (r': Reader)
    requires ReaderOk(r)
    ensures ReaderOk(r')
    decreases |receives|
  {
    if receives == [] then r else ReceiveAll(parse, Receive(parse, r, receives[0]), receives[1..])
  }

  function Content(r: Reader): string {
    match r
    case Plain(_, content) => content
    case Chunks(_, st) => st.content
    case Finished(content) => content
    case _ => ""
  }

  // ---------------------------------------------------------------- independence of the cutting

  /** Without an end of headers in the stream nothing is passed on. */
  lemma {:induction false} HeadersMissing(parse: string -> Headers, seen: string, receives: seq<string>)
    requires EndOfHeaders(seen + Concat(receives)) == 0
    ensures EndOfHeaders(seen) == 0
    ensures ReceiveAll(parse, Heading(seen), receives) == Heading(seen + Concat(receives))
    ensures Content(ReceiveAll(parse, Heading(seen), receives)) == ""
    decreases |receives|
  {
    var stream := seen + Concat(receives);
    assert stream[..|seen|] == seen;
    ScanPrefix(stream, |seen|, 0);
    if receives != [] {
      assert stream == seen + receives[0] + Concat(receives[1..]);
      HeadersMissing(parse, seen + receives[0], receives[1..]);
    } else {
      assert stream == seen;
    }
  }

  /**
   The headers handed to `parse` and the body that follows depend only on the whole stream: the
   run from the first receive is a run of the body reader over a cutting of the stream after the
   end of headers.
   */
  lemma {:induction false} SplitAtHeaders(parse: string -> Headers, seen: string, receives: seq<string>)
      returns (body: seq<string>)
    requires EndOfHeaders(seen) == 0 && EndOfHeaders(seen + Concat(receives)) > 0
    ensures var stream := seen + Concat(receives); var e := EndOfHeaders(stream);
            && body != [] && Concat(body) == stream[e..] && (OneByteEach(receives) ==> OneByteEach(body))
            && ReceiveAll(parse, Heading(seen), receives) == ReceiveAll(parse, Open(parse(stream[..e])), body)
    decreases |receives|
  {
    hide ScanFrom, ReceiveBody, ReaderOk;
    var stream := seen + Concat(receives);
    var e := EndOfHeaders(stream);
    assert receives == [] ==> stream == seen;
    body := [];
    if receives == [] {
    } else {
      var all, later := seen + receives[0], Concat(receives[1..]);
      assert stream == all + later && stream[..|all|] == all;
      ScanPrefix(stream, |all|, 0);
      if e <= |all| {
        RemainderFits(seen, receives[0]);
        body := [all[e..]] + receives[1..];
        assert body[0] == all[e..] && body[1..] == receives[1..];
        assert stream[e..] == all[e..] + later && all[..e] == stream[..e];
      } else {
        body := SplitAtHeaders(parse, all, receives[1..]);
      }
    }
  }

  /** A plain body: Content-Length c > 0 keeps its first c bytes, otherwise everything is kept. */
  lemma {:induction false} PlainBody(parse: string -> Headers, length: int, content: string, receives: seq<string>)
    requires ReaderOk(Plain(length, content))
    ensures var r := ReceiveAll(parse, Plain(length, content), receives); var all := content + Concat(receives);
            && Content(r) == (if 0 < length < |all| then all[..length] else all)
            && (r.Finished? <==> 0 < length <= |all|)
    decreases |receives|
  {
    var all := content + Concat(receives);
    if receives == [] {
      assert all == content;
    } else {
      var buf, later := receives[0], Concat(receives[1..]);
      var r1 := Receive(parse, Plain(length, content), buf);
      assert all == content + buf + later;
      if r1.Finished? {
        StaysFinished(parse, r1, receives[1..]);
        assert all[..length] == content + buf[..length - |content|];
      } else {
        assert buf[..|buf|] == buf;
        PlainBody(parse, length, content + buf, receives[1..]);
      }
    }
  }

  lemma {:induction false} StaysFinished(parse: string -> Headers, r: Reader, receives: seq<string>)
    requires r.Finished? || r.Fault?
    ensures ReceiveAll(parse, r, receives) == r
    decreases |receives|
  {
    if receives == [] {
    } else {
      StaysFinished(parse, r, receives[1..]);
    }
  }

  /** A stream whose headers announce a plain body gives the same bytes for every cutting. */
  lemma PlainResponse(parse: string -> Headers, receives: seq<string>)
    requires var stream := Concat(receives); var e := EndOfHeaders(stream); e > 0 && !parse(stream[..e]).chunked
    ensures var stream := Concat(receives); var e := EndOfHeaders(stream);
            var c := parse(stream[..e]).contentLength; var body := stream[e..];
            Content(ReceiveAll(parse, Heading(""), receives)) == if 0 < c < |body| then body[..c] else body
  {
    hide ReceiveAll, ScanFrom;
    var stream := Concat(receives);
    assert "" + stream == stream;
    var body := SplitAtHeaders(parse, "", receives);
    var c := parse(stream[..EndOfHeaders(stream)]).contentLength;
    PlainBody(parse, c, "", body);
    assert "" + Concat(body) == Concat(body);
  }

  /** Without a Content-Length cut-off the chunked reader is the decoder. */
  lemma {:induction false} ChunksFollowDecoder(parse: string -> Headers, length: int, st: Decoder,
      receives: seq<string>)
    requires ReaderOk(Chunks(length, st)) && length <= 0
    ensures var r := ReceiveAll(parse, Chunks(length, st), receives); var d := FeedAll(st, receives);
            r == if d.phase == Done then Finished(d.content) else if d.phase == Overrun then Fault
                else Chunks(length, d)
    decreases |receives|
  {
    if receives == [] {
    } else {
      var d := Feed(st, receives[0]);
      if d.phase in {Done, Overrun} {
        FeedAllEnded(d, receives[1..]);
        StaysFinished(parse, Receive(parse, Chunks(length, st), receives[0]), receives[1..]);
      } else {
        ChunksFollowDecoder(parse, length, d, receives[1..]);
      }
    }
  }

  lemma {:induction false} FeedAllEnded(st: Decoder, receives: seq<string>)
    requires ChunkCoding.Valid(st) && st.phase in {Done, Overrun}
    ensures FeedAll(st, receives) == st
    decreases |receives|
  {
    if receives == [] {
    } else {
      RunDone(st, receives[0]);
      FeedAllEnded(st, receives[1..]);
    }
  }

  /**
   The main theorem: a response with a chunked body, cut in any way from its first header byte
   on, yields exactly the payload.
   */
  lemma ChunkedResponse(parse: string -> Headers, head: string, cs: seq<Chunk>, trailer: string, receives: seq<string>)
    requires ChunksOk(cs) && QuietChunks(cs)
    requires Concat(receives) == head + Wire(cs, trailer) && EndOfHeaders(head + Wire(cs, trailer)) == |head| > 0
    requires parse(head).chunked && parse(head).contentLength <= 0
    ensures ReceiveAll(parse, Heading(""), receives) == Finished(Payload(cs))
  {
    hide Wire;
    var stream := Concat(receives);
    assert "" + stream == stream;
    var body := SplitAtHeaders(parse, "", receives);
    assert stream[..|head|] == head && stream[|head|..] == Wire(cs, trailer);
    DecodesEveryFragmentation(cs, trailer, body);
    ChunksFollowDecoder(parse, parse(head).contentLength, START, body);
  }

  /** With a Content-Length as well, the chunked reader is the decoder up to the first receive that reaches it. */
  lemma {:induction false} ChunksStopAtLength(parse: string -> Headers, length: int, st: Decoder,
      receives: seq<string>) returns (k: nat)
    requires ReaderOk(Chunks(length, st)) && length > 0
    ensures k <= |receives|
    ensures Content(ReceiveAll(parse, Chunks(length, st), receives)) ==
            (if FeedAll(st, receives[..k]).phase == Overrun then "" else FeedAll(st, receives[..k]).content)
    ensures k == |receives| || FeedAll(st, receives[..k]).phase in {Done, Overrun}
            || |FeedAll(st, receives[..k]).content| >= length
    ensures k > 0 ==> |FeedAll(st, receives[..k - 1]).content| < length
    decreases |receives|
  {
    hide Run, Step;
    if receives == [] {
      k := 0;
    } else {
      var d, more := Feed(st, receives[0]), receives[1..];
      if d.phase in {Done, Overrun} || |d.content| >= length {
        k := 1;
        assert receives[..1] == [receives[0]] && [receives[0]][1..] == [];
        assert FeedAll(st, receives[..1]) == FeedAll(d, []);
        StaysFinished(parse, Receive(parse, Chunks(length, st), receives[0]), more);
      } else {
        var j := ChunksStopAtLength(parse, length, d, more);
        k := j + 1;
        assert receives[..k][0] == receives[0] && receives[..k][1..] == more[..j];
        if j > 0 {
          assert receives[..j][0] == receives[0] && receives[..j][1..] == more[..j - 1];
        }
      }
    }
  }

  lemma {:induction false} ConcatPrefix(parts: seq<string>, k: nat)
    requires k <= |parts|
    ensures Concat(parts[..k]) <= Concat(parts)
    ensures k == |parts| ==> Concat(parts[..k]) == Concat(parts)
    decreases k
  {
    if k == |parts| {
      assert parts[..k] == parts;
    } else if k > 0 {
      ConcatPrefix(parts[1..], k - 1);
      assert parts[..k][1..] == parts[1..][..k - 1];
    }
  }

  /**
   Chunked and Content-Length together: the result is a prefix of the payload that is complete
   unless it has already reached the Content-Length.
   */
  lemma ChunkedWithLength(parse: string -> Headers, length: int, cs: seq<Chunk>, trailer: string, receives: seq<string>)
    requires ChunksOk(cs) && QuietChunks(cs) && length > 0
    requires Concat(receives) == Wire(cs, trailer)
    ensures var content := Content(ReceiveAll(parse, Chunks(length, START), receives));
            content <= Payload(cs) && (content == Payload(cs) || length <= |content|)
  {
    hide Wire, FeedAll, SizesRead, PastAll;
    var k := ChunksStopAtLength(parse, length, START, receives);
    var seen := receives[..k];
    ConcatPrefix(receives, k);
    QuietSizesRead(cs, seen);
    PrefixInStep(cs, trailer, seen);
    var d := FeedAll(START, seen);
    if k == |receives| {
      DecodesEveryFragmentation(cs, trailer, seen);
    } else if d.phase in {Done, Overrun} {
      DoneMeansOver(d, PastAll(InLead("", cs), seen), Payload(cs));
    }
  }

  lemma DoneMeansOver(d: Decoder, p: Position, total: string)
    requires PositionOk(p) && Agree(d, p, total)
    ensures d.phase != Overrun && (d.phase == Done ==> d.content == total)
  {
  }

  /** Byte by byte the reader stops as soon as it has `length` bytes. */
  lemma ByteByByteStops(parse: string -> Headers, length: int, receives: seq<string>)
    requires length > 0 && OneByteEach(receives)
    ensures |Content(ReceiveAll(parse, Chunks(length, START), receives))| <= length
  {
    hide FeedAll, Feed, ReceiveAll;
    var k := ChunksStopAtLength(parse, length, START, receives);
    if k > 0 {
      var before, last := FeedAll(START, receives[..k - 1]), receives[k - 1];
      assert receives[..k] == receives[..k - 1] + [last];
      FeedAllSnoc(START, receives[..k - 1], last);
      FeedGrows(before, last);
    } else {
      assert receives[..0] == [];
      FeedAllNothing(START);
    }
  }

  lemma FeedGrows(st: Decoder, s: string)
    requires ChunkCoding.Valid(st)
    ensures |Feed(st, s).content| <= |st.content| + |s|
  {
    RunGrows(st, s);
  }

  lemma FeedAllNothing(st: Decoder)
    requires ChunkCoding.Valid(st)
    ensures FeedAll(st, []) == st
  {
  }

  ghost predicate BothFramings(parse: string -> Headers, head: string, cs: seq<Chunk>, trailer: string) {
    && ChunksOk(cs) && QuietChunks(cs) && EndOfHeaders(head + Wire(cs, trailer)) == |head| > 0
    && parse(head).chunked && parse(head).contentLength > 0
  }

  /** The reader over a whole response is the reader over its body. */
  lemma BodyOf(parse: string -> Headers, head: string, cs: seq<Chunk>, trailer: string, receives: seq<string>)
      returns (body: seq<string>)
    requires BothFramings(parse, head, cs, trailer) && Concat(receives) == head + Wire(cs, trailer)
    ensures Concat(body) == Wire(cs, trailer) && (OneByteEach(receives) ==> OneByteEach(body))
    ensures ReceiveAll(parse, Heading(""), receives) ==
            ReceiveAll(parse, Chunks(parse(head).contentLength, START), body)
  {
    hide Wire, ReceiveAll, ScanFrom;
    var stream := Concat(receives);
    assert "" + stream == stream;
    body := SplitAtHeaders(parse, "", receives);
    assert stream[..|head|] == head && stream[|head|..] == Wire(cs, trailer);
  }

  /** A chunked response that comes byte by byte is cut to its Content-Length. */
  lemma ByteByByte(parse: string -> Headers, head: string, cs: seq<Chunk>, trailer: string)
    requires BothFramings(parse, head, cs, trailer) && parse(head).contentLength <= |Payload(cs)|
    ensures Content(ReceiveAll(parse, Heading(""), Singles(head + Wire(cs, trailer)))) ==
            Payload(cs)[..parse(head).contentLength]
  {
    hide Wire, ReceiveAll, EndOfHeaders, ChunksOk, QuietChunks;
    var length := parse(head).contentLength;
    var body := BodyOf(parse, head, cs, trailer, Singles(head + Wire(cs, trailer)));
    ChunkedWithLength(parse, length, cs, trailer, body);
    ByteByByteStops(parse, length, body);
  }

  ghost predicate EveryCuttingComplete(parse: string -> Headers, head: string, cs: seq<Chunk>, trailer: string)
    requires cs != []
  {
    forall receives :: Concat(receives) == head + Wire(cs, trailer) ==>
      Content(ReceiveAll(parse, Heading(""), receives)) == Payload(cs)
  }

  /** With a Content-Length every cutting yields the payload exactly when the payload is no longer than that. */
  lemma CompleteExactly(parse: string -> Headers, head: string, cs: seq<Chunk>, trailer: string)
    requires BothFramings(parse, head, cs, trailer)
    ensures EveryCuttingComplete(parse, head, cs, trailer) <==> |Payload(cs)| <= parse(head).contentLength
  {
    hide Wire, ReceiveAll, EndOfHeaders, QuietChunks;
    var length := parse(head).contentLength;
    if |Payload(cs)| <= length {
      forall receives | Concat(receives) == head + Wire(cs, trailer)
        ensures Content(ReceiveAll(parse, Heading(""), receives)) == Payload(cs)
      {
        var body := BodyOf(parse, head, cs, trailer, receives);
        ChunkedWithLength(parse, length, cs, trailer, body);
      }
    } else {
      ByteByByte(parse, head, cs, trailer);
      assert Concat(Singles(head + Wire(cs, trailer))) == head + Wire(cs, trailer);
    }
  }

  /** For instance: the chunk "ab" with Content-Length 1. */
  lemma OneByteOfTwo(parse: string -> Headers, head: string)
    requires var w := "2\r\nab\r\n0\r\n"; EndOfHeaders(head + w) == |head| > 0 && parse(head) == Headers(true, 1)
    ensures Content(ReceiveAll(parse, Heading(""), Singles(head + "2\r\nab\r\n0\r\n"))) == "a"
  {
    hide ReceiveAll, EndOfHeaders, Singles, ChunksOk, QuietChunks, Payload, Wire;
    var cs := [Chunk("2", "", "ab"), Chunk("0", "", "")];
    TwoBytes();
    ByteByByte(parse, head, cs, "");
  }

  lemma TwoBytes()
    ensures var cs := [Chunk("2", "", "ab"), Chunk("0", "", "")];
            ChunksOk(cs) && QuietChunks(cs) && Payload(cs) == "ab" && Wire(cs, "") == "2\r\nab\r\n0\r\n"
  {
    hide Wire;
    var c, z := Chunk("2", "", "ab"), Chunk("0", "", "");
    assert "2"[..0] == "" && "0"[..0] == "" && [c, z][1..] == [z] && [z][1..] == [];
    assert Payload([]) == "" && Payload([z]) == "" + Payload([]) && Payload([c, z]) == "ab" + Payload([z]);
    TwoByteWire();
  }

  lemma TwoByteWire()
    ensures Wire([Chunk("2", "", "ab"), Chunk("0", "", "")], "") == "2\r\nab\r\n0\r\n"
  {
    var c, z := Chunk("2", "", "ab"), Chunk("0", "", "");
    assert [c, z][1..] == [z] && [z][1..] == [];
    assert FromData([z], "") == "" + "" && Wire([z], "") == "0" + ("" + ("\r\n" + FromData([z], "")));
    assert FromData([c, z], "") == "ab" + ("\r\n" + Wire([z], ""));
  }
}
