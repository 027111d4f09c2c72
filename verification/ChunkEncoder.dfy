/**
 The chunked encoder of the test server (build_chunked_response in
 minihttptestserver.c).  `rand` stands for the successive results of rand().
 */
module ChunkEncoder {
  import opened ChunkCoding
  import opened HttpResponse

  function HexChar(d: nat): char
    requires d < 16
  {
    if d < 10 then ('0' as int + d) as char else ('a' as int + d - 10) as char
  }

  /** printf's %x. */
  function HexDigits(n: nat): string {
    if n < 16 then [HexChar(n)] else HexDigits(n / 16) + [HexChar(n % 16)]
  }

  lemma {:induction false} HexDigitsValue(n: nat)
    ensures AllHex(HexDigits(n)) && HexValue(HexDigits(n)) == n
    ensures n < 256 ==> 1 <= |HexDigits(n)| <= 2
  {
    var s := HexDigits(n);
    if n < 16 {
      assert s[..0] == "";
    } else {
      HexDigitsValue(n / 16);
      assert s[..|s| - 1] == HexDigits(n / 16);
    }
  }

  /** In lower case and without leading zeros. */
  lemma {:induction false} HexDigitsForm(n: nat)
    ensures HexDigits(n) != "" && forall i :: 0 <= i < |HexDigits(n)| ==> HexDigits(n)[i] in LOWER
    ensures n > 0 ==> HexDigits(n)[0] != '0'
  {
    assert forall d :: 0 <= d < 16 ==> HexChar(d) == LOWER[d];
    if n < 16 {
    } else {
      HexDigitsForm(n / 16);
    }
  }

  function Draw(r: nat, left: nat): nat {
    if r % 199 + 1 > left then left else r % 199 + 1
  }

  /** The chunks the server cuts `content` into, from the k-th random draw on. */
  function Chop(content: string, rand: nat -> nat, k: nat): seq<Chunk>
    decreases |content|
  {
    if content == "" then [Chunk("0", "", "")]
    else
      var n := Draw(rand(k), |content|);
      [Chunk(HexDigits(n), "", content[..n])] + Chop(content[n..], rand, k + 1)
  }

  lemma ConsChunk(c: Chunk, cs: seq<Chunk>)
    requires ChunkOk(c) && c.data != "" && c.ext == "" && ChunksOk(cs) && QuietChunks(cs)
    ensures ChunksOk([c] + cs) && QuietChunks([c] + cs) && Payload([c] + cs) == c.data + Payload(cs)
  {
    var all := [c] + cs;
    assert all[1..] == cs;
    assert forall i :: 1 <= i < |all| ==> all[i] == cs[i - 1];
  }

  lemma LastChunk()
    ensures var cs := [Chunk("0", "", "")];
            && ChunksOk(cs) && QuietChunks(cs) && Payload(cs) == ""
            && Wire(cs, "\r\n") == "0\r\n\r\n"
  {
    var cs := [Chunk("0", "", "")];
    assert "0"[..0] == "" && cs[1..] == [];
    assert FromData(cs, "\r\n") == "" + "\r\n";
  }

  /** The server's chunks are well formed and carry exactly the content. */
  lemma {:induction false} ChopIsWellFormed(content: string, rand: nat -> nat, k: nat)
    ensures ChunksOk(Chop(content, rand, k)) && QuietChunks(Chop(content, rand, k))
    ensures Payload(Chop(content, rand, k)) == content
    decreases |content|
  {
    hide ChunksOk, QuietChunks, Payload, HexDigits;
    if content == "" {
      LastChunk();
    } else {
      var n := Draw(rand(k), |content|);
      HexDigitsValue(n);
      ChopIsWellFormed(content[n..], rand, k + 1);
      ConsChunk(Chunk(HexDigits(n), "", content[..n]), Chop(content[n..], rand, k + 1));
      assert content[..n] + content[n..] == content;
    }
  }

  lemma ChopUnfold(content: string, rand: nat -> nat, k: nat)
    requires content != ""
    ensures var n := if rand(k) % 199 + 1 > |content| then |content| else rand(k) % 199 + 1;
            Chop(content, rand, k) == [Chunk(HexDigits(n), "", content[..n])] + Chop(content[n..], rand, k + 1)
  {
  }

  lemma ChopNothing(rand: nat -> nat, k: nat)
    ensures |Chop("", rand, k)| == 1
  {
  }

  /** Each chunk has the size drawn for it, the last one with data at most that. */
  lemma {:induction false} ChopDraws(content: string, rand: nat -> nat, k: nat, i: nat)
    requires i + 1 < |Chop(content, rand, k)|
    ensures 0 < |Chop(content, rand, k)[i].data| <= rand(k + i) % 199 + 1
    ensures i + 2 < |Chop(content, rand, k)| ==> |Chop(content, rand, k)[i].data| == rand(k + i) % 199 + 1
    decreases |content|
  {
    hide HexDigits, Chop;
    if content == "" {
      ChopNothing(rand, k);
    } else {
      var n := if rand(k) % 199 + 1 > |content| then |content| else rand(k) % 199 + 1;
      ChopUnfold(content, rand, k);
      if n == |content| {
        assert content[n..] == "";
        ChopNothing(rand, k + 1);
      }
      if i > 0 {
        ChopDraws(content[n..], rand, k + 1, i - 1);
        assert k + 1 + (i - 1) == k + i;
      }
    }
  }

  lemma WireChop(content: string, rand: nat -> nat, k: nat)
    requires content != ""
    ensures var n := Draw(rand(k), |content|);
            Wire(Chop(content, rand, k), "\r\n") ==
            HexDigits(n) + "\r\n" + content[..n] + "\r\n" + Wire(Chop(content[n..], rand, k + 1), "\r\n")
  {
    hide HexDigits;
    var n := Draw(rand(k), |content|);
    var more := Chop(content[n..], rand, k + 1);
    var cs := Chop(content, rand, k);
    assert cs[0] == Chunk(HexDigits(n), "", content[..n]) && cs[1..] == more && more != [];
    assert FromData(cs, "\r\n") == content[..n] + ("\r\n" + Wire(more, "\r\n"));
    Assoc(HexDigits(n), content[..n], Wire(more, "\r\n"));
  }

  lemma Assoc(b: string, c: string, d: string)
    ensures b + ("" + ("\r\n" + (c + ("\r\n" + d)))) == b + "\r\n" + c + "\r\n" + d
  {
  }

  /** The header lines the server sends. */
  function ServerLines(): seq<string> {
    ["HTTP/1.1 200 OK", "Content-Type: text/plain", "Transfer-Encoding: chunked"]
  }

  function ServerHead(): string { Lines(ServerLines(), "\r\n") + "\r\n" }

  /** The encoder loop: size line, bytes, line break; then the empty chunk. */
  method BuildChunkedResponse(content: string, rand: nat -> nat) returns (response: string)
    ensures response == ServerHead() + Wire(Chop(content, rand, 0), "\r\n")
  {
    hide Wire, HexDigits, ServerHead;
    response := ServerHead();
    var i, k := 0, 0;
    ghost var all := ServerHead() + Wire(Chop(content, rand, 0), "\r\n");
    assert content[0..] == content;
    while i < |content|
      invariant 0 <= i <= |content|
      invariant response + Wire(Chop(content[i..], rand, k), "\r\n") == all
    {
      var n := rand(k) % 199 + 1;
      if i + n > |content| {
        n := |content| - i;
      }
      WireChop(content[i..], rand, k);
      assert content[i..][..n] == content[i..i + n] && content[i..][n..] == content[i + n..];
      response := response + (HexDigits(n) + "\r\n" + content[i..i + n] + "\r\n");
      i, k := i + n, k + 1;
    }
    LastChunk();
    response := response + "0\r\n\r\n";
  }

  /**
   What the server means is what the client gets: whatever the content, the random chunk sizes
   and the cutting of the whole response into receives.
   */
  lemma ServerRoundTrip(parse: string -> Headers, content: string, rand: nat -> nat, receives: seq<string>)
    requires Concat(receives) == ServerHead() + Wire(Chop(content, rand, 0), "\r\n")
    requires parse(ServerHead()).chunked && parse(ServerHead()).contentLength <= 0
    ensures ReceiveAll(parse, Heading(""), receives) == Finished(content)
  {
    hide Wire, Lines, HeaderLines, EndOfHeaders;
    var cs := Chop(content, rand, 0);
    ServerLinesOk();
    ChopIsWellFormed(content, rand, 0);
    HeaderBlockEnds(ServerLines(), "\r\n", Wire(cs, "\r\n"));
    ChunkedResponse(parse, ServerHead(), cs, "\r\n", receives);
  }

  lemma ServerLinesOk()
    ensures HeaderLines(ServerLines())
  {
    hide NoLineBreak;
    PlainLines();
  }

  lemma PlainLines()
    ensures NoLineBreak("HTTP/1.1 200 OK") && NoLineBreak("Content-Type: text/plain")
            && NoLineBreak("Transfer-Encoding: chunked")
  {
  }
}
