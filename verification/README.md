# Verified models of Pebblecoin's support code

This project models five self-contained parts of Pebblecoin and of the miniupnpc library it ships,
and proves what they are for.  `dafny verify dfyconfig.toml` checks everything.

1. **HTTP body reader** (`ChunkCoding`, `ChunkEncoder`, `HttpResponse`, `HttpReader`).  The chunk
   decoder is a machine over characters, compared with the wire format through positions in a
   wire; the reader of miniupnpc is a class with the buffers of the C function, proved to be that
   machine.
2. **XML parser and its users** (`MiniXml`, `XmlPrinting`, `XmlTruncation`, `XmlParser`, `NameValues`,
   `Soap`, `PortListing`).  The parser's loops over a cursor refine a function on texts, and documents are
   printed and parsed.
3. **Address codec** (`Positional`, `IntUtil`, `Varint`, `Base58`, `Base58Codec`, `Address`).
4. **Intrusive lists** (`Links`, `LinkedList`, `TailQueue`, `CircularQueue`).  The pointer macros as
   methods on shared objects.
5. **Queue and cache** (`ConcurrentQueue`, `LruLog`, `LruCache`).  The queue is a protocol over thread
   steps; the cache is compared with a specification over its whole history.

`Common` holds what several parts use.

The main results:

- a chunked response whose extensions hold no hexadecimal digit (or follow 31 digits) yields its
  payload however it is cut (`HttpResponse.ChunkedResponse`,
  `ChunkCoding.DecodesEveryFragmentation`), so the test server's random encoder is undone
  (`ChunkEncoder.ServerRoundTrip`); a plain one yields min(c, length) bytes
  (`HttpResponse.PlainResponse`); the C function is this reader (`HttpReader.GetHttpResponse`);
- with extensions, the decoder stays in step exactly when its sizes are read
  (`ChunkCoding.InStepExactly`), at every loop head (`ChunkCoding.InsideReceive`,
  `HttpReader.ResponseReader.FeedChunks`);
- printed documents and trees parse to the events they mean (`XmlPrinting.ParsePrinted`,
  `XmlPrinting.ParsePrintedTree`, `XmlParser.ParseXml`), and a buffer that ends early yields a
  prefix of the events of any text (`XmlTruncation.Truncated`);
- a SOAP request is read back argument by argument (`Soap.WrittenRequestLookup`), a port listing
  mapping by mapping (`PortListing.ListingParsed`);
- base 58, varints and addresses round-trip in both directions, and exactly these inputs are
  accepted: `Base58.DecodesExactly`, `Varint.ReadsExactly` with `Varint.UnterminatedRead`,
  `Address.AcceptedExactly`, with the hash deciding in `Address.RightChecksumRead`;
- every legal run of the list macros is the run on sequences, in both directions of travel
  (`TailQueue.Replay`, `LinkedList.Replay`, `CircularQueue.Replay`);
- the queue keeps its order and never leaves a sleeper beside an item
  (`ConcurrentQueue.EveryInterleaving`, `ConcurrentQueue.RunIsFifo`, `ConcurrentQueue.NeverStuck`);
- the cache holds a key exactly when its history says so (`LruLog.HeldAfterRun`,
  `LruLog.HeldByOperations`, `LruCache.Replay`).

Text is a `string`, bytes are numbers below 256, and machine words are numbers with explicit
remainders.  A read at the end of an XML buffer yields NUL.  The hash of an address is any
function to 32 bytes, the parse of an HTTP header block any function of its text, and random
numbers any sequence.

Where the code differs from what one would expect, the model follows the code:

- a digit of a chunk extension that starts a receive is taken into the chunk size
  (`ChunkCoding.ExtensionCutLosesData`).  The decoder stays in step exactly when the sizes come out
  right all the same (`ChunkCoding.InStepExactly`), and keeps the digits sent exactly when no
  receive starts at such a digit (`ChunkCoding.DigitsKeptExactly`, for all cuttings
  `ChunkCoding.KeepsExactly`);
- a response that is chunked and has a Content-Length stops at the first receive that reaches the
  length (`HttpResponse.OneByteOfTwo`); no cutting loses anything exactly when the payload is no
  longer than that (`HttpResponse.CompleteExactly`);
- the header search may miss a blank line that follows other line breaks (`HttpResponse.ScanMisses`);
  it stops at the first one exactly when an even number of CR and LF characters stands directly
  before it (`HttpResponse.FoundExactly`);
- the character behind an attribute value without quotes is skipped, also when it is the > of the
  tag (`XmlPrinting.BareValueSwallows`);
- a CDATA section that ends the buffer is not reported (`XmlPrinting.CDataPrinted`);
- a SOAP request without arguments is read back as one record named after the action
  (`Soap.RequestParsed`);
- an element name selects the first entry of the port listing table it is a prefix of
  (`PortListing.ShortNameMatches`, exact condition in `PortListing.MatchExactly`);
- the margin of the SOAP writer does not keep long values inside its buffer, and its last copy may
  leave the text cut off (`Soap.LongValue`, `Soap.CutValue`, exact conditions in
  `Soap.OverflowsExactly` and `Soap.TruncatedExactly`);
- a varint that runs to the end of its input is accepted (`Varint.ReadMeans`), and so are addresses
  that consist of one (`Address.AcceptedTwice`, exact conditions in `Address.AcceptedExactly` and
  `Address.AddressConverse`);
- the comment in base58.cpp:147 that `order` never overflows is true of every value that is used:
  its value after the eleventh digit may wrap (`Base58Codec.OrderFits`).

## Model

| member | source | states |
|---|---|---|
| `ChunkCoding.WrappedValueIsModular` | external/miniupnpc/miniwget.c:202-208 | the size accumulated by shifts in 32 bits is the hexadecimal number modulo 2^32 |
| `ChunkCoding.DigitsAreWritten` | external/miniupnpc/miniwget.c:202-207 | a character is a digit of value d if and only if it is the d-th of 0123456789abcdef or of 0123456789ABCDEF |
| `ChunkCoding.CaseIsIrrelevant` | external/miniupnpc/miniwget.c:202-208 | a size in upper case denotes the same number |
| `ChunkCoding.RunData` | external/miniupnpc/miniwget.c:228-242 | copying a block of the current chunk at once equals consuming its bytes one by one |
| `ChunkCoding.StepAgrees` | external/miniupnpc/miniwget.c:180-243 | one character keeps decoder and wire in agreement (digits gathered, bytes owed, content copied) if and only if it does not end a line whose digits denote another size |
| `ChunkCoding.ResumeAgrees` | external/miniupnpc/miniwget.c:180-215 | the end of a receive keeps them in agreement, the wire position being one where the digit loop is entered again |
| `ChunkCoding.InStepExactly` | external/miniupnpc/miniwget.c:180-243 | for every prefix of every wire and every cutting: decoder and wire agree after every character if and only if at the end of every size line the digits gathered, computed from wire and cuts alone, denote the chunk's size modulo 2^32 |
| `ChunkCoding.DigitsKeptExactly` | external/miniupnpc/miniwget.c:190-198 | moreover the digit buffer holds the digits sent after every character if and only if no receive starts at a hexadecimal digit of an extension, or the buffer is full |
| `ChunkCoding.PrefixInStep` | external/miniupnpc/miniwget.c:180-243 | for every prefix of a wire cut so that its sizes are read: the content is a prefix of the payload, `owed` is what the chunk still lacks, the digit buffer holds the digits gathered |
| `ChunkCoding.InsideReceive` | external/miniupnpc/miniwget.c:180-243 | the same at every index inside a receive; with FeedChunks below, at every loop head |
| `ChunkCoding.DecodesWire` | external/miniupnpc/miniwget.c:177-244 | then the whole wire decodes to exactly the payload (section 4.1 of RFC 7230) |
| `ChunkCoding.MisreadStillDecodes` | external/miniupnpc/miniwget.c:190-242 | a wire and a cutting whose first size is misread and whose payload comes out all the same: reading the sizes is not necessary for the final content |
| `ChunkCoding.KeepsExactly` | external/miniupnpc/miniwget.c:190-198 | every cutting of a wire into non-empty receives keeps the digits sent if and only if each chunk has 31 digits or an extension without hexadecimal digits |
| `ChunkCoding.DecodesEveryFragmentation` | external/miniupnpc/miniwget.c:177-244 | on these wires (so whenever there are no extensions) every cutting decodes to the payload |
| `ChunkCoding.DecodesUncut` | external/miniupnpc/miniwget.c:177-244 | a wire that arrives in one receive decodes to its payload whatever its extensions |
| `ChunkCoding.ExtensionCuts` | external/miniupnpc/miniwget.c:190-198 | with the extension arriving in pieces, the digit buffer still holds the size sent if and only if no piece starts with a hexadecimal digit or the buffer is full |
| `ChunkCoding.ExtensionCutLosesData` | external/miniupnpc/miniwget.c:190-198 | a concrete wire that decodes when whole and not when cut inside its extension |
| `ChunkCoding.AnySizeLine` | external/miniupnpc/miniwget.c:185-228 | for every size line, behind a line break, half of one or none, with any extension (digits behind the 31st included), ended by CR LF or LF: the body ends iff the size is 0 modulo 2^32, that many bytes are owed iff the remainder is below 2^31, otherwise the signed comparison fails; the content is unchanged |
| `ChunkCoding.StrayCarriageReturn` | external/miniupnpc/miniwget.c:199-227 | a CR that no LF follows is as if a receive had ended there |
| `ChunkEncoder.HexDigitsValue` | external/miniupnpc/minihttptestserver.c:124-126 | the printed size is hexadecimal, of one or two digits for a chunk, and denotes the size |
| `ChunkEncoder.HexDigitsForm` | external/miniupnpc/minihttptestserver.c:124-126 | it is written in lower case and without leading zeros |
| `ChunkEncoder.ChopDraws` | external/miniupnpc/minihttptestserver.c:116-123 | every chunk has the size drawn for it, between 1 and 199, the last one with data at most that |
| `ChunkEncoder.ChopIsWellFormed` | external/miniupnpc/minihttptestserver.c:116-136 | for every content and all random draws the chunks are well formed and carry exactly the content |
| `ChunkEncoder.BuildChunkedResponse` | external/miniupnpc/minihttptestserver.c:97-142 | the encoder loop produces the header block and the wire of those chunks |
| `ChunkEncoder.ServerRoundTrip` | external/miniupnpc/minihttptestserver.c:97-178 | whatever the content, the random chunk sizes and the random cutting of the whole response, the client ends with exactly the content |
| `HttpResponse.ScanPrefix` | external/miniupnpc/miniwget.c:101-125 | a prefix of a stream reports the stream's own end of headers as soon as it contains it, and nothing before |
| `HttpResponse.ScanSound` | external/miniupnpc/miniwget.c:101-123 | what the search reports is the end of CR LF CR LF or LF LF |
| `HttpResponse.ScanFinds` | external/miniupnpc/miniwget.c:101-123 | a blank line that does not follow another line break character is never missed |
| `HttpResponse.FoundExactly` | external/miniupnpc/miniwget.c:101-123 | the search reports the end of the first blank line if and only if an even number of CR and LF characters stands directly before it |
| `HttpResponse.ScanMisses` | external/miniupnpc/miniwget.c:107-121 | two texts whose blank line follows one: the search steps over it |
| `HttpResponse.RemainderFits` | external/miniupnpc/miniwget.c:169-171 | the body bytes received together with the headers fit the receive buffer they are copied back to |
| `HttpResponse.HeaderBlockEnds` | external/miniupnpc/miniwget.c:101-123 | on a block of non-empty lines ended by an empty line, with CR LF or LF, the search stops exactly at its end, whatever follows |
| `HttpResponse.HeadersMissing` | external/miniupnpc/miniwget.c:104-125 | without an end of headers in the stream nothing is passed on and the content is empty, for every cutting |
| `HttpResponse.SplitAtHeaders` | external/miniupnpc/miniwget.c:95-125 | for every cutting, the headers parsed and the body bytes passed on are those of the concatenated stream |
| `HttpResponse.PlainBody` | external/miniupnpc/miniwget.c:248-274 | a plain body with Content-Length c > 0 keeps its first c bytes and finishes iff it has them; otherwise everything is kept |
| `HttpResponse.PlainResponse` | external/miniupnpc/miniwget.c:87-275 | a whole response with a plain body gives the same min(c, length) bytes for every cutting (section 3.3.3 of RFC 7230) |
| `HttpResponse.ChunksFollowDecoder` | external/miniupnpc/miniwget.c:177-275 | without a Content-Length the reader is the chunk decoder, receive by receive |
| `HttpResponse.ChunkedResponse` | external/miniupnpc/miniwget.c:87-275 | a whole response with a chunked body, cut anywhere from its first header byte on, gives exactly the payload |
| `HttpResponse.ChunksStopAtLength` | external/miniupnpc/miniwget.c:267-274 | with a Content-Length as well, the reader is the decoder up to the first receive that reaches it |
| `HttpResponse.ChunkedWithLength` | external/miniupnpc/miniwget.c:267-274 | then the content is a prefix of the payload, and all of it unless it has reached the Content-Length |
| `HttpResponse.ByteByByte` | external/miniupnpc/miniwget.c:267-274 | a chunked response that comes byte by byte is cut to its Content-Length |
| `HttpResponse.CompleteExactly` | external/miniupnpc/miniwget.c:267-274 | every cutting of the whole response yields the payload if and only if the payload is no longer than the Content-Length |
| `HttpResponse.OneByteOfTwo` | external/miniupnpc/miniwget.c:267-274 | the chunk ab with Content-Length 1, byte by byte, yields a |
| `HttpReader.ResponseReader.constructor` | external/miniupnpc/miniwget.c:62-85 | the initial buffers are consistent and stand for a reader that has seen nothing |
| `HttpReader.ResponseReader.Append` | external/miniupnpc/miniwget.c:229-240 | growing the buffer to Content-Length or to what is needed and copying appends exactly the piece; used never exceeds capacity |
| `HttpReader.ResponseReader.SizeFromDigits` | external/miniupnpc/miniwget.c:201-208 | the loop over the digit buffer computes the wrapped value of its digits |
| `HttpReader.ResponseReader.CollectDigits` | external/miniupnpc/miniwget.c:190-196 | the digit loop stays inside its 32 bytes and does what the decoder does with these characters |
| `HttpReader.SkipLineBreak` | external/miniupnpc/miniwget.c:185-189 | skipping a leading CR and LF is what the decoder does with them |
| `HttpReader.SkipExtension` | external/miniupnpc/miniwget.c:197-200 | discarding an extension and the line end is what the decoder does; tells whether the line is complete |
| `HttpReader.ResponseReader.ReadSize` | external/miniupnpc/miniwget.c:182-227 | a size line, complete or not, advances the index, and size and digit buffer are those of the decoder run over the characters used |
| `HttpReader.ResponseReader.CopyData` | external/miniupnpc/miniwget.c:228-242 | copying advances the index unless the receive is used up, and leaves content and owed bytes of the decoder run over the bytes copied; a size of 2^31 or more is told apart |
| `HttpReader.ResponseReader.FeedChunks` | external/miniupnpc/miniwget.c:179-243 | the chunk loop over one receive equals the decoder fed with it; at the loop heads, from index 0 to the end of the receive, the fields are those of the decoder fed with the characters before the index, and the index grows from head to head |
| `HttpReader.ResponseReader.TakeBody` | external/miniupnpc/miniwget.c:174-274 | the body part of a turn equals the reader function, chunked or plain, with the Content-Length cut-off |
| `HttpReader.ResponseReader.Receive` | external/miniupnpc/miniwget.c:87-275 | one turn of the receive loop equals the reader function |
| `HttpReader.FindEndOfHeaders` | external/miniupnpc/miniwget.c:103-123 | the header search loop computes the end of headers, 0 if there is none |
| `HttpReader.GetHttpResponse` | external/miniupnpc/miniwget.c:62-285 | the whole call returns the content of the run over all receives, nothing if it is empty |
| `XmlPrinting.AttListPrinted` | external/miniupnpc/minixml.c:39-106 | any list of quoted attributes is reported name by name and value by value |
| `XmlPrinting.SpacedAttribute` | external/miniupnpc/minixml.c:49-86 | white space around the = makes no difference |
| `XmlPrinting.BareValue` | external/miniupnpc/minixml.c:87-97 | a value without quotes ends before white space, / or >, and that character is skipped |
| `XmlPrinting.BareValueSwallows` | external/miniupnpc/minixml.c:87-105 | so the > behind such a value does not end its tag |
| `XmlPrinting.LocalNameOfQName` | external/miniupnpc/minixml.c:131-145 | the namespace prefix is dropped from the reported name |
| `XmlPrinting.LastColonCounts` | external/miniupnpc/minixml.c:131-145 | of several prefixes all are dropped, unless two colons stand side by side |
| `XmlPrinting.OpenPrinted` | external/miniupnpc/minixml.c:129-196 | an opening tag: start, attributes, and its text if it is not empty and a closing tag follows, white space kept |
| `XmlPrinting.CDataPrinted` | external/miniupnpc/minixml.c:158-184 | a CDATA section is reported as data, white space before it dropped; at the very end of the buffer it is not |
| `XmlPrinting.EmptyPrinted` | external/miniupnpc/minixml.c:146-152 | a self-closing element is reported as a start without an end |
| `XmlPrinting.ClosePrinted` | external/miniupnpc/minixml.c:198-212 | a closing tag is reported with its full name, prefix included |
| `XmlPrinting.CommentPrinted` | external/miniupnpc/minixml.c:116-128 | a comment is skipped |
| `XmlPrinting.InstructionPrinted` | external/miniupnpc/minixml.c:129-217 | a processing instruction is skipped |
| `XmlPrinting.NamelessTag` | external/miniupnpc/minixml.c:129-147 | a < that no name follows is skipped like text |
| `XmlPrinting.ParsePrinted` | external/miniupnpc/minixml.c:110-219 | for every clean document (tags, attributes, text, CDATA, comments, instructions) the events of its text are exactly the ones it means |
| `XmlPrinting.FlattenEvents` | external/miniupnpc/minixml.c:110-219 | the events of a tree's tokens are its recursive start/data/end traversal |
| `XmlPrinting.ParsePrintedTree` | external/miniupnpc/minixml.c:110-219 | printing any clean element tree and parsing it gives exactly its traversal |
| `XmlTruncation.Truncated` | external/miniupnpc/minixml.c:39-219 | for any text at all, well formed or not: the events of a buffer that ends early are a prefix of the events of the whole text |
| `XmlParser.Parser.ParseAttValue` | external/miniupnpc/minixml.c:65-97 | a quoted or bare value, or the end of the buffer, as the specification has it |
| `XmlParser.Parser.ParseOneAtt` | external/miniupnpc/minixml.c:49-102 | one attribute event, or the end of the buffer |
| `XmlParser.Parser.ParseAtt` | external/miniupnpc/minixml.c:39-106 | the attribute loop reports the specified list |
| `XmlParser.Parser.ParseName` | external/miniupnpc/minixml.c:131-145 | the name loop finds the end of the name and the start of its local part |
| `XmlParser.Parser.ParseCData` | external/miniupnpc/minixml.c:167-177 | the CDATA loop reports the specified data |
| `XmlParser.Parser.ParseCDataSection` | external/miniupnpc/minixml.c:164-184 | a CDATA section and what follows it |
| `XmlParser.Parser.ParseText` | external/miniupnpc/minixml.c:187-194 | the text loop reports the specified data |
| `XmlParser.Parser.ParseElementData` | external/miniupnpc/minixml.c:154-195 | what follows an opening tag |
| `XmlParser.Parser.ParseStartTag` | external/miniupnpc/minixml.c:150-196 | an opening tag after its name |
| `XmlParser.Parser.ParseEndTag` | external/miniupnpc/minixml.c:198-212 | a closing tag |
| `XmlParser.Parser.ParseTag` | external/miniupnpc/minixml.c:129-213 | a whole tag |
| `XmlParser.Parser.SkipComment` | external/miniupnpc/minixml.c:116-128 | the comment loop stops where the specification does |
| `XmlParser.Parser.ParseStep` | external/miniupnpc/minixml.c:116-217 | one turn of the main loop |
| `XmlParser.Parser.ParseElt` | external/miniupnpc/minixml.c:110-219 | the main loop reports exactly the specified events of the rest of the buffer |
| `XmlParser.ParseXml` | external/miniupnpc/minixml.c:222-227 | the parser with its cursor refines the function on texts |
| `NameValues.ParserData.Start` | external/miniupnpc/upnpreplyparse.c:15-26 | a start sets the current element, cut to 63 |
| `NameValues.ParserData.End` | external/miniupnpc/upnpreplyparse.c:28-61 | an end adds a record with the data cut to 127, once per start, except for the port listing |
| `NameValues.ParserData.GetData` | external/miniupnpc/upnpreplyparse.c:63-86 | data is remembered, or kept whole as the port listing |
| `NameValues.ParserData.Parse` | external/miniupnpc/upnpreplyparse.c:88-105 | the records are those of the run over the document's events, from an empty list and arbitrary other fields |
| `NameValues.ParserData.GetValue` | external/miniupnpc/upnpreplyparse.c:124-138 | the loop finds the first record of that name |
| `NameValues.ElementEffect` | external/miniupnpc/upnpreplyparse.c:15-86 | an element, whatever came before: one record in front, its name cut to 63 and its last text cut to 127, or the port listing and no record; a second end does nothing |
| `Soap.RequestIsDocument` | external/miniupnpc/miniupnpc.c:163-206 | the text of a request is the printed envelope, action and arguments |
| `Soap.RequestParsed` | external/miniupnpc/miniupnpc.c:163-206 | for every clean argument list, empty or not, and any initial structure: the records are the arguments backwards, and the port listing is the last non-empty one |
| `Soap.EntriesBackwards` | external/miniupnpc/upnpreplyparse.c:28-61 | one record for every argument, last argument first, name and value cut to 63 and 127 |
| `Soap.ListingEntry` | external/miniupnpc/upnpreplyparse.c:28-61 | an argument leaves no record if and only if it is the port listing |
| `Soap.ListingIsLast` | external/miniupnpc/upnpreplyparse.c:63-86 | the port listing is the last non-empty one given, whole, and the earlier one if none is given |
| `Soap.LookupIsLast` | external/miniupnpc/upnpreplyparse.c:124-138 | a lookup in the records finds the last argument of that name, cut to 127, and nothing if and only if there is none |
| `Soap.FitsExactly` | external/miniupnpc/miniupnpc.c:171-206 | a request is written if and only if it fits 2048 bytes with its terminator and every argument starts more than 100 before the end |
| `Soap.OverflowsExactly` | external/miniupnpc/miniupnpc.c:171-203 | it is written past its buffer if and only if an argument that starts before the margin ends behind the buffer, or all start before the margin and the name of the action ends behind it |
| `Soap.TruncatedExactly` | external/miniupnpc/miniupnpc.c:198-206 | it is cut off at the end of the buffer, without a terminator, if and only if all arguments start before the margin and the buffer ends in the part that strncpy copies |
| `Soap.RefusedExactly` | external/miniupnpc/miniupnpc.c:171-178 | it is refused if and only if some argument starts behind the margin and none runs over |
| `Soap.LongValue` | external/miniupnpc/miniupnpc.c:171-196 | one value as long as the buffer is written past it, although the margin test passes |
| `Soap.CutValue` | external/miniupnpc/miniupnpc.c:198-206 | one value that brings the name of the action to the end of the buffer: the text is cut off |
| `Soap.CopyBounded` | external/miniupnpc/miniupnpc.c:205-206 | strncpy fills the rest of the buffer with the text and NULs, or with what it has room for |
| `Soap.WriteArg` | external/miniupnpc/miniupnpc.c:178-196 | one argument is appended, opening tag, value if there is one, closing tag |
| `Soap.WriteArgs` | external/miniupnpc/miniupnpc.c:171-198 | the argument loop appends all arguments, or stops as the margin or the buffer demands |
| `Soap.WriteRequest` | external/miniupnpc/miniupnpc.c:156-206 | the fate of the request, computed from the lengths alone; the buffer holds the text and a terminator if it fits, and its first 2048 characters if it is cut off |
| `Soap.WrittenRequestParsed` | external/miniupnpc/miniupnpc.c:163-206 | what the writer produces, the reply parser reads back as the arguments |
| `Soap.WrittenRequestLookup` | external/miniupnpc/upnpreplyparse.c:88-138 | looking up a name after the round trip finds the first 127 characters of the last value given for it, and nothing if and only if none is; the port listing is the last one given |
| `PortListing.AtouiOf` | external/miniupnpc/portlistingparse.c:29-44 | the loop accumulates the leading decimal digits in 64 bits |
| `PortListing.AtouiExactly` | external/miniupnpc/portlistingparse.c:29-44 | the number at the front of any text is the decimal value of its digits modulo 2^64, whatever follows them |
| `PortListing.ParserData.Start` | external/miniupnpc/portlistingparse.c:46-67 | the first table entry the name is a prefix of; an entry adds a blank record in front |
| `PortListing.ParserData.GetData` | external/miniupnpc/portlistingparse.c:79-125 | the data goes to the field of the current element, cut to its size |
| `PortListing.ParserData.Parse` | external/miniupnpc/portlistingparse.c:128-147 | the list is that of the run over the document's events |
| `PortListing.AtouiDecimal` | external/miniupnpc/portlistingparse.c:29-44 | a printed number is read back modulo 2^64 |
| `PortListing.TableIsPrefixFree` | external/miniupnpc/portlistingparse.c:13-27 | no later table entry is a prefix of an earlier one |
| `PortListing.MatchExactly` | external/miniupnpc/portlistingparse.c:52-60 | a name selects table entry k if and only if k is the first entry it is a prefix of |
| `PortListing.MatchNothing` | external/miniupnpc/portlistingparse.c:52-60 | it selects none if and only if it is a prefix of none |
| `PortListing.ShortNameMatches` | external/miniupnpc/portlistingparse.c:52-60 | the name New selects the remote host |
| `PortListing.FieldsMatch` | external/miniupnpc/portlistingparse.c:52-60 | each documented field name selects its own entry |
| `PortListing.ListingParsed` | external/miniupnpc/portlistingparse.c:128-147 | printing any list of mappings in the documented format, with a text of its own after every tag, and parsing it gives the list backwards: ports modulo 2^16, the enabled flag modulo 2^8, the lease time modulo 2^64, strings cut to 63, the protocol to 3 |
| `PortListing.OneEntry` | external/miniupnpc/portlistingparse.h:24-35 | the events of one documented entry add exactly its record, every field in its place |
| `IntUtil.Combine` | src/common/int-util.h:59-66 | the partial products with both carries add up exactly, and the high product is at most the high word |
| `IntUtil.Mul128` | src/common/int-util.h:45-69 | the exact 128-bit product |
| `IntUtil.DivWithRemainder` | src/common/int-util.h:71-75 | quotient and remainder of the dividend with the old remainder or-ed above it; for a dividend of one digit one step of long division, with a quotient of one digit if the remainder was below the divisor |
| `IntUtil.OrBits` | src/common/int-util.h:71-75 | a bit of the bitwise or is set if and only if it is set in one of the operands |
| `IntUtil.Div128By32` | src/common/int-util.h:77-93 | dividend == quotient * divisor + remainder with remainder < divisor, for every non-zero divisor |
| `IntUtil.DivideProduct` | src/common/int-util.h:45-93 | dividing the product of a and d by d gives a and remainder 0 |
| `IntUtil.Swap64Reverses` | src/common/int-util.h:102-109 | SWAP64 is the number whose bytes are reversed |
| `IntUtil.SwappedMemory` | src/common/int-util.h:102-109 | in memory the swapped number shows the bytes most significant first |
| `IntUtil.SwapTwice` | src/common/int-util.h:102-109 | swapping twice is the identity |
| `IntUtil.SwappedByte` | src/common/int-util.h:102-109 | the i-th byte from below of the swapped number is the i-th from above |
| `Varint.WriteVarint` | src/common/varint.h:17-23 | the loop writes the encoding, with the byte cast and the continuation bit |
| `Varint.EncodeMeans` | src/common/varint.h:17-23 | the groups of seven bits of an encoding stand for its number, lowest first; the top bit is set on all bytes but the last, and the last is not superfluous |
| `Varint.ReadVarint` | src/common/varint.h:35-56 | the loop returns count and value, -1 for overflow, -2 for a superfluous zero, never shifts out of its word and looks at no more than max(1, ceil(bits / 7)) bytes |
| `Varint.RoundTrip` | src/common/varint.h:17-56 | for every number of bits and every value that fits, followed by any bytes: the value and its length are read back |
| `Varint.ReadMeans` | src/common/varint.h:35-56 | a read that ends on a terminator consumed exactly the encoding of its value; any other consumed the whole input, all continuation bytes |
| `Varint.ReadIsSeptets` | src/common/varint.h:35-56 | the value read is the number the consumed bytes stand for, terminated or not |
| `Varint.OutcomeExactly` | src/common/varint.h:38-54 | continuation bytes and a terminator: overflow, superfluous zero or success, decided by their count, the terminator and the number of bits alone |
| `Varint.ReadsExactly` | src/common/varint.h:35-56 | a read ends on the terminator at k if and only if the first k bytes are the encoding of a value that fits |
| `Varint.ReadIsShort` | src/common/varint.h:38-54 | whatever the bytes and however the read ends, it looks at no more than max(1, ceil(bits / 7)) of them, and bytes beyond make no difference |
| `Varint.UnterminatedRead` | src/common/varint.h:38-54 | k bytes without a terminator are accepted if and only if 7 * k is below the number of bits |
| `Base58.LettersAndDigits` | src/common/base58.cpp:29-46 | letters and digits determine each other; every other character has digit -1 |
| `Base58.SizeTables` | src/common/base58.cpp:56-71 | the two size tables are inverse to each other |
| `Base58.Capacity` | src/common/base58.cpp:24-26 | 256^s <= 58^e for every block size s and its encoded size e, and e is the least such size |
| `Base58.BlockMeans` | src/common/base58.cpp:110-123 | a block and its letters are the same number, in base 256 and in base 58, most significant first |
| `Base58.EncodeSplits` | src/common/base58.cpp:159-180 | blocks of eight bytes are encoded on their own |
| `Base58.EncodeLength` | src/common/base58.cpp:159-166 | eleven letters for eight bytes, and the table's number for the rest |
| `Base58.BlockRoundTrip` | src/common/base58.cpp:110-156 | every block of 1 to 8 bytes is decoded back |
| `Base58.BlockConverse` | src/common/base58.cpp:110-156 | every accepted block is the encoding of what it decodes to |
| `Base58.RoundTrip` | src/common/base58.cpp:159-212 | decode(encode(d)) == d for every byte string |
| `Base58.Converse` | src/common/base58.cpp:159-212 | every accepted text is the encoding of its result: one spelling per byte string |
| `Base58.AcceptedAreEncodings` | src/common/base58.cpp:159-212 | the accepted texts are exactly the encodings |
| `Base58.DecodesExactly` | src/common/base58.cpp:182-212 | decoding succeeds if and only if the length mod 11 is an encodable size, every letter is known and every block's number fits its bytes |
| `Base58Codec.ReverseAlphabet.constructor` | src/common/base58.cpp:31-40 | the loop fills the table with every letter's digit and -1 elsewhere |
| `Base58Codec.ReverseAlphabet.Digit` | src/common/base58.cpp:42-46 | the table lookup gives the digit of any character, also below '1' |
| `Base58Codec.DecodedBlockSizes.constructor` | src/common/base58.cpp:58-65 | the loop fills the inverse size table |
| `Base58Codec.DecodedBlockSizes.Size` | src/common/base58.cpp:67-71 | the lookup gives the decoded size or -1 |
| `Base58Codec.Uint8beTo64` | src/common/base58.cpp:81-100 | the fall-through switch computes the big-endian value |
| `Base58Codec.Uint64To8be` | src/common/base58.cpp:102-108 | the last bytes of the swapped number in memory are the low bytes, big-endian |
| `Base58Codec.EncodeBlockInto` | src/common/base58.cpp:110-123 | digits written from the back into a buffer of '1's give the encoded block, and nothing else changes |
| `Base58Codec.WrapDetects` | src/common/base58.cpp:141-147 | the test on the wrapped sum and the high word is exactly overflow of 64 bits |
| `Base58Codec.OrderFits` | src/common/base58.cpp:134-147 | every power of 58 that is multiplied by a digit fits 64 bits |
| `Base58Codec.TooLarge` | src/common/base58.cpp:141-151 | once a suffix leaves 64 bits the whole block cannot be decoded |
| `Base58Codec.BlockValue` | src/common/base58.cpp:133-148 | the digit loop computes the block's number, or stops exactly on blocks that cannot be decoded |
| `Base58Codec.DecodeBlockInto` | src/common/base58.cpp:125-156 | the block's bytes, or false and nothing written |
| `Base58Codec.EncodeFullBlocks` | src/common/base58.cpp:168-172 | the loop over the full blocks leaves the encoding of what they hold, and '1's behind it |
| `Base58Codec.EncodeText` | src/common/base58.cpp:159-180 | encode with its in-place buffer computes the encoding |
| `Base58Codec.DecodeText` | src/common/base58.cpp:182-212 | decode with its in-place buffer computes the decoding, including every refusal |
| `Address.EncodeAddress` | src/common/base58.cpp:214-222 | the buffer steps of encode_addr compose as specified |
| `Address.DecodeAddress` | src/common/base58.cpp:224-244 | the buffer steps of decode_addr compose as specified, including every refusal |
| `Address.AddressRoundTrip` | src/common/base58.cpp:214-244 | every 64-bit tag and every data come back, for every hash |
| `Address.AddressHolds` | src/common/base58.cpp:214-222 | an address holds the tag, the data and the first four bytes of the hash of both |
| `Address.WrongChecksumRefused` | src/common/base58.cpp:224-236 | bytes that do not end in the first four of the hash of the others are refused, and so are four alone |
| `Address.RightChecksumRead` | src/common/base58.cpp:224-244 | with a payload, they are accepted if and only if they do and the payload starts with a varint |
| `Address.AddressConverse` | src/common/base58.cpp:224-244 | an accepted address is the encoding of its result if and only if its payload is not made of continuation bytes only |
| `Address.AcceptedExactly` | src/common/base58.cpp:224-244 | an address is accepted if and only if it is an encoding, or its payload is one to nine continuation bytes |
| `Address.AcceptedTwice` | src/common/varint.h:39-41 | for every hash an address that is accepted although it is not the encoding of its result |
| `LruLog.TouchHeld` | src/common/lru_cache.h:57-58 | moving a held key to the front changes only the order |
| `LruLog.TouchNew` | src/common/lru_cache.h:41-49 | a new key in front pushes out the last one if there is no room |
| `LruLog.PutKeys` | src/common/lru_cache.h:34-50 | forget, push in front, evict: exactly the first N keys of the new order |
| `LruLog.BeforeIsSince` | src/common/lru_cache.h:34-60 | the keys in front of k are exactly those touched since k was |
| `LruLog.HeldExactly` | src/common/lru_cache.h:62-64 | a key is held if and only if it was touched and fewer than N other keys were touched since, N = 0 included |
| `LruLog.HeldAfterRun` | src/common/lru_cache.h:34-69 | after every run of put, get and clear: a key is held if and only if it was put and fewer than N other keys were touched since its last touch |
| `LruLog.ValueByOperations` | src/common/lru_cache.h:34-69 | the value of a key is v if and only if its last put since the last clear put v, told from the operations alone |
| `LruLog.HeldByOperations` | src/common/lru_cache.h:34-69 | a key is held if and only if fewer than N keys were touched since its last touch, told from the operations alone |
| `LruCache.Cache.constructor` | src/common/lru_cache.h:30-32 | an empty cache agrees with an empty history |
| `LruCache.Cache.Clear` | src/common/lru_cache.h:66-69 | list, index and history are empty |
| `LruCache.Cache.Put` | src/common/lru_cache.h:34-50 | key and value stand in front, unless there is no room at all; list and index agree with the history extended by the put |
| `LruCache.Cache.Get` | src/common/lru_cache.h:52-60 | hands out the entry of a held key, with the last value put, and moves it to the front; otherwise the error, and nothing changes |
| `LruCache.Cache.Exists` | src/common/lru_cache.h:62-64 | true exactly for the keys the history calls for |
| `LruCache.Cache.Size` | src/common/lru_cache.h:71-73 | the number of keys held, at most N |
| `LruCache.Replay` | src/common/lru_cache.h:30-73 | every run on a fresh cache ends valid (keys distinct, index and list in agreement, values the last put) with the history it made |
| `ConcurrentQueue.StepKeeps` | src/common/concurrent_queue.h:19-56 | every step of every thread keeps FIFO order and the wake-up invariant |
| `ConcurrentQueue.EveryInterleaving` | src/common/concurrent_queue.h:19-56 | in every reachable state of every interleaving: pushed == popped + queue, and while anyone sleeps, queued items <= pushers yet to notify + awake waiters yet to check |
| `ConcurrentQueue.RunIsFifo` | src/common/concurrent_queue.h:19-56 | after every run: popped are the first values of the push calls, one for each try_pop or check that found something, and queued are the others, in the order pushed |
| `ConcurrentQueue.CallsBalance` | src/common/concurrent_queue.h:19-56 | after every run, the threads inside push and wait_and_pop are as many as these calls began and have not ended |
| `ConcurrentQueue.InternalWorks` | src/common/concurrent_queue.h:46-56 | each step inside a call already made uses up work |
| `ConcurrentQueue.InternalEnabled` | src/common/concurrent_queue.h:19-56 | as long as there is work, some such step can be taken |
| `ConcurrentQueue.NeverStuck` | src/common/concurrent_queue.h:19-56 | every way of finishing the calls under way is bounded, and in the end no thread sleeps beside a queued item |
| `Links.Inserted` | external/miniupnpc/bsdqueue.h:205-225 | four redirected pointers make exactly an insertion, for all three list kinds |
| `Links.Removed` | external/miniupnpc/bsdqueue.h:227-234 | two redirected pointers make exactly a removal |
| `Links.Replaced` | external/miniupnpc/bsdqueue.h:236-244 | four redirected pointers make exactly a replacement |
| `TailQueue.InsertHead` | external/miniupnpc/bsdqueue.h:357-365 | the element comes first |
| `TailQueue.InsertTail` | external/miniupnpc/bsdqueue.h:367-372 | the element comes last |
| `TailQueue.InsertAfter` | external/miniupnpc/bsdqueue.h:374-382 | the element follows the given one |
| `TailQueue.InsertBefore` | external/miniupnpc/bsdqueue.h:384-389 | the element precedes the given one, without the head |
| `TailQueue.Remove` | external/miniupnpc/bsdqueue.h:391-400 | the element is gone, all others keep their order |
| `TailQueue.Replace` | external/miniupnpc/bsdqueue.h:402-412 | the element's place is taken by the other one |
| `TailQueue.Forward` | external/miniupnpc/bsdqueue.h:339-342 | the walk visits the sequence |
| `TailQueue.Last` | external/miniupnpc/bsdqueue.h:331-332 | two steps back and one forward lead to the last element, null if there is none |
| `TailQueue.Prev` | external/miniupnpc/bsdqueue.h:334-335 | likewise to the predecessor, null before the first |
| `TailQueue.Backward` | external/miniupnpc/bsdqueue.h:344-347 | the backward walk visits the reverse |
| `TailQueue.Replay` | external/miniupnpc/bsdqueue.h:331-412 | any legal run from an empty queue: the forward walk gives the sequence, the backward walk its reverse |
| `LinkedList.InsertAfter` | external/miniupnpc/bsdqueue.h:205-211 | the element follows the given one |
| `LinkedList.InsertBefore` | external/miniupnpc/bsdqueue.h:213-218 | the element precedes the given one |
| `LinkedList.InsertHead` | external/miniupnpc/bsdqueue.h:220-225 | the element comes first |
| `LinkedList.Remove` | external/miniupnpc/bsdqueue.h:227-234 | the element is gone, all others keep their order |
| `LinkedList.Replace` | external/miniupnpc/bsdqueue.h:236-244 | the element's place is taken by the other one |
| `LinkedList.Forward` | external/miniupnpc/bsdqueue.h:193-196 | the walk visits the sequence |
| `LinkedList.Replay` | external/miniupnpc/bsdqueue.h:188-244 | any legal run from an empty list: the walk gives the sequence |
| `CircularQueue.InsertAfter` | external/miniupnpc/bsdqueue.h:461-469 | the element follows the given one |
| `CircularQueue.InsertBefore` | external/miniupnpc/bsdqueue.h:471-479 | the element precedes the given one |
| `CircularQueue.InsertHead` | external/miniupnpc/bsdqueue.h:481-489 | the element comes first |
| `CircularQueue.InsertTail` | external/miniupnpc/bsdqueue.h:491-499 | the element comes last |
| `CircularQueue.Remove` | external/miniupnpc/bsdqueue.h:501-514 | the element is gone, all others keep their order |
| `CircularQueue.Forward` | external/miniupnpc/bsdqueue.h:443-446 | the walk visits the sequence |
| `CircularQueue.Backward` | external/miniupnpc/bsdqueue.h:448-451 | the backward walk visits the reverse |
| `CircularQueue.Replay` | external/miniupnpc/bsdqueue.h:435-514 | any legal run from an empty circle: both walks give the sequence and its reverse |

## Left out

- Sockets, timeouts and discovery: a receive is any non-empty piece of at most 2048 bytes of the stream.
- HTTP header names and values (miniwget.c:126-168): whether a body is chunked and its Content-Length are inputs, as functions of the header block.  An empty Content-Length on the last header line is outside this: its number (miniwget.c:148) is then read behind the block, from as much of the body as has arrived.
- Failing allocations, and contents of 2^31 bytes or more, for which the code's casts to int would matter.
- ChunkCoding.DecodesWire: no converse on the final content alone, because MisreadStillDecodes refutes it; the equivalence is on agreement after every character (InStepExactly).
- ChunkCoding.AnySizeLine: what the copy does with a size of 2^31 or more is not modelled beyond its being told apart.
- ChunkEncoder.BuildChunkedResponse: the fixed size of the response buffer, which the code itself leaves unchecked, is not modelled; the content is an input.
- The random fragmenter send_response is not a member: the theorems hold for every cutting.
- XmlParser.Parser.ParseElementData: look-aheads compare within the buffer, where memcmp may read behind its end.
- Entities, character sets and well-formedness checks: the parser has none.
- NameValues.ParserData.GetData: keeps a copy of the data, where the source keeps a pointer into the buffer.
- NameValues and PortListing records are sequences; the list macros they use are verified separately.
- Soap.WriteRequest: what the memory holds after a write past the buffer is not modelled.
- The branch for no argument structure (miniupnpc.c:144-155) is one snprintf: the same text as for an empty list where that fits, and otherwise cut to 2047 characters and a terminator.
- Sending the request and reading the reply (miniupnpc.c:207 on).
- PortListing.ListingParsed: numbers have up to 63 digits, because the callback cuts longer text before it reads it; AtouiExactly says what it then reads.
- PortListing: lease times are taken as 64 bits wide, as on the usual 64-bit systems.
- Base58Codec.DecodeText: what the output holds after a refusal is not modelled.
- The functions swap32, swap64 and mem_inplace_* and the rotations of int-util.h would only add easier members.
- cn_fast_hash: any function; nothing is claimed about collisions.
- ConcurrentQueue: critical sections are single steps and no fairness is assumed; empty() is left out.
- SLIST and SIMPLEQ have the same shape with fewer pointers; CIRCLEQ_REPLACE does not compile where a head pointer is passed as the other macros want it.
- LinkedList.Remove, TailQueue.Remove, CircularQueue.Remove: the debugging macro _Q_INVALIDATE is taken as empty, its default.
- The SQLite-backed map, option parsing, the network plumbing and the rest of the wallet and node.
