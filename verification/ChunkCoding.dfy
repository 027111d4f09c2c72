/**
 The chunked-body decoder inside getHTTPResponse (miniwget.c) as a machine that
 consumes one character at a time, together with the chunked wire format of
 section 4.1 of RFC 7230.

 The C loop works receive by receive: whenever a receive ends in the middle of a
 size line it forgets where in the line it was and keeps only the digits seen so
 far.  `Step` is what one character does; `Resume` is what the end of a receive
 (and an unfinished line end) does.
 */
module ChunkCoding {
  import opened Common
  import Positional

  /** Digits of a size line the 32 byte buffer can hold beside its terminator. */
  const MAX_DIGITS: nat := 31
  const TWO_31: nat := TWO_32 / 2

  // ---------------------------------------------------------------- decoder

  /** Where the decoder stands inside a size line, or that it copies data. */
  datatype Phase =
    | SkipCR     // no digit yet: a leading CR may be skipped
    | SkipLF     // no digit yet: a leading LF may be skipped
    | Digits     // collecting digits
    | Extension  // discarding up to the end of the line
    | LineFeed   // CR seen, LF expected
    | Data       // `owed` bytes of the chunk still to copy
    | Done       // the zero chunk was read
    | Overrun    // a size with the top bit set made the copy leave the buffer

  datatype Decoder = Decoder(phase: Phase, digits: string, owed: nat, content: string)

  const START := Decoder(SkipCR, "", 0, "")

  predicate IsHexDigit(c: char) {
    '0' <= c <= '9' || 'a' <= c <= 'f' || 'A' <= c <= 'F'
  }

  function DigitValue(c: char): (v: nat)
    requires IsHexDigit(c)
    ensures v < 16
  {
    if '0' <= c <= '9' then c as int - '0' as int
    else if 'a' <= c <= 'f' then c as int - 'a' as int + 10
    else c as int - 'A' as int + 10
  }

  const LOWER := "0123456789abcdef"
  const UPPER := "0123456789ABCDEF"

  /** A character is a digit of value d exactly when it is the one written so, in either case. */
  lemma DigitsAreWritten(c: char, d: nat)
    requires d < 16
    ensures IsHexDigit(c) && DigitValue(c) == d <==> c == LOWER[d] || c == UPPER[d]
  {
    assert forall k :: 0 <= k < 16 ==> LOWER[k] == (if k < 10 then '0' as int + k else 'a' as int + k - 10) as char;
    assert forall k :: 0 <= k < 16 ==> UPPER[k] == (if k < 10 then '0' as int + k else 'A' as int + k - 10) as char;
  }

  function UpperCase(s: string): (r: string)
    ensures |r| == |s|
  {
    seq(|s|, i requires 0 <= i < |s| =>
      if 'a' <= s[i] <= 'z' then (s[i] as int - 'a' as int + 'A' as int) as char else s[i])
  }

  predicate AllHex(s: string) {
    forall i :: 0 <= i < |s| ==> IsHexDigit(s[i])
  }

  /** The number a digit string denotes. */
  function HexValue(s: string): nat
    requires AllHex(s)
  {
    if s == "" then 0 else 16 * HexValue(s[..|s| - 1]) + DigitValue(s[|s| - 1])
  }

  /** A size may be written in either case. */
  lemma {:induction false} CaseIsIrrelevant(s: string)
    requires AllHex(s)
    ensures AllHex(UpperCase(s)) && HexValue(UpperCase(s)) == HexValue(s)
  {
    var u := UpperCase(s);
    if s == "" {
    } else {
      var n := |s| - 1;
      CaseIsIrrelevant(s[..n]);
      assert u[..n] == UpperCase(s[..n]);
      DigitsAreWritten(s[n], DigitValue(s[n]));
      DigitsAreWritten(u[n], DigitValue(s[n]));
    }
  }

  /** The C accumulation: shift left by four in 32 bit unsigned arithmetic. */
  function WrappedValue(s: string): (v: nat)
    requires AllHex(s)
    ensures v < TWO_32
  {
    if s == "" then 0 else (WrappedValue(s[..|s| - 1]) * 16 % TWO_32 + DigitValue(s[|s| - 1])) % TWO_32
  }

  lemma ModularShift(a: nat, d: nat)
    requires d < 16
    ensures (a % TWO_32 * 16 % TWO_32 + d) % TWO_32 == (16 * a + d) % TWO_32
  {
    var q, r := a / TWO_32, a % TWO_32;
    var q', r' := r * 16 / TWO_32, r * 16 % TWO_32;
    Positional.ModShift(16 * q + q', TWO_32, r' + d);
    assert 16 * a + d == (16 * q + q') * TWO_32 + (r' + d);
  }

  lemma {:induction false} WrappedValueIsModular(s: string)
    requires AllHex(s)
    ensures WrappedValue(s) == HexValue(s) % TWO_32
  {
    if s == "" {
    } else {
      WrappedValueIsModular(s[..|s| - 1]);
      ModularShift(HexValue(s[..|s| - 1]), DigitValue(s[|s| - 1]));
    }
  }

  ghost predicate Valid(st: Decoder) {
    && AllHex(st.digits) && |st.digits| <= MAX_DIGITS
    && (st.phase in {SkipCR, SkipLF, Data, Done, Overrun} ==> st.digits == "")
    && (st.phase == Data ==> 0 < st.owed < TWO_31)
    && (st.phase != Data ==> st.owed == 0)
  }

  function FinishLine(st: Decoder): Decoder
    requires AllHex(st.digits)
  {
    var size := WrappedValue(st.digits);
    if size == 0 then Decoder(Done, "", 0, st.content)
    else if size < TWO_31 then Decoder(Data, "", size, st.content)
    else Decoder(Overrun, "", 0, st.content)
  }

  function OnExtension(st: Decoder, c: char): Decoder
    requires AllHex(st.digits)
  {
    if c == '\r' then st.(phase := LineFeed)
    else if c == '\n' then FinishLine(st)
    else st.(phase := Extension)
  }

  function OnDigits(st: Decoder, c: char): Decoder
    requires AllHex(st.digits)
  {
    if IsHexDigit(c) && |st.digits| < MAX_DIGITS
    then st.(phase := Digits, digits := st.digits + [c])
    else OnExtension(st, c)
  }

  function OnSkipLF(st: Decoder, c: char): Decoder
    requires AllHex(st.digits)
  {
    if c == '\n' then st.(phase := Digits) else OnDigits(st, c)
  }

  function OnSkipCR(st: Decoder, c: char): Decoder
    requires AllHex(st.digits)
  {
    if c == '\r' then st.(phase := SkipLF) else OnSkipLF(st, c)
  }

  /** Only the digits survive the end of a receive. */
  function Resume(st: Decoder): Decoder {
    if st.phase in {Data, Done, Overrun} then st
    else st.(phase := if st.digits == "" then SkipCR else Digits)
  }

  function Step(st: Decoder, c: char): Decoder
    requires AllHex(st.digits)
  {
    match st.phase
    case SkipCR => OnSkipCR(st, c)
    case SkipLF => OnSkipLF(st, c)
    case Digits => OnDigits(st, c)
    case Extension => OnExtension(st, c)
    case LineFeed =>
      if c == '\n' then FinishLine(st)
      else if st.digits == "" then OnSkipCR(st, c)
      else OnDigits(st, c)
    case Data =>
      if st.owed <= 1 then Decoder(SkipCR, "", 0, st.content + [c])
      else st.(owed := st.owed - 1, content := st.content + [c])
    case Done => st
    case Overrun => st
  }

  lemma StepValid(st: Decoder, c: char)
    requires Valid(st)
    ensures Valid(Step(st, c))
    ensures Valid(Resume(st))
  {
  }

  ghost function Run(st: Decoder, s: string): (r: Decoder)
    requires Valid(st)
    ensures Valid(r)
    decreases |s|
  {
    if s == "" then st else
      StepValid(st, s[0]);
      Run(Step(st, s[0]), s[1..])
  }

  /** One receive. */
  ghost function Feed(st: Decoder, s: string): (r: Decoder)
    requires Valid(st)
    ensures Valid(r)
  {
    Resume(Run(st, s))
  }

  ghost function FeedAll(st: Decoder, receives: seq<string>): (r: Decoder)
    requires Valid(st)
    ensures Valid(r)
    decreases |receives|
  {
    if receives == [] then st else FeedAll(Feed(st, receives[0]), receives[1..])
  }

  function Concat(parts: seq<string>): string {
    if parts == [] then "" else parts[0] + Concat(parts[1..])
  }

  lemma {:induction false} RunSplit(st: Decoder, a: string, b: string)
    requires Valid(st)
    ensures Run(st, a + b) == Run(Run(st, a), b)
    decreases |a|
  {
    hide Step;
    if a == "" {
      assert a + b == b;
    } else {
      StepValid(st, a[0]);
      assert (a + b)[1..] == a[1..] + b;
      RunSplit(Step(st, a[0]), a[1..], b);
    }
  }

  lemma {:induction false} RunGrows(st: Decoder, s: string)
    requires Valid(st)
    ensures |Run(st, s).content| <= |st.content| + |s|
    decreases |s|
  {
    if s == "" {
    } else {
      StepValid(st, s[0]);
      RunGrows(Step(st, s[0]), s[1..]);
    }
  }

  lemma {:induction false} FeedAllSnoc(st: Decoder, receives: seq<string>, s: string)
    requires Valid(st)
    ensures FeedAll(st, receives + [s]) == Feed(FeedAll(st, receives), s)
    decreases |receives|
  {
    hide Feed;
    if receives == [] {
      assert ([] + [s])[1..] == [];
    } else {
      assert (receives + [s])[1..] == receives[1..] + [s];
      FeedAllSnoc(Feed(st, receives[0]), receives[1..], s);
    }
  }

  /** Copying a block at once is copying it character by character. */
  lemma {:induction false} RunData(st: Decoder, s: string, k: nat)
    requires Valid(st) && st.phase == Data
    requires k <= st.owed && k <= |s|
    ensures Valid(AfterCopy(st, s[..k])) && Run(st, s) == Run(AfterCopy(st, s[..k]), s[k..])
    decreases k
  {
    hide AllHex, OnSkipCR, OnSkipLF, OnDigits, OnExtension, FinishLine;
    if k == 0 {
      assert s[0..] == s && st.content + s[..0] == st.content;
    } else {
      var st1, s1 := Step(st, s[0]), s[1..];
      assert s[..k] == [s[0]] + s1[..k - 1] && st1.content == st.content + [s[0]];
      assert st.content + ([s[0]] + s1[..k - 1]) == st1.content + s1[..k - 1];
      assert s1[k - 1..] == s[k..];
      if st1.phase == Data {
        RunData(st1, s1, k - 1);
      } else {
        assert AfterCopy(st, s[..k]) == st1;
      }
    }
  }

  ghost function AfterCopy(st: Decoder, copied: string): Decoder
    requires st.phase == Data && |copied| <= st.owed
  {
    if |copied| < st.owed then st.(owed := st.owed - |copied|, content := st.content + copied)
    else Decoder(SkipCR, "", 0, st.content + copied)
  }

  lemma RunDone(st: Decoder, s: string)
    requires Valid(st) && st.phase in {Done, Overrun}
    ensures Run(st, s) == st
    decreases |s|
  {
    if s == "" {
    } else {
      RunDone(st, s[1..]);
    }
  }

  // ---------------------------------------------------------------- wire format

  /** One chunk: its size in hexadecimal, an extension, its bytes. */
  datatype Chunk = Chunk(digits: string, ext: string, data: string)

  predicate NoLineBreak(s: string) {
    forall i :: 0 <= i < |s| ==> s[i] != '\r' && s[i] != '\n'
  }

  ghost predicate ChunkOk(c: Chunk) {
    && 1 <= |c.digits| <= MAX_DIGITS && AllHex(c.digits)
    && HexValue(c.digits) == |c.data| < TWO_31
    && NoLineBreak(c.ext)
    && (c.ext != "" ==> !IsHexDigit(c.ext[0]))
  }

  /** All chunks but the last carry data; the last one is empty. */
  ghost predicate ChunksOk(cs: seq<Chunk>) {
    && cs != []
    && (forall i :: 0 <= i < |cs| ==> ChunkOk(cs[i]))
    && (forall i :: 0 <= i < |cs| ==> (cs[i].data == "" <==> i == |cs| - 1))
  }

  /** A wire from its first size line on; `trailer` follows the last size line. */
  function Wire(cs: seq<Chunk>, trailer: string): string
    requires cs != []
    decreases |cs|, 1
  {
    cs[0].digits + (cs[0].ext + ("\r\n" + FromData(cs, trailer)))
  }

  /** A wire from the data of its first chunk on. */
  function FromData(cs: seq<Chunk>, trailer: string): string
    requires cs != []
    decreases |cs|, 0
  {
    cs[0].data + Tail(cs[1..], trailer)
  }

  /** Everything that follows the data of a chunk. */
  function Tail(cs: seq<Chunk>, trailer: string): string
    decreases |cs|, 2
  {
    if cs == [] then trailer else "\r\n" + Wire(cs, trailer)
  }

  function Payload(cs: seq<Chunk>): string {
    if cs == [] then "" else cs[0].data + Payload(cs[1..])
  }

  // ---------------------------------------------------------------- positions in a wire

  /**
   A place between two characters of a wire: what is still to come and, inside a size line, the
   digits `gathered` as its size.  While an extension is `open` the digit loop has just been
   entered, and hexadecimal digits are gathered as long as they come first.
   */
  datatype Position =
    | InLead(lead: string, cs: seq<Chunk>)                // line break before a size line
    | InDigits(seen: string, todo: string, cs: seq<Chunk>)
    | InExtension(gathered: string, open: bool, todo: string, cs: seq<Chunk>)
    | BeforeLF(gathered: string, cs: seq<Chunk>)
    | InData(todo: string, cs: seq<Chunk>)
    | Over

  ghost predicate GatheredOk(gathered: string, cs: seq<Chunk>) {
    ChunksOk(cs) && cs[0].digits <= gathered && AllHex(gathered) && |gathered| <= MAX_DIGITS
  }

  ghost predicate PositionOk(p: Position) {
    match p
    case InLead(lead, cs) => ChunksOk(cs) && lead in {"\r\n", "\n", ""}
    case InDigits(seen, todo, cs) => ChunksOk(cs) && seen != "" && cs[0].digits == seen + todo
    case InExtension(gathered, _, todo, cs) => GatheredOk(gathered, cs) && NoLineBreak(todo)
    case BeforeLF(gathered, cs) => GatheredOk(gathered, cs)
    case InData(todo, cs) => ChunksOk(cs) && 0 < |todo| < TWO_31
    case Over => true
  }

  /** The characters still to come. */
  ghost function Rest(p: Position, trailer: string): string
    requires PositionOk(p)
  {
    match p
    case InLead(lead, cs) => lead + Wire(cs, trailer)
    case InDigits(seen, todo, cs) => todo + (cs[0].ext + ("\r\n" + FromData(cs, trailer)))
    case InExtension(_, _, todo, cs) => todo + ("\r\n" + FromData(cs, trailer))
    case BeforeLF(_, cs) => "\n" + FromData(cs, trailer)
    case InData(todo, cs) => todo + Tail(cs, trailer)
    case Over => trailer
  }

  ghost function AfterLine(cs: seq<Chunk>): Position
    requires ChunksOk(cs)
  {
    if cs[0].data == "" then Over else InData(cs[0].data, cs[1..])
  }

  /** The place after the next character. */
  ghost function Advance(p: Position): Position
    requires PositionOk(p)
  {
    match p
    case InLead(lead, cs) =>
      if lead == "" then InDigits(cs[0].digits[..1], cs[0].digits[1..], cs)
      else InLead(lead[1..], cs)
    case InDigits(seen, todo, cs) =>
      if todo != "" then InDigits(seen + todo[..1], todo[1..], cs)
      else if cs[0].ext != "" then InExtension(seen, false, cs[0].ext[1..], cs)
      else BeforeLF(seen, cs)
    case InExtension(gathered, open, todo, cs) =>
      if todo == "" then BeforeLF(gathered, cs)
      else if open && IsHexDigit(todo[0]) && |gathered| < MAX_DIGITS then
        InExtension(gathered + todo[..1], true, todo[1..], cs)
      else InExtension(gathered, false, todo[1..], cs)
    case BeforeLF(_, cs) => AfterLine(cs)
    case InData(todo, cs) => if |todo| == 1 then InLead("\r\n", cs) else InData(todo[1..], cs)
    case Over => Over
  }

  /** The end of a receive: the digit loop will be entered again. */
  ghost function Reopen(p: Position): Position {
    if p.InExtension? then p.(open := true) else p
  }

  lemma DropChunk(cs: seq<Chunk>)
    requires ChunksOk(cs) && cs[0].data != ""
    ensures ChunksOk(cs[1..])
  {
    var t := cs[1..];
    assert cs[0].data != "" ==> |cs| > 1;
    assert forall i :: 0 <= i < |t| ==> t[i] == cs[i + 1];
  }

  lemma Uncons(x: string, y: string)
    ensures x == "" ==> x + y == y
    ensures x != "" ==> (x + y)[0] == x[0] && (x + y)[1..] == x[1..] + y
  {
  }

  lemma AdvanceOk(p: Position)
    requires PositionOk(p)
    ensures PositionOk(Advance(p)) && PositionOk(Reopen(p))
  {
    match p
    case InLead(lead, cs) =>
      if lead == "" {
        assert cs[0].digits == cs[0].digits[..1] + cs[0].digits[1..];
      }
    case InDigits(seen, todo, cs) =>
      if todo != "" {
        assert seen + todo == seen + todo[..1] + todo[1..];
      } else {
        assert seen + todo == seen;
      }
    case InExtension(gathered, open, todo, cs) =>
    case BeforeLF(_, cs) =>
      if cs[0].data != "" {
        DropChunk(cs);
      }
    case InData(todo, cs) =>
    case Over =>
  }

  /** The character at a position, and that `Advance` steps over exactly it. */
  lemma AdvanceRest(p: Position, trailer: string)
    requires PositionOk(p) && !p.Over?
    ensures PositionOk(Advance(p))
    ensures Rest(p, trailer) != "" && Rest(p, trailer)[1..] == Rest(Advance(p), trailer)
  {
    AdvanceOk(p);
    match p
    case InLead(lead, cs) =>
      Uncons(lead, Wire(cs, trailer));
      Uncons(cs[0].digits, cs[0].ext + ("\r\n" + FromData(cs, trailer)));
    case InDigits(seen, todo, cs) =>
      Uncons(todo, cs[0].ext + ("\r\n" + FromData(cs, trailer)));
      Uncons(cs[0].ext, "\r\n" + FromData(cs, trailer));
      Uncons("\r\n", FromData(cs, trailer));
    case InExtension(_, _, todo, cs) =>
      Uncons(todo, "\r\n" + FromData(cs, trailer));
      Uncons("\r\n", FromData(cs, trailer));
    case BeforeLF(_, cs) =>
      Uncons("\n", FromData(cs, trailer));
      if cs[0].data == "" {
        assert |cs| == 1;
        assert FromData(cs, trailer) == "" + trailer;
        Uncons("", trailer);
      }
    case InData(todo, cs) =>
      Uncons(todo, Tail(cs, trailer));
      Uncons("", Tail(cs, trailer));
  }

  /** The next character of a wire, by position. */
  ghost function Next(p: Position): char
    requires PositionOk(p) && !p.Over?
  {
    match p
    case InLead(lead, cs) => if lead == "" then cs[0].digits[0] else lead[0]
    case InDigits(seen, todo, cs) => if todo != "" then todo[0] else if cs[0].ext != "" then cs[0].ext[0] else '\r'
    case InExtension(_, _, todo, cs) => if todo != "" then todo[0] else '\r'
    case BeforeLF(_, cs) => '\n'
    case InData(todo, cs) => todo[0]
  }

  lemma RestNext(p: Position, trailer: string)
    requires PositionOk(p) && !p.Over?
    ensures Rest(p, trailer) != "" && Rest(p, trailer)[0] == Next(p)
  {
  }

  // ---------------------------------------------------------------- decoder against wire

  /** The decoder agrees with the wire position: digits gathered, bytes owed, content copied so far. */
  ghost predicate Agree(st: Decoder, p: Position, total: string)
    requires PositionOk(p)
  {
    && Valid(st)
    && match p
       case InLead(lead, cs) =>
         && st.digits == "" && st.content + Payload(cs) == total
         && (st.phase == SkipCR || (lead != "\r\n" && st.phase == SkipLF) || (lead == "" && st.phase == Digits))
       case InDigits(seen, todo, cs) =>
         st.digits == seen && st.content + Payload(cs) == total && st.phase == Digits
       case InExtension(gathered, open, todo, cs) =>
         st.digits == gathered && st.content + Payload(cs) == total && st.phase == if open then Digits else Extension
       case BeforeLF(gathered, cs) =>
         st.digits == gathered && st.content + Payload(cs) == total && st.phase in {LineFeed, Digits}
       case InData(todo, cs) =>
         st.phase == Data && st.owed == |todo| && st.content + todo + Payload(cs) == total
       case Over => st.phase == Done && st.content == total
  }

  /** The line that ends here was read as another size than its chunk has. */
  ghost predicate Misread(p: Position)
    requires PositionOk(p)
  {
    p.BeforeLF? && HexValue(p.gathered) % TWO_32 != |p.cs[0].data|
  }

  /** One character keeps decoder and wire in agreement, unless it ends a line that was misread. */
  lemma StepAgrees(st: Decoder, p: Position, total: string)
    requires PositionOk(p) && !p.Over? && Agree(st, p, total)
    ensures PositionOk(Advance(p))
    ensures Agree(Step(st, Next(p)), Advance(p), total) <==> !Misread(p)
  {
    hide WrappedValue, HexValue, Payload;
    AdvanceOk(p);
    StepValid(st, Next(p));
    match p
    case InLead(lead, cs) =>
    case InDigits(seen, todo, cs) =>
      if todo != "" {
        assert todo[0] == cs[0].digits[|seen|];
      } else {
        assert seen + todo == seen;
      }
    case InExtension(gathered, open, todo, cs) =>
    case BeforeLF(gathered, cs) => LineEndAgrees(st, gathered, cs, total);
    case InData(todo, cs) => DataAgrees(st, todo, cs, total);
  }

  lemma DataAgrees(st: Decoder, todo: string, cs: seq<Chunk>, total: string)
    requires PositionOk(InData(todo, cs)) && Agree(st, InData(todo, cs), total)
    ensures var p := Advance(InData(todo, cs));
            PositionOk(p) && Agree(Step(st, todo[0]), p, total)
  {
    hide WrappedValue, HexValue, Payload;
    AdvanceOk(InData(todo, cs));
    StepValid(st, todo[0]);
    assert st.content + todo == st.content + [todo[0]] + todo[1..];
  }

  lemma LineEndAgrees(st: Decoder, gathered: string, cs: seq<Chunk>, total: string)
    requires GatheredOk(gathered, cs) && Agree(st, BeforeLF(gathered, cs), total)
    ensures PositionOk(AfterLine(cs))
    ensures Agree(Step(st, '\n'), AfterLine(cs), total) <==> HexValue(gathered) % TWO_32 == |cs[0].data|
  {
    AdvanceOk(BeforeLF(gathered, cs));
    StepValid(st, '\n');
    WrappedValueIsModular(gathered);
    if cs[0].data == "" {
      assert |cs| == 1;
      assert Payload(cs) == "" + "";
    } else {
      assert st.content + cs[0].data + Payload(cs[1..]) == st.content + Payload(cs);
    }
  }

  /** The end of a receive keeps them in agreement: the wire position is reopened. */
  lemma ResumeAgrees(st: Decoder, p: Position, total: string)
    requires PositionOk(p) && Agree(st, p, total)
    ensures PositionOk(Reopen(p)) && Agree(Resume(st), Reopen(p), total)
  {
  }

  ghost function AdvanceBy(p: Position, n: nat): (q: Position)
    requires PositionOk(p)
    ensures PositionOk(q)
    decreases n
  {
    if n == 0 || p.Over? then p else
      AdvanceOk(p);
      AdvanceBy(Advance(p), n - 1)
  }

  /** The position after one receive. */
  ghost function Past(p: Position, s: string): (q: Position)
    requires PositionOk(p)
    ensures PositionOk(q)
  {
    AdvanceOk(AdvanceBy(p, |s|));
    Reopen(AdvanceBy(p, |s|))
  }

  ghost function PastAll(p: Position, receives: seq<string>): (q: Position)
    requires PositionOk(p)
    ensures PositionOk(q)
    decreases |receives|
  {
    if receives == [] then p else PastAll(Past(p, receives[0]), receives[1..])
  }

  lemma {:induction false} RestAdvanceBy(p: Position, n: nat, trailer: string)
    requires PositionOk(p) && !p.Over? && n <= |Rest(p, trailer)|
    ensures !AdvanceBy(p, n).Over? ==> Rest(AdvanceBy(p, n), trailer) == Rest(p, trailer)[n..]
    decreases n
  {
    hide Rest, Advance, PositionOk;
    if n == 0 {
    } else {
      AdvanceRest(p, trailer);
      if !Advance(p).Over? {
        RestAdvanceBy(Advance(p), n - 1, trailer);
        assert Rest(p, trailer)[1..][n - 1..] == Rest(p, trailer)[n..];
      }
    }
  }

  lemma RestReopen(p: Position, trailer: string)
    requires PositionOk(p)
    ensures PositionOk(Reopen(p)) && Rest(Reopen(p), trailer) == Rest(p, trailer) && Reopen(p).Over? == p.Over?
  {
  }

  /** What follows a receive is what is left of the wire. */
  lemma RestPast(p: Position, s: string, more: string, trailer: string)
    requires PositionOk(p) && (p.Over? || s + more <= Rest(p, trailer))
    ensures var q := Past(p, s); q.Over? || more <= Rest(q, trailer)
    ensures !p.Over? && s + more == Rest(p, trailer) ==> var q := Past(p, s); q.Over? || more == Rest(q, trailer)
  {
    hide Rest, PositionOk, Advance;
    if !p.Over? {
      RestAdvanceBy(p, |s|, trailer);
      assert Rest(p, trailer)[|s|..][..|more|] == more;
    }
    RestReopen(AdvanceBy(p, |s|), trailer);
  }

  // ---------------------------------------------------------------- staying in step

  /** Decoder and wire agree after every character of a piece. */
  ghost predicate RunInStep(st: Decoder, p: Position, total: string, s: string)
    requires PositionOk(p) && Valid(st)
    decreases |s|
  {
    s == "" || p.Over? ||
    (StepValid(st, s[0]);
     AdvanceOk(p);
     Agree(Step(st, s[0]), Advance(p), total) && RunInStep(Step(st, s[0]), Advance(p), total, s[1..]))
  }

  /** Decoder and wire agree after every character of a wire that comes in the given receives. */
  ghost predicate InStep(st: Decoder, p: Position, total: string, receives: seq<string>)
    requires PositionOk(p) && Valid(st)
    decreases |receives|
  {
    receives == [] ||
    (RunInStep(st, p, total, receives[0]) && InStep(Feed(st, receives[0]), Past(p, receives[0]), total, receives[1..]))
  }

  /** None of the lines that end within the next n characters is misread. */
  ghost predicate LinesRead(p: Position, n: nat)
    requires PositionOk(p)
    decreases n
  {
    n == 0 || p.Over? || (AdvanceOk(p); !Misread(p) && LinesRead(Advance(p), n - 1))
  }

  /**
   The condition on a wire and its cutting: at the end of every size line the digits gathered
   denote the size of the chunk, modulo 2^32.
   */
  ghost predicate SizesRead(p: Position, receives: seq<string>)
    requires PositionOk(p)
    decreases |receives|
  {
    receives == [] || (LinesRead(p, |receives[0]|) && SizesRead(Past(p, receives[0]), receives[1..]))
  }

  lemma {:induction false} RunExactly(st: Decoder, p: Position, total: string, trailer: string, s: string)
    requires PositionOk(p) && Agree(st, p, total)
    requires p.Over? || s <= Rest(p, trailer)
    ensures RunInStep(st, p, total, s) <==> LinesRead(p, |s|)
    ensures LinesRead(p, |s|) ==> Agree(Run(st, s), AdvanceBy(p, |s|), total)
    decreases |s|
  {
    hide Rest, Advance, PositionOk, Step, Misread;
    if p.Over? {
      RunDone(st, s);
    } else if s != "" {
      var c := Rest(p, trailer)[0];
      assert s[0] == c;
      StepAgrees(st, p, total);
      RestNext(p, trailer);
      AdvanceRest(p, trailer);
      assert s[1..] <= Rest(Advance(p), trailer);
      if !Misread(p) {
        RunExactly(Step(st, c), Advance(p), total, trailer, s[1..]);
      }
    }
  }

  lemma {:induction false} FeedAllExactly(st: Decoder, p: Position, total: string, trailer: string,
      receives: seq<string>)
    requires PositionOk(p) && Valid(st) && Agree(st, p, total)
    requires p.Over? || Concat(receives) <= Rest(p, trailer)
    ensures InStep(st, p, total, receives) <==> SizesRead(p, receives)
    ensures SizesRead(p, receives) ==> Agree(FeedAll(st, receives), PastAll(p, receives), total)
    decreases |receives|
  {
    hide Agree, Rest, PositionOk, Run, Reopen, AdvanceBy, RunInStep, LinesRead;
    if receives == [] {
    } else {
      var s, more := receives[0], receives[1..];
      RunExactly(st, p, total, trailer, s);
      RestPast(p, s, Concat(more), trailer);
      if LinesRead(p, |s|) {
        ResumeAgrees(Run(st, s), AdvanceBy(p, |s|), total);
        FeedAllExactly(Feed(st, s), Past(p, s), total, trailer, more);
      }
    }
  }

  lemma {:induction false} EndsOver(p: Position, trailer: string, receives: seq<string>)
    requires PositionOk(p) && (p.Over? || Concat(receives) == Rest(p, trailer))
    ensures PastAll(p, receives).Over?
    decreases |receives|
  {
    hide Rest, PositionOk, Past;
    if receives == [] {
      if !p.Over? {
        RestNext(p, trailer);
      }
    } else {
      RestPast(p, receives[0], Concat(receives[1..]), trailer);
      StaysOver(p, receives[0]);
      EndsOver(Past(p, receives[0]), trailer, receives[1..]);
    }
  }

  lemma StaysOver(p: Position, s: string)
    requires PositionOk(p)
    ensures p.Over? ==> Past(p, s).Over?
  {
  }

  // ---------------------------------------------------------------- main results

  /**
   The decoder stays in step with a wire through every character of every cutting exactly when
   every size line is read as the size of its chunk.
   */
  lemma InStepExactly(cs: seq<Chunk>, trailer: string, receives: seq<string>)
    requires ChunksOk(cs) && Concat(receives) <= Wire(cs, trailer)
    ensures InStep(START, InLead("", cs), Payload(cs), receives) <==> SizesRead(InLead("", cs), receives)
  {
    hide Rest, Wire, InStep, SizesRead;
    RestOfWire(cs, trailer);
    assert "" + Payload(cs) == Payload(cs);
    FeedAllExactly(START, InLead("", cs), Payload(cs), trailer, receives);
  }

  /**
   For every prefix of a wire cut in any way that reads its sizes: the content is a prefix of
   the payload, `owed` is exactly what the current chunk still lacks, `digits` is what was
   gathered of the current size.
   */
  lemma PrefixInStep(cs: seq<Chunk>, trailer: string, receives: seq<string>)
    requires ChunksOk(cs) && SizesRead(InLead("", cs), receives)
    requires Concat(receives) <= Wire(cs, trailer)
    ensures Agree(FeedAll(START, receives), PastAll(InLead("", cs), receives), Payload(cs))
    ensures FeedAll(START, receives).content <= Payload(cs)
  {
    hide Rest, Wire, Run, Step, Advance, PastAll, FeedAll, SizesRead;
    var p := InLead("", cs);
    RestOfWire(cs, trailer);
    assert "" + Payload(cs) == Payload(cs);
    FeedAllExactly(START, p, Payload(cs), trailer, receives);
    AgreePrefix(FeedAll(START, receives), PastAll(p, receives), Payload(cs));
  }

  lemma {:induction false} LinesReadPrefix(p: Position, m: nat, n: nat)
    requires PositionOk(p) && LinesRead(p, n) && m <= n
    ensures LinesRead(p, m)
    decreases m
  {
    hide PositionOk, Advance, Misread;
    if m == 0 || p.Over? {
    } else {
      AdvanceOk(p);
      LinesReadPrefix(Advance(p), m - 1, n - 1);
    }
  }

  lemma {:induction false} SizesReadPrefix(p: Position, receives: seq<string>, s: string, i: nat)
    requires PositionOk(p) && SizesRead(p, receives + [s]) && i <= |s|
    ensures SizesRead(p, receives + [s[..i]])
    decreases |receives|
  {
    hide PositionOk, LinesRead;
    if receives == [] {
      assert [s[..i]][1..] == [];
      LinesReadPrefix(p, i, |s|);
    } else {
      assert (receives + [s])[1..] == receives[1..] + [s] && (receives + [s[..i]])[1..] == receives[1..] + [s[..i]];
      SizesReadPrefix(Past(p, receives[0]), receives[1..], s, i);
    }
  }

  lemma {:induction false} ConcatSnoc(receives: seq<string>, s: string)
    ensures Concat(receives + [s]) == Concat(receives) + s
    decreases |receives|
  {
    if receives == [] {
      assert ([] + [s])[1..] == [] && s + "" == s;
    } else {
      assert (receives + [s])[1..] == receives[1..] + [s];
      ConcatSnoc(receives[1..], s);
    }
  }

  /** The same inside a receive, of which the first i characters are used up. */
  lemma InsideReceive(cs: seq<Chunk>, trailer: string, receives: seq<string>, s: string, i: nat)
    requires ChunksOk(cs) && SizesRead(InLead("", cs), receives + [s]) && i <= |s|
    requires Concat(receives) + s <= Wire(cs, trailer)
    ensures var st := Feed(FeedAll(START, receives), s[..i]); var p := PastAll(InLead("", cs), receives + [s[..i]]);
            Agree(st, p, Payload(cs)) && st.content <= Payload(cs)
  {
    hide Wire, Payload, FeedAll, Feed, PastAll, SizesRead, Agree, ChunksOk;
    SizesReadPrefix(InLead("", cs), receives, s, i);
    ConcatSnoc(receives, s[..i]);
    assert Concat(receives) + s[..i] <= Concat(receives) + s;
    PrefixInStep(cs, trailer, receives + [s[..i]]);
    FeedAllSnoc(START, receives, s[..i]);
  }

  lemma AgreePrefix(st: Decoder, p: Position, total: string)
    requires PositionOk(p) && Agree(st, p, total)
    ensures st.content <= total
  {
    if p.InData? {
      assert st.content + p.todo + Payload(p.cs) == st.content + (p.todo + Payload(p.cs));
    }
  }

  /** However a wire is cut, if its sizes are read the decoder ends with exactly the payload. */
  lemma DecodesWire(cs: seq<Chunk>, trailer: string, receives: seq<string>)
    requires ChunksOk(cs) && SizesRead(InLead("", cs), receives)
    requires Concat(receives) == Wire(cs, trailer)
    ensures FeedAll(START, receives) == Decoder(Done, "", 0, Payload(cs))
  {
    hide SizesRead, Rest, Wire;
    PrefixInStep(cs, trailer, receives);
    RestOfWire(cs, trailer);
    EndsOver(InLead("", cs), trailer, receives);
  }

  // ---------------------------------------------------------------- cuts in extensions

  /** A receive that starts here adds a digit of an extension to the size. */
  ghost predicate Unsafe(p: Position) {
    p.InExtension? && p.open && p.todo != "" && IsHexDigit(p.todo[0]) && |p.gathered| < MAX_DIGITS
  }

  ghost predicate SafeCuts(p: Position, receives: seq<string>)
    requires PositionOk(p)
    decreases |receives|
  {
    receives == [] || (!Unsafe(p) && SafeCuts(Past(p, receives[0]), receives[1..]))
  }

  /** The digits gathered are the digits sent. */
  ghost predicate AsSent(p: Position)
    requires PositionOk(p)
  {
    p.InExtension? || p.BeforeLF? ==> p.gathered == p.cs[0].digits
  }

  ghost predicate RunAsSent(p: Position, n: nat)
    requires PositionOk(p)
    decreases n
  {
    n == 0 || p.Over? || (AdvanceOk(p); AsSent(Advance(p)) && RunAsSent(Advance(p), n - 1))
  }

  /** After every character of the receives the digits gathered are the digits sent. */
  ghost predicate DigitsAsSent(p: Position, receives: seq<string>)
    requires PositionOk(p)
    decreases |receives|
  {
    receives == [] || (RunAsSent(p, |receives[0]|) && DigitsAsSent(Past(p, receives[0]), receives[1..]))
  }

  lemma SentIsRead(p: Position)
    requires PositionOk(p) && AsSent(p)
    ensures !Misread(p)
  {
  }

  /** Within a receive nothing is gathered that was not sent, unless at once. */
  lemma {:induction false} RunAsSentExactly(p: Position, n: nat)
    requires PositionOk(p) && AsSent(p)
    ensures n > 0 ==> (RunAsSent(p, n) <==> !Unsafe(p))
    ensures !Unsafe(p) ==> LinesRead(p, n) && AsSent(AdvanceBy(p, n))
    decreases n
  {
    if n == 0 || p.Over? {
    } else {
      AdvanceOk(p);
      AdvanceAsSent(p);
      SentIsRead(p);
      if !Unsafe(p) {
        RunAsSentExactly(Advance(p), n - 1);
      }
    }
  }

  lemma AdvanceAsSent(p: Position)
    requires PositionOk(p) && AsSent(p) && !p.Over?
    ensures PositionOk(Advance(p)) && (AsSent(Advance(p)) <==> !Unsafe(p))
    ensures !Unsafe(p) ==> !Unsafe(Advance(p))
  {
    AdvanceOk(p);
    if p.InDigits? {
      assert p.todo == "" ==> p.seen + p.todo == p.seen;
    }
  }

  lemma {:induction false} SafeCutsExactly(p: Position, receives: seq<string>)
    requires PositionOk(p) && AsSent(p)
    ensures SafeCuts(p, receives) ==> SizesRead(p, receives)
    ensures NonEmpty(receives) ==> (DigitsAsSent(p, receives) <==> SafeCuts(p, receives))
    decreases |receives|
  {
    hide PositionOk, Unsafe, LinesRead, RunAsSent, AdvanceBy;
    if receives == [] {
    } else {
      var s, more := receives[0], receives[1..];
      RunAsSentExactly(p, |s|);
      AdvanceOk(AdvanceBy(p, |s|));
      if !Unsafe(p) {
        SafeCutsExactly(Past(p, s), more);
        assert forall i :: 0 <= i < |more| ==> more[i] == receives[i + 1];
      }
    }
  }

  /**
   Over a whole wire: in step, and the digit buffer holds the digits sent after every character,
   exactly when no receive starts at a hexadecimal digit of an extension (with room for it).
   */
  lemma DigitsKeptExactly(cs: seq<Chunk>, trailer: string, receives: seq<string>)
    requires ChunksOk(cs) && Concat(receives) <= Wire(cs, trailer)
    requires NonEmpty(receives)
    ensures InStep(START, InLead("", cs), Payload(cs), receives) && DigitsAsSent(InLead("", cs), receives) <==>
            SafeCuts(InLead("", cs), receives)
  {
    hide Wire, InStep, DigitsAsSent, SafeCuts, SizesRead;
    InStepExactly(cs, trailer, receives);
    SafeCutsExactly(InLead("", cs), receives);
  }

  predicate NoHex(s: string) {
    forall j :: 0 <= j < |s| ==> !IsHexDigit(s[j])
  }

  /** A chunk no cut of whose extension can change its digits. */
  predicate Quiet(c: Chunk) {
    |c.digits| == MAX_DIGITS || NoHex(c.ext)
  }

  predicate QuietChunks(cs: seq<Chunk>) {
    forall i :: 0 <= i < |cs| ==> Quiet(cs[i])
  }

  /** What is still to come holds no digit that a cut could add to a size. */
  ghost predicate QuietAhead(p: Position)
    requires PositionOk(p)
  {
    match p
    case InLead(_, cs) => QuietChunks(cs)
    case InDigits(_, _, cs) => QuietChunks(cs)
    case InExtension(gathered, _, todo, cs) => (|gathered| == MAX_DIGITS || NoHex(todo)) && QuietChunks(cs[1..])
    case BeforeLF(_, cs) => QuietChunks(cs[1..])
    case InData(_, cs) => QuietChunks(cs)
    case Over => true
  }

  lemma QuietFirst(cs: seq<Chunk>)
    requires cs != []
    ensures QuietChunks(cs) <==> Quiet(cs[0]) && QuietChunks(cs[1..])
  {
    if Quiet(cs[0]) && QuietChunks(cs[1..]) {
      forall i | 0 <= i < |cs| ensures Quiet(cs[i]) {
        assert i > 0 ==> cs[i] == cs[1..][i - 1];
      }
    }
  }

  lemma NoHexFirst(s: string)
    requires s != ""
    ensures NoHex(s) <==> !IsHexDigit(s[0]) && NoHex(s[1..])
  {
    if !IsHexDigit(s[0]) && NoHex(s[1..]) {
      forall i | 0 <= i < |s| ensures !IsHexDigit(s[i]) {
        assert i > 0 ==> s[i] == s[1..][i - 1];
      }
    }
  }

  /** Quiet stays quiet, and where the digit loop has just been entered noise stays noise until it is gathered. */
  lemma AdvanceQuiet(p: Position)
    requires PositionOk(p) && !p.Over?
    ensures PositionOk(Advance(p)) && (QuietAhead(p) ==> QuietAhead(Advance(p)) && !Unsafe(p))
    ensures p == Reopen(p) && !Unsafe(p) && QuietAhead(Advance(p)) ==> QuietAhead(p)
  {
    hide NoHex, QuietChunks, HexValue;
    AdvanceOk(p);
    match p
    case InLead(_, cs) =>
    case InDigits(seen, todo, cs) =>
      QuietFirst(cs);
      assert todo == "" ==> seen + todo == seen;
      if cs[0].ext != "" {
        NoHexFirst(cs[0].ext);
      } else {
        NoHexNothing();
      }
    case InExtension(gathered, open, todo, cs) =>
      if todo != "" {
        NoHexFirst(todo);
      } else {
        NoHexNothing();
      }
    case BeforeLF(_, cs) =>
      if cs[0].data == "" {
        assert cs[1..] == [];
        NoChunks();
      }
    case InData(todo, cs) =>
  }

  lemma NoHexNothing()
    ensures NoHex("")
  {
  }

  lemma NoChunks()
    ensures QuietChunks([])
  {
  }

  lemma {:induction false} QuietAdvanceBy(p: Position, n: nat)
    requires PositionOk(p) && QuietAhead(p)
    ensures QuietAhead(AdvanceBy(p, n))
    decreases n
  {
    hide PositionOk, QuietAhead, Advance;
    if n == 0 || p.Over? {
    } else {
      AdvanceQuiet(p);
      QuietAdvanceBy(Advance(p), n - 1);
    }
  }

  lemma QuietReopen(p: Position)
    requires PositionOk(p)
    ensures PositionOk(Reopen(p)) && (QuietAhead(Reopen(p)) <==> QuietAhead(p)) && Reopen(Reopen(p)) == Reopen(p)
    ensures QuietAhead(p) ==> !Unsafe(p)
  {
    if p.InExtension? && p.todo != "" {
      NoHexFirst(p.todo);
    }
  }

  lemma {:induction false} QuietCutsSafe(p: Position, receives: seq<string>)
    requires PositionOk(p) && QuietAhead(p)
    ensures SafeCuts(p, receives)
    decreases |receives|
  {
    hide AdvanceBy, PositionOk, QuietAhead, Unsafe;
    QuietReopen(p);
    if receives == [] {
    } else {
      QuietAdvanceBy(p, |receives[0]|);
      QuietReopen(AdvanceBy(p, |receives[0]|));
      QuietCutsSafe(Past(p, receives[0]), receives[1..]);
    }
  }

  lemma QuietSizesRead(cs: seq<Chunk>, receives: seq<string>)
    requires ChunksOk(cs) && QuietChunks(cs)
    ensures SizesRead(InLead("", cs), receives)
  {
    hide SafeCuts, SizesRead;
    QuietCutsSafe(InLead("", cs), receives);
    SafeCutsExactly(InLead("", cs), receives);
  }

  /** No receive brings more than one byte. */
  predicate OneByteEach(receives: seq<string>) {
    forall i :: 0 <= i < |receives| ==> |receives[i]| <= 1
  }

  predicate NonEmpty(receives: seq<string>) {
    forall i :: 0 <= i < |receives| ==> receives[i] != ""
  }

  /** A text byte by byte. */
  function Singles(s: string): (r: seq<string>)
    ensures OneByteEach(r) && NonEmpty(r) && Concat(r) == s
  {
    if s == "" then [] else
      var r := [s[..1]] + Singles(s[1..]);
      assert r[1..] == Singles(s[1..]) && s[..1] + s[1..] == s;
      r
  }

  /** Byte by byte every digit that a cut could add is added. */
  lemma {:induction false} NoiseIsCut(p: Position, trailer: string, s: string)
    requires PositionOk(p) && p == Reopen(p) && !QuietAhead(p) && s == Rest(p, trailer)
    ensures !SafeCuts(p, Singles(s))
    decreases |s|
  {
    hide PositionOk, QuietAhead, Rest, Advance, Unsafe, Reopen;
    NotOver(p);
    AdvanceRest(p, trailer);
    var more := Singles(s[1..]);
    assert Singles(s)[0] == s[..1] && Singles(s)[1..] == more;
    if Unsafe(p) {
    } else {
      var q := Advance(p);
      assert AdvanceBy(p, 1) == AdvanceBy(q, 0) == q;
      AdvanceQuiet(p);
      QuietReopen(q);
      RestReopen(q, trailer);
      NoiseIsCut(Past(p, s[..1]), trailer, s[1..]);
    }
  }

  lemma NotOver(p: Position)
    requires PositionOk(p) && !QuietAhead(p)
    ensures !p.Over?
  {
  }

  /** Through every cutting of the wire the decoder is in step and holds the digits sent. */
  ghost predicate EveryCuttingKeeps(cs: seq<Chunk>, trailer: string)
    requires ChunksOk(cs)
  {
    forall receives :: NonEmpty(receives) && Concat(receives) == Wire(cs, trailer) ==>
      InStep(START, InLead("", cs), Payload(cs), receives) && DigitsAsSent(InLead("", cs), receives)
  }

  /**
   What the sender can do about it: every cutting keeps the digits sent exactly when every chunk
   has 31 digits or an extension without hexadecimal digits.
   */
  lemma KeepsExactly(cs: seq<Chunk>, trailer: string)
    requires ChunksOk(cs)
    ensures EveryCuttingKeeps(cs, trailer) <==> QuietChunks(cs)
  {
    hide Wire, InStep, DigitsAsSent, SafeCuts, Rest;
    var p, w := InLead("", cs), Wire(cs, trailer);
    if QuietChunks(cs) {
      forall receives | NonEmpty(receives) && Concat(receives) == w
        ensures InStep(START, p, Payload(cs), receives) && DigitsAsSent(p, receives)
      {
        QuietCutsSafe(p, receives);
        DigitsKeptExactly(cs, trailer, receives);
      }
    } else {
      RestOfWire(cs, trailer);
      NoiseIsCut(p, trailer, w);
      DigitsKeptExactly(cs, trailer, Singles(w));
      assert Concat(Singles(w)) == w;
    }
  }

  /** Then every cutting of the wire decodes to the payload. */
  lemma DecodesEveryFragmentation(cs: seq<Chunk>, trailer: string, receives: seq<string>)
    requires ChunksOk(cs) && QuietChunks(cs)
    requires Concat(receives) == Wire(cs, trailer)
    ensures FeedAll(START, receives) == Decoder(Done, "", 0, Payload(cs))
  {
    hide SizesRead;
    QuietSizesRead(cs, receives);
    DecodesWire(cs, trailer, receives);
  }

  // ---------------------------------------------------------------- where it goes wrong

  lemma {:induction false} DigitsGrow(st: Decoder, s: string)
    requires Valid(st) && st.phase in {Digits, Extension} && NoLineBreak(s)
    ensures Run(st, s).phase in {Digits, Extension} && st.digits <= Run(st, s).digits
    ensures st.phase == Extension || |st.digits| == MAX_DIGITS || (s != "" && !IsHexDigit(s[0])) ==>
            Run(st, s).digits == st.digits
    decreases |s|
  {
    if s == "" {
    } else {
      var st1 := Step(st, s[0]);
      DigitsGrow(st1, s[1..]);
    }
  }

  /**
   A size line whose digits are complete, with its extension arriving in the given receives:
   the digit buffer still holds the size sent exactly when no receive starts with a
   hexadecimal digit or the buffer is already full.
   */
  lemma {:induction false} ExtensionCuts(st: Decoder, receives: seq<string>)
    requires Valid(st) && st.phase == Digits && st.digits != ""
    requires forall k :: 0 <= k < |receives| ==> receives[k] != "" && NoLineBreak(receives[k])
    ensures FeedAll(st, receives).phase == Digits && st.digits <= FeedAll(st, receives).digits
    ensures FeedAll(st, receives).digits == st.digits <==>
            |st.digits| == MAX_DIGITS || forall k :: 0 <= k < |receives| ==> !IsHexDigit(receives[k][0])
    decreases |receives|
  {
    if receives == [] {
    } else {
      var s, more := receives[0], receives[1..];
      DigitsGrow(st, s);
      if IsHexDigit(s[0]) && |st.digits| < MAX_DIGITS {
        DigitsGrow(Step(st, s[0]), s[1..]);
      }
      ExtensionCuts(Feed(st, s), more);
      assert forall k :: 0 <= k < |more| ==> more[k] == receives[k + 1];
      if |st.digits| < MAX_DIGITS && !IsHexDigit(s[0]) {
        assert (forall k :: 0 <= k < |receives| ==> !IsHexDigit(receives[k][0])) <==>
            (forall k :: 0 <= k < |more| ==> !IsHexDigit(more[k][0])) by {
          if forall k :: 0 <= k < |more| ==> !IsHexDigit(more[k][0]) {
            forall k | 0 <= k < |receives| ensures !IsHexDigit(receives[k][0]) {
              if k > 0 { assert more[k - 1] == receives[k]; }
            }
          }
        }
      }
    }
  }

  lemma RestOfWire(cs: seq<Chunk>, trailer: string)
    requires ChunksOk(cs)
    ensures Rest(InLead("", cs), trailer) == Wire(cs, trailer)
  {
    Uncons("", Wire(cs, trailer));
  }

  /** In one piece every wire decodes, whatever its extensions. */
  lemma DecodesUncut(cs: seq<Chunk>, trailer: string)
    requires ChunksOk(cs)
    ensures FeedAll(START, [Wire(cs, trailer)]) == Decoder(Done, "", 0, Payload(cs))
  {
    hide Wire, Run, Past, LinesRead;
    var w := Wire(cs, trailer);
    assert [w][1..] == [] && Concat([w]) == w + "" == w;
    var p := InLead("", cs);
    assert SafeCuts(p, [w]);
    SafeCutsExactly(p, [w]);
    DecodesWire(cs, trailer, [w]);
  }

  const CUT_EXAMPLE := [Chunk("1", ";b", "X"), Chunk("0", "", "")]

  lemma CutExampleOk()
    ensures ChunksOk(CUT_EXAMPLE) && Payload(CUT_EXAMPLE) == "X"
    ensures Wire(CUT_EXAMPLE, "") == "1;b\r\nX\r\n0\r\n"
  {
    var z := Chunk("0", "", "");
    assert "1"[..0] == "" && "0"[..0] == "";
    assert CUT_EXAMPLE[1..] == [z] && [z][1..] == [];
    assert Payload([z]) == "" && Payload(CUT_EXAMPLE) == "X" + "" == "X";
    assert FromData([z], "") == "" && Wire([z], "") == "0\r\n";
    assert FromData(CUT_EXAMPLE, "") == "X\r\n0\r\n";
  }

  /** The same wire, one chunk "X" with extension ";b": whole it decodes, cut before the b it does not. */
  lemma ExtensionCutLosesData()
    ensures var wire := Wire(CUT_EXAMPLE, "");
            && FeedAll(START, [wire]) == Decoder(Done, "", 0, "X")
            && wire == "1;" + "b\r\nX\r\n0\r\n"
            && FeedAll(START, ["1;", "b\r\nX\r\n0\r\n"]) == Decoder(Data, "", 21, "X\r\n0\r\n")
  {
    hide Wire, ChunksOk, Payload, FeedAll;
    CutExampleOk();
    DecodesUncut(CUT_EXAMPLE, "");
    CutRun();
    assert "1;" + "b\r\nX\r\n0\r\n" == "1;b\r\nX\r\n0\r\n";
  }

  lemma CutRun()
    ensures FeedAll(START, ["1;", "b\r\nX\r\n0\r\n"]) == Decoder(Data, "", 21, "X\r\n0\r\n")
  {
    hide Feed;
    var a, b := "1;", "b\r\nX\r\n0\r\n";
    var one := Decoder(Digits, "1", 0, "");
    BeforeCut();
    AfterCut();
    var two := [a, b];
    assert two[1..] == [b] && [b][1..] == [];
    assert FeedAll(START, two) == FeedAll(one, [b]);
  }

  lemma BeforeCut()
    ensures Feed(START, "1;") == Decoder(Digits, "1", 0, "")
  {
    var a, one := "1;", Decoder(Digits, "1", 0, "");
    assert a[1..] == ";" && ";"[1..] == "" && "" + ['1'] == "1";
    assert Run(START, a) == Run(one, ";") == one.(phase := Extension);
  }

  lemma AfterCut()
    ensures Feed(Decoder(Digits, "1", 0, ""), "b\r\nX\r\n0\r\n") == Decoder(Data, "", 21, "X\r\n0\r\n")
  {
    hide Step;
    var d := "X\r\n0\r\n";
    SizeLineAfterCut(d);
    assert "b\r\nX\r\n0\r\n" == "b\r\n" + d;
    RunData(Decoder(Data, "", 27, ""), d, 6);
    assert d[..6] == d && d[6..] == "" && "" + d == d;
  }

  lemma SizeLineAfterCut(d: string)
    ensures Run(Decoder(Digits, "1", 0, ""), "b\r\n" + d) == Run(Decoder(Data, "", 27, ""), d)
  {
    var st, st2 := Decoder(Digits, "1", 0, ""), Decoder(Digits, "1b", 0, "");
    assert "b\r\n" + d == "b" + ("\r\n" + d) && "1" + "b" == "1b";
    hide Run, Step, WrappedValue;
    RunDigits(st, "b", "\r\n" + d);
    RunLineEnd(st2, d);
    CutSize();
  }

  lemma CutSize()
    ensures AllHex("1b") && WrappedValue("1b") == 27
  {
    assert "1b"[..1] == "1" && "1"[..0] == "" && WrappedValue("1") == 1;
  }

  lemma RunLineEnd(st: Decoder, s: string)
    requires Valid(st) && st.phase == Digits
    ensures Valid(FinishLine(st)) && Run(st, "\r\n" + s) == Run(FinishLine(st), s)
  {
    hide WrappedValue;
    var s1, st1 := "\n" + s, st.(phase := LineFeed);
    assert ("\r\n" + s)[1..] == s1 && s1[1..] == s;
    assert Run(st, "\r\n" + s) == Run(st1, s1) == Run(FinishLine(st1), s);
  }

  lemma {:induction false} RunDigits(st: Decoder, d: string, s: string)
    requires Valid(st) && st.phase == Digits && AllHex(d) && |st.digits| + |d| <= MAX_DIGITS
    ensures AllHex(st.digits + d) && Run(st, d + s) == Run(st.(digits := st.digits + d), s)
    decreases |d|
  {
    if d == "" {
      assert d + s == s && st.digits + d == st.digits;
    } else {
      assert (d + s)[1..] == d[1..] + s;
      assert st.digits + [d[0]] + d[1..] == st.digits + d;
      RunDigits(st.(digits := st.digits + [d[0]]), d[1..], s);
    }
  }

  // A misread size is no proof of a wrong result: here the bytes taken too many make up for a
  // line that is skipped later.

  /** A chunk whose data is its own size line, twice. */
  ghost predicate Echo(c: Chunk) {
    var u := "\r\n" + (c.digits + c.ext);
    ChunkOk(c) && c.data == u + ("\r\n" + u)
  }

  const ZERO := Chunk("0", "", "")

  function Lucky(c: Chunk): seq<Chunk> { [Chunk("1", ";1", "X"), c, ZERO] }

  /** What follows on the wire once 1 + |c.data| bytes were taken for the first chunk. */
  function LuckyRest(c: Chunk): string { "\r\n" + (("\r\n" + (c.digits + c.ext)) + "\r\n0\r\n") }

  function LuckyReceives(c: Chunk): seq<string> { ["1;", "1\r\n" + ("X" + c.data + LuckyRest(c))] }

  lemma LuckyOk(c: Chunk)
    requires Echo(c)
    ensures ChunksOk(Lucky(c)) && Payload(Lucky(c)) == "X" + c.data
  {
    hide HexValue;
    assert c.data != "";
    OneAndZero();
    assert Lucky(c)[1..] == [c, ZERO] && [c, ZERO][1..] == [ZERO] && [ZERO][1..] == [];
    assert Payload([]) == "" && Payload([ZERO]) == "" + Payload([]);
    assert Payload([c, ZERO]) == c.data + Payload([ZERO]);
    assert c.data + "" == c.data;
  }

  lemma OneAndZero()
    ensures ChunkOk(Chunk("1", ";1", "X")) && ChunkOk(ZERO)
  {
    assert "1"[..0] == "" && "0"[..0] == "";
  }

  lemma LuckyWire(c: Chunk)
    requires Echo(c)
    ensures Wire(Lucky(c), "") == Concat(LuckyReceives(c))
  {
    hide ChunkOk;
    var u, end := "\r\n" + (c.digits + c.ext), "\r\n0\r\n";
    assert Lucky(c)[1..] == [c, ZERO] && [c, ZERO][1..] == [ZERO] && [ZERO][1..] == [];
    assert FromData([ZERO], "") == "" + "" == "";
    assert Wire([ZERO], "") == "0" + ("" + ("\r\n" + ""));
    assert "0" + ("" + ("\r\n" + "")) == "0\r\n" && "\r\n" + "0\r\n" == end;
    assert FromData([c, ZERO], "") == c.data + end;
    LineAssoc(c.digits, c.ext, c.data + end);
    assert "\r\n" + Wire([c, ZERO], "") == u + ("\r\n" + (c.data + end));
    EchoAssoc(u, end);
    assert FromData(Lucky(c), "") == "X" + (c.data + LuckyRest(c));
    LuckyCut("X", c.data, LuckyRest(c));
    var b := LuckyReceives(c)[1];
    assert LuckyReceives(c)[1..] == [b] && [b][1..] == [] && Concat([b]) == b + "" == b;
  }

  lemma LineAssoc(d: string, e: string, s: string)
    ensures "\r\n" + (d + (e + ("\r\n" + s))) == ("\r\n" + (d + e)) + ("\r\n" + s)
  {
  }

  lemma EchoAssoc(u: string, e: string)
    ensures u + ("\r\n" + ((u + ("\r\n" + u)) + e)) == (u + ("\r\n" + u)) + ("\r\n" + (u + e))
  {
  }

  lemma LuckyCut(x: string, d: string, r: string)
    ensures "1" + (";1" + ("\r\n" + (x + (d + r)))) == "1;" + ("1\r\n" + (x + d + r))
  {
  }

  lemma LuckyMisread(c: Chunk)
    requires ChunksOk(Lucky(c))
    ensures !SizesRead(InLead("", Lucky(c)), LuckyReceives(c))
  {
    hide ChunksOk;
    var cs, receives := Lucky(c), LuckyReceives(c);
    var p := InLead("", cs);
    var p1 := Advance(p);
    assert "1"[..1] == "1" && "1"[1..] == "" && ";1"[1..] == "1" && "1" + "1" == "11";
    assert p1 == InDigits("1", "", cs);
    var p2 := Advance(p1);
    AdvanceOk(p);
    AdvanceOk(p1);
    assert AdvanceBy(p, 2) == AdvanceBy(p1, 1) == AdvanceBy(p2, 0) == p2;
    var q := Past(p, "1;");
    assert q == InExtension("1", true, "1", cs);
    AdvanceOk(q);
    var q1 := Advance(q);
    AdvanceOk(q1);
    var q2 := Advance(q1);
    assert q2 == BeforeLF("11", cs);
    assert "11"[..1] == "1" && "1"[..0] == "" && HexValue("1") == 1 && HexValue("11") == 17;
    var n := |receives[1]|;
    assert !LinesRead(q2, n - 2);
    assert !LinesRead(q1, n - 1);
    assert !LinesRead(q, n);
    assert receives[1..][0] == receives[1];
  }

  lemma LuckyRun(c: Chunk)
    requires Echo(c) && |c.data| == 16
    ensures FeedAll(START, LuckyReceives(c)) == Decoder(Done, "", 0, "X" + c.data)
  {
    hide Feed, ChunkOk;
    var one, b := Decoder(Digits, "1", 0, ""), LuckyReceives(c)[1];
    BeforeCut();
    LuckyFeed(c);
    assert LuckyReceives(c)[1..] == [b] && [b][1..] == [];
    assert FeedAll(START, LuckyReceives(c)) == FeedAll(one, [b]) == FeedAll(Feed(one, b), []);
  }

  lemma LuckyFeed(c: Chunk)
    requires Echo(c) && |c.data| == 16
    ensures Feed(Decoder(Digits, "1", 0, ""), LuckyReceives(c)[1]) == Decoder(Done, "", 0, "X" + c.data)
  {
    hide Run, Step, WrappedValue, Resume, Echo;
    var taken := "X" + c.data;
    ElevenTaken(taken, LuckyRest(c));
    EmptyLine(taken, ("\r\n" + (c.digits + c.ext)) + "\r\n0\r\n");
    ResumeDone(taken);
  }

  /** With the second 1 the size is 17. */
  lemma ElevenTaken(taken: string, rest: string)
    requires |taken| == 17
    ensures Run(Decoder(Digits, "1", 0, ""), "1\r\n" + (taken + rest)) == Run(Decoder(SkipCR, "", 0, taken), rest)
  {
    hide Run, Step, WrappedValue, Resume;
    var w := taken + rest;
    var eleven := Decoder(Digits, "11", 0, "");
    assert "1\r\n" + w == "1" + ("\r\n" + w) && "1" + "1" == "11";
    RunDigits(Decoder(Digits, "1", 0, ""), "1", "\r\n" + w);
    RunLineEnd(eleven, w);
    LuckySize();
    assert w[..17] == taken && w[17..] == rest && "" + taken == taken;
    RunData(Decoder(Data, "", 17, ""), w, 17);
  }

  lemma ResumeDone(content: string)
    ensures Resume(Decoder(Done, "", 0, content)) == Decoder(Done, "", 0, content)
  {
  }

  lemma LuckySize()
    ensures AllHex("11") && WrappedValue("11") == 17
  {
    assert "11"[..1] == "1" && "1"[..0] == "" && WrappedValue("1") == 1;
  }

  /** A line without digits ends the body, like a zero. */
  lemma EmptyLine(content: string, s: string)
    requires s != "" && "\r\n" <= s
    ensures Run(Decoder(SkipCR, "", 0, content), "\r\n" + s) == Decoder(Done, "", 0, content)
  {
    var w := "\r\n" + s;
    var rest := s[2..];
    assert w == "\r\n\r\n" + rest;
    var s1, s2, s3 := w[1..], w[2..], w[3..];
    assert s1[1..] == s2 && s2[1..] == s3 && s3[1..] == rest;
    var d0 := Decoder(SkipCR, "", 0, content);
    var d1, d2, d3 := d0.(phase := SkipLF), d0.(phase := Digits), d0.(phase := LineFeed);
    assert Run(d0, w) == Run(d1, s1);
    assert Run(d1, s1) == Run(d2, s2);
    assert Run(d2, s2) == Run(d3, s3);
    assert Run(d3, s3) == Run(Decoder(Done, "", 0, content), rest);
    RunDone(Decoder(Done, "", 0, content), rest);
  }

  const ECHO := Chunk("10", ";xy", "\r\n10;xy" + ("\r\n" + "\r\n10;xy"))

  lemma EchoOk()
    ensures Echo(ECHO) && |ECHO.data| == 16
  {
    assert "10"[..1] == "1" && "1"[..0] == "" && HexValue("1") == 1;
    assert "\r\n" + ("10" + ";xy") == "\r\n10;xy";
  }

  /**
   That the sizes are read is not necessary for the final content: a wire cut so that a size is
   misread and whose payload comes out all the same.
   */
  lemma MisreadStillDecodes()
    ensures var cs, receives := Lucky(ECHO), LuckyReceives(ECHO);
            && ChunksOk(cs) && Concat(receives) == Wire(cs, "")
            && !SizesRead(InLead("", cs), receives)
            && FeedAll(START, receives) == Decoder(Done, "", 0, Payload(cs))
  {
    hide ChunksOk, Wire, Payload, SizesRead, FeedAll, Concat;
    EchoOk();
    LuckyOk(ECHO);
    LuckyWire(ECHO);
    LuckyMisread(ECHO);
    LuckyRun(ECHO);
  }

  lemma {:induction false} RunExtension(st: Decoder, ext: string, s: string)
    requires Valid(st) && st.phase == Extension && NoLineBreak(ext)
    ensures Run(st, ext + s) == Run(st, s)
    decreases |ext|
  {
    if ext == "" {
      assert ext + s == s;
    } else {
      assert (ext + s)[0] == ext[0] && (ext + s)[1..] == ext[1..] + s;
      RunExtension(st, ext[1..], s);
    }
  }

  /** A line ends with CR LF or with LF alone. */
  lemma RunLineBreak(st: Decoder, eol: string, s: string)
    requires Valid(st) && st.phase in {Digits, Extension} && eol in {"\r\n", "\n"}
    ensures Valid(FinishLine(st)) && Run(st, eol + s) == Run(FinishLine(st), s)
  {
    hide WrappedValue;
    if eol == "\n" {
      assert (eol + s)[0] == '\n' && (eol + s)[1..] == s;
    } else {
      var s1, st1 := "\n" + s, st.(phase := LineFeed);
      assert (eol + s)[0] == '\r' && (eol + s)[1..] == s1 && s1[1..] == s;
      assert Run(st, eol + s) == Run(st1, s1) == Run(FinishLine(st1), s);
    }
  }

  /** What precedes the first digit: a line break, half of one, or nothing. */
  lemma RunLead(st: Decoder, lead: string, c: char, s: string)
    requires Valid(st) && st.phase == SkipCR && lead in {"", "\r", "\n", "\r\n"} && IsHexDigit(c)
    ensures Valid(st.(phase := Digits, digits := [c]))
    ensures Run(st, lead + ([c] + s)) == Run(st.(phase := Digits, digits := [c]), s)
  {
    var w, t := lead + ([c] + s), [c] + s;
    assert t[0] == c && t[1..] == s && "" + [c] == [c];
    var d := st.(phase := Digits, digits := [c]);
    if lead == "" {
      assert w == t;
    } else if |lead| == 1 {
      assert w[0] == lead[0] && w[1..] == t;
      assert Run(st, w) == Run(Step(st, lead[0]), t) == Run(d, s);
    } else {
      var u := "\n" + t;
      assert w[0] == '\r' && w[1..] == u && u[0] == '\n' && u[1..] == t;
      assert Run(st, w) == Run(st.(phase := SkipLF), u) == Run(st.(phase := Digits), t) == Run(d, s);
    }
  }

  /** A CR that no LF follows is as if the line had been cut there. */
  lemma StrayCarriageReturn(st: Decoder, c: char, s: string)
    requires Valid(st) && st.phase == LineFeed && c != '\n'
    ensures Valid(Resume(st)) && Run(st, [c] + s) == Run(Resume(st), [c] + s)
  {
    assert ([c] + s)[0] == c;
  }

  lemma SizeLineRuns(st: Decoder, lead: string, d: string, ext: string, eol: string)
    requires Valid(st) && st.phase == SkipCR && lead in {"", "\r", "\n", "\r\n"} && eol in {"\r\n", "\n"}
    requires 1 <= |d| <= 31 && AllHex(d) && NoLineBreak(ext) && (|d| == 31 || ext == "" || !IsHexDigit(ext[0]))
    ensures Feed(st, lead + (d + (ext + eol))) == FinishLine(Decoder(LineFeed, d, 0, st.content))
  {
    hide WrappedValue, Run, AllHex, NoLineBreak;
    var more := ext + eol;
    var st1, st2 := st.(phase := Digits, digits := d[..1]), st.(phase := Digits, digits := d);
    assert d[..1] == [d[0]] && d[..1] + d[1..] == d && [d[0]] + (d[1..] + more) == d + more;
    HexAt(d);
    RunLead(st, lead, d[0], d[1..] + more);
    RunDigits(st1, d[1..], more);
    assert eol + "" == eol;
    if ext == "" {
      assert more == eol;
      RunLineBreak(st2, eol, "");
    } else {
      ExtensionStarts(st2, ext, eol);
      RunLineBreak(st2.(phase := Extension), eol, "");
    }
    RunNone(FinishLine(st2));
  }

  lemma HexAt(d: string)
    requires d != "" && AllHex(d)
    ensures IsHexDigit(d[0]) && AllHex(d[1..]) && AllHex([d[0]])
  {
  }

  lemma ExtensionStarts(st: Decoder, ext: string, s: string)
    requires Valid(st) && st.phase == Digits && ext != "" && NoLineBreak(ext)
    requires |st.digits| == MAX_DIGITS || !IsHexDigit(ext[0])
    ensures Run(st, ext + s) == Run(st.(phase := Extension), s)
  {
    assert (ext + s)[0] == ext[0] && (ext + s)[1..] == ext[1..] + s;
    RunExtension(st.(phase := Extension), ext[1..], s);
  }

  lemma RunNone(st: Decoder)
    requires Valid(st)
    ensures Run(st, "") == st
  {
  }

  /**
   What any size line does, also beyond what the format promises: behind a line break, half of
   one or none, with any extension, ended by CR LF or LF; digits behind the 31st belong to the
   extension.  A size is taken modulo 2^32; a multiple
   of 2^32 ends the body, and a remainder of 2^31 or more makes the copy leave the receive buffer,
   because the C code compares it as a signed int.
   */
  lemma AnySizeLine(st: Decoder, lead: string, d: string, ext: string, eol: string)
    requires Valid(st) && st.phase == SkipCR && lead in {"", "\r", "\n", "\r\n"} && eol in {"\r\n", "\n"}
    requires 1 <= |d| <= 31 && AllHex(d) && NoLineBreak(ext) && (|d| == 31 || ext == "" || !IsHexDigit(ext[0]))
    ensures var size := HexValue(d) % 0x1_0000_0000; var st' := Feed(st, lead + (d + (ext + eol)));
            && (st'.phase == Done <==> size == 0)
            && (st'.phase == Data <==> 0 < size < 0x8000_0000) && (st'.phase == Data ==> st'.owed == size)
            && (st'.phase == Overrun <==> 0x8000_0000 <= size)
            && st'.content == st.content
  {
    hide AllHex, NoLineBreak, HexValue, Feed;
    SizeLineRuns(st, lead, d, ext, eol);
    WrappedValueIsModular(d);
  }
}
