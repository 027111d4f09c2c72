/**
 base58.cpp as it runs: lookup tables filled by loops, blocks written into a prefilled buffer,
 overflow found by wrap-around.
 */
module Base58Codec {
  import opened Common
  import opened Positional
  import opened IntUtil
  import opened Varint
  import opened Base58

  // ---------------------------------------------------------------- the tables

  class ReverseAlphabet {
    var data: seq<int>

    ghost predicate Valid()
      reads this
    {
      |data| == 74 && forall i :: 0 <= i < 74 ==> data[i] == DigitOf((i + '1' as int) as char)
    }

    constructor ()
      ensures Valid()
    {
      AlphabetAt(0);
      var table := seq(74, _ => -1);
      var i := 0;
      while i < |ALPHABET|
        invariant 0 <= i <= 58 && |table| == 74
        invariant forall x :: 0 <= x < 74 ==> table[x] == Filled(x, i)
      {
        AlphabetAt(i);
        LettersAndDigits(i, ' ');
        var idx := ALPHABET[i] as int - ALPHABET[0] as int;
        forall x | 0 <= x < 74 ensures Filled(x, i + 1) == if x == idx then i else Filled(x, i) {
          LettersAndDigits(i, (x + '1' as int) as char);
        }
        table := table[idx := i];
        i := i + 1;
      }
      forall x | 0 <= x < 74 ensures Filled(x, 58) == DigitOf((x + '1' as int) as char) {
        LettersAndDigits(0, (x + '1' as int) as char);
      }
      data := table;
    }

    /** The unsigned index of a letter below '1' wraps around and is out of range too. */
    method Digit(letter: char) returns (digit: int)
      requires Valid()
      ensures digit == DigitOf(letter)
    {
      var idx := letter as int - '1' as int;
      if idx < 0 {
        idx := idx + TWO_64;
      }
      return if idx < |data| then data[idx] else -1;
    }
  }

  /** The table after the first n letters were entered. */
  function Filled(x: nat, n: nat): int
    requires x < 74
  {
    var d := DigitOf((x + '1' as int) as char);
    if 0 <= d < n then d else -1
  }

  class DecodedBlockSizes {
    var data: seq<int>

    ghost predicate Valid()
      reads this
    {
      |data| == 12 && forall e :: 0 <= e < 12 ==> data[e] == DecodedSize(e)
    }

    constructor ()
      ensures Valid()
    {
      var table := seq(12, _ => -1);
      var i := 0;
      while i <= FULL_BLOCK
        invariant 0 <= i <= 9 && |table| == 12
        invariant forall e :: 0 <= e < 12 ==> table[e] == if 0 <= DecodedSize(e) < i then DecodedSize(e) else -1
      {
        forall e | 0 <= e < 12 ensures DecodedSize(e) == i <==> e == ENCODED_SIZES[i] {
          SizeTables(i, e);
        }
        table := table[ENCODED_SIZES[i] := i];
        i := i + 1;
      }
      data := table;
    }

    method Size(e: nat) returns (s: int)
      requires Valid() && e <= FULL_ENCODED
      ensures s == DecodedSize(e)
    {
      return data[e];
    }
  }

  // ---------------------------------------------------------------- bytes and words

  lemma AppendedByte(res: nat, byte: Byte)
    requires res < Pow2(56)
    ensures Or(res * TWO_8 % TWO_64, byte) == res * TWO_8 + byte < TWO_64
  {
    hide Or, Pow2;
    Powers();
    Pow2Byte(56);
    OrDisjoint(byte, res, 8);
  }

  /** uint_8be_to_64: the fall-through switch shifts in one byte per case. */
  method Uint8beTo64(data: seq<Byte>) returns (res: U64)
    requires 1 <= |data| <= 8
    ensures res == Value(data, 256)
  {
    hide Or, Pow2, Pow;
    res := 0;
    var k := 0;
    assert data[..0] == [];
    while k < |data|
      invariant k <= |data| && res == Value(data[..k], 256)
    {
      BytesInBase(data[..k]);
      ValueBound(data[..k], 256);
      PowBytes(k);
      Varint.Pow2Grows(8 * k, 56);
      AppendedByte(res, data[k]);
      assert data[..k + 1][..k] == data[..k];
      res := Or(res * TWO_8 % TWO_64, data[k]);
      k := k + 1;
    }
    assert data[..k] == data;
  }

  /** uint_64_to_8be: the last `size` bytes of the byte-swapped number in memory. */
  method Uint64To8be(num: U64, size: nat) returns (data: seq<Byte>)
    requires 1 <= size <= 8
    ensures data == ToBytes(num, size)
  {
    hide Swap64, ToDigits;
    SwappedMemory(num);
    DigitsSuffix(num, 8, size, 256);
    DigitsInBase(num, size, 256);
    var numBe: U64 := Swap64(num);
    var memory := Memory(numBe);
    data := memory[8 - size..];
  }

  // ---------------------------------------------------------------- encoding

  /** What is left of v after x digits were taken off. */
  ghost function Left(v: nat, x: nat): nat {
    PowPositive(58, x);
    v / Pow(58, x)
  }

  lemma LeftStep(v: nat, x: nat)
    ensures Left(v, x + 1) == Left(v, x) / 58
    ensures Left(v, 0) == v
  {
    PowPositive(58, x);
    DivDiv(v, Pow(58, x), 58);
  }

  lemma {:induction false} LeftNothing(v: nat, n: nat, x: nat)
    requires Left(v, n) == 0 && n <= x
    ensures Left(v, x) == 0
    decreases x - n
  {
    hide Left;
    if n == x {
    } else {
      LeftNothing(v, n, x - 1);
      LeftStep(v, x - 1);
    }
  }

  lemma LeftEnds(v: nat, n: nat)
    requires v < Pow(58, n)
    ensures Left(v, n) == 0
  {
    hide Pow;
    DivSmall(v, Pow(58, n));
  }

  lemma DivSmall(v: nat, p: nat)
    requires v < p
    ensures v / p == 0
  {
    DivModOf(0, p, v);
  }

  lemma LeftIsDigit(v: nat, n: nat, x: nat)
    requires x < n
    ensures ToDigits(v, n, 58)[n - 1 - x] == Left(v, x) % 58
  {
    DigitAt(v, n, x, 58);
  }

  /** encode_block: digits from the back into a buffer of '1's. */
  method EncodeBlockInto(block: seq<Byte>, res: array<char>, at: nat)
    requires 1 <= |block| <= 8 && at + ENCODED_SIZES[|block|] <= res.Length
    requires forall j :: at <= j < at + ENCODED_SIZES[|block|] ==> res[j] == ALPHABET[0]
    modifies res
    ensures res[at..at + ENCODED_SIZES[|block|]] == EncodeBlock(block)
    ensures forall j :: 0 <= j < res.Length && !(at <= j < at + ENCODED_SIZES[|block|]) ==> res[j] == old(res[j])
  {
    hide Left, Pow, Value, EncodeBlock, LetterAt, Letter;
    var num: nat := Uint8beTo64(block);
    ghost var v, e := num, ENCODED_SIZES[|block|];
    BlockValueFits(block);
    LeftEnds(v, e);
    LeftStep(v, 0);
    FirstLetter();
    var i: int := ENCODED_SIZES[|block|] - 1;
    while 0 < num
      invariant -1 <= i < e && num == Left(v, e - 1 - i)
      invariant forall j :: at + i < j < at + e ==> res[j] == LetterAt(v, at + e - 1 - j)
      invariant forall j :: at <= j <= at + i ==> res[j] == ALPHABET[0]
      invariant forall j :: 0 <= j < res.Length && !(at <= j < at + e) ==> res[j] == old(res[j])
      decreases num
    {
      assert i >= 0;
      var remainder := num % 58;
      TakeDigit(v, e - 1 - i);
      num := num / 58;
      res[at + i] := ALPHABET[remainder];
      i := i - 1;
    }
    forall j | at <= j <= at + i ensures res[j] == LetterAt(v, at + e - 1 - j) {
      LeadingOnes(v, e - 1 - i, at + e - 1 - j);
    }
    BlockLetters(block, res[at..at + e]);
  }

  /** The letter at place x, counted from the last one. */
  ghost function LetterAt(v: nat, x: nat): char { Letter(Left(v, x) % 58) }

  lemma TakeDigit(v: nat, x: nat)
    ensures |ALPHABET| == 58 && ALPHABET[Left(v, x) % 58] == LetterAt(v, x) && Left(v, x + 1) == Left(v, x) / 58
  {
    hide Left;
    AlphabetAt(Left(v, x) % 58);
    LeftStep(v, x);
  }

  lemma LeadingOnes(v: nat, n: nat, x: nat)
    requires Left(v, n) == 0 && n <= x
    ensures |ALPHABET| == 58 && LetterAt(v, x) == ALPHABET[0]
  {
    hide Left;
    LeftNothing(v, n, x);
    FirstLetter();
  }

  lemma BlockLetters(block: seq<Byte>, text: string)
    requires |block| <= 8 && |text| == ENCODED_SIZES[|block|]
    requires forall k :: 0 <= k < |text| ==> text[k] == LetterAt(Value(block, 256), |text| - 1 - k)
    ensures text == EncodeBlock(block)
  {
    hide Left, Value, ToDigits, Letter;
    var v, e := Value(block, 256), |text|;
    DigitsInBase(v, e, 58);
    forall k | 0 <= k < e ensures text[k] == EncodeBlock(block)[k] {
      LeftIsDigit(v, e, e - 1 - k);
    }
  }

  lemma BlockValueFits(block: seq<Byte>)
    requires |block| <= 8
    ensures Value(block, 256) < Pow(58, ENCODED_SIZES[|block|])
  {
    BytesInBase(block);
    ValueBound(block, 256);
    Capacity(|block|);
  }

  lemma FirstLetter()
    ensures |ALPHABET| == 58 && ALPHABET[0] == Letter(0)
  {
    AlphabetAt(0);
  }

  // ---------------------------------------------------------------- decoding

  /** Overflow shows in the high word or in the wrapped sum. */
  lemma WrapDetects(num: U64, lo: U64, hi: U64)
    ensures ((num + lo) % TWO_64 < num || hi != 0) <==> num + (hi * TWO_64 + lo) >= TWO_64
    ensures hi == 0 && num + lo < TWO_64 ==> (num + lo) % TWO_64 == num + lo
  {
  }

  lemma {:induction false} SuffixValue(ds: seq<nat>, k: nat)
    requires k <= |ds|
    ensures Value(ds[k..], 58) <= Value(ds, 58)
    decreases k
  {
    if k == 0 {
      assert ds[0..] == ds;
    } else {
      ValueFirst(ds, 58);
      SuffixValue(ds[1..], k - 1);
      assert ds[1..][k - 1..] == ds[k..];
    }
  }

  lemma SuffixKnown(t: string, k: nat)
    requires k <= |t| && InAlphabet(t)
    ensures InAlphabet(t[k..]) && DigitsOf(t[k..]) == DigitsOf(t)[k..]
  {
  }

  /** One more letter to the left. */
  lemma PrependLetter(t: string, i: nat)
    requires i < |t| && InAlphabet(t[i + 1..]) && 0 <= DigitOf(t[i])
    ensures InAlphabet(t[i..])
    ensures Value(DigitsOf(t[i..]), 58) == Pow(58, |t| - 1 - i) * DigitOf(t[i]) + Value(DigitsOf(t[i + 1..]), 58)
  {
    hide Pow, DigitOf, Value;
    var s, more := t[i..], t[i + 1..];
    assert s[0] == t[i] && forall k :: 1 <= k < |s| ==> s[k] == more[k - 1];
    var ds := DigitsOf(s);
    assert ds[1..] == DigitsOf(more);
    ValueFirst(ds, 58);
  }

  /** A suffix whose value leaves 64 bits makes the whole block undecodable. */
  lemma TooLarge(t: string, i: nat)
    requires i <= |t| <= FULL_ENCODED && InAlphabet(t[i..]) && Value(DigitsOf(t[i..]), 58) >= TWO_64
    ensures DecodeBlock(t).None?
  {
    hide Pow, Value, DigitOf;
    if InAlphabet(t) {
      SuffixKnown(t, i);
      SuffixValue(DigitsOf(t), i);
      Powers256();
      PowZero();
      SizeTables(0, |t|);
    }
  }

  /** 58^j fits a word as long as a digit may still be multiplied by it. */
  lemma {:induction false} OrderFits(j: nat)
    requires j <= 10
    ensures Pow(58, j) < TWO_64
    decreases 10 - j
  {
    if j == 10 {
      Powers58();
    } else {
      OrderFits(j + 1);
    }
  }

  /** The value of a block, or nothing if a letter is unknown or the value leaves 64 bits. */
  method BlockValue(rev: ReverseAlphabet, block: string) returns (ok: bool, resNum: U64)
    requires rev.Valid() && |block| <= FULL_ENCODED
    ensures ok ==> InAlphabet(block) && resNum == Value(DigitsOf(block), 58)
    ensures !ok ==> DecodeBlock(block).None?
  {
    hide Pow, Value, DigitOf, DecodeBlock;
    resNum := 0;
    var order: nat := 1;
    PowZero();
    NoDigits();
    var i := |block|;
    assert block[i..] == "";
    while i > 0
      invariant 0 <= i <= |block| && InAlphabet(block[i..])
      invariant resNum == Value(DigitsOf(block[i..]), 58)
      invariant order < TWO_64 && (|block| - i <= 10 ==> order == Pow(58, |block| - i))
    {
      i := i - 1;
      var digit := rev.Digit(block[i]);
      if digit < 0 {
        UnknownLetter(block, i);
        return false, 0;
      }
      LettersAndDigits(0, block[i]);
      PrependLetter(block, i);
      var productLo, productHi := Mul128(order, digit);
      WrapDetects(resNum, productLo, productHi);
      var tmp := (resNum + productLo) % TWO_64;
      if tmp < resNum || 0 != productHi {
        TooLarge(block, i);
        return false, 0;
      }
      resNum := tmp;
      if |block| - i <= 10 {
        OrderFits(|block| - i);
        NextOrder(|block| - i);
      }
      order := order * 58 % TWO_64;
    }
    assert block[0..] == block;
    return true, resNum;
  }

  lemma NextOrder(j: nat)
    requires j > 0
    ensures Pow(58, j) == Pow(58, j - 1) * 58
  {
  }

  lemma NoDigits()
    ensures InAlphabet("") && Value(DigitsOf(""), 58) == 0
  {
  }

  lemma UnknownLetter(t: string, i: nat)
    requires i < |t| && DigitOf(t[i]) < 0
    ensures DecodeBlock(t).None?
  {
  }

  /** decode_block: bytes into the buffer, or false and nothing written. */
  method DecodeBlockInto(rev: ReverseAlphabet, sizes: DecodedBlockSizes, block: string, res: array<Byte>, at: nat)
      returns (ok: bool)
    requires rev.Valid() && sizes.Valid() && 1 <= |block| <= FULL_ENCODED
    requires at + (if DecodedSize(|block|) > 0 then DecodedSize(|block|) else 0) <= res.Length
    modifies res
    ensures ok == DecodeBlock(block).Some?
    ensures ok ==> res[..] == old(res[..at]) + DecodeBlock(block).value + old(res[at + DecodedSize(|block|)..])
    ensures !ok ==> res[..] == old(res[..])
  {
    hide Pow, Value, DigitOf, InAlphabet, ToBytes;
    var resSize := sizes.Size(|block|);
    if resSize <= 0 {
      return false;
    }
    var resNum;
    ok, resNum := BlockValue(rev, block);
    if !ok {
      return;
    }
    LimitIsPower(resSize);
    if resSize < FULL_BLOCK && Pow2(8 * resSize) <= resNum {
      return false;
    }
    var bytes := Uint64To8be(resNum, resSize);
    assert bytes == DecodeBlock(block).value;
    CopyInto(bytes, res, at);
    return true;
  }

  lemma LimitIsPower(s: nat)
    requires 0 < s <= 8
    ensures Pow2(8 * s) == Pow(256, s) && (s == 8 ==> Pow(256, s) == TWO_64)
  {
    PowBytes(s);
    Powers256();
  }

  method CopyInto(bytes: seq<Byte>, res: array<Byte>, at: nat)
    requires at + |bytes| <= res.Length
    modifies res
    ensures res[..] == old(res[..at]) + bytes + old(res[at + |bytes|..])
  {
    forall k | 0 <= k < |bytes| {
      res[at + k] := bytes[k];
    }
  }

  // ---------------------------------------------------------------- whole texts

  lemma EncodeNext(data: seq<Byte>, i: nat)
    requires FULL_BLOCK * (i + 1) <= |data|
    ensures Base58.Encode(data[FULL_BLOCK * i..]) ==
            EncodeBlock(data[FULL_BLOCK * i..FULL_BLOCK * (i + 1)]) + Base58.Encode(data[FULL_BLOCK * (i + 1)..])
  {
    hide EncodeBlock;
    var rest := data[FULL_BLOCK * i..];
    assert rest[..FULL_BLOCK] == data[FULL_BLOCK * i..FULL_BLOCK * (i + 1)]
        && rest[FULL_BLOCK..] == data[FULL_BLOCK * (i + 1)..];
  }

  /** The loop over the full blocks. */
  method EncodeFullBlocks(data: seq<Byte>, res: array<char>, count: nat)
    requires FULL_BLOCK * count <= |data| && FULL_ENCODED * count <= res.Length
    requires forall j :: 0 <= j < res.Length ==> res[j] == ALPHABET[0]
    modifies res
    ensures forall j :: FULL_ENCODED * count <= j < res.Length ==> res[j] == ALPHABET[0]
    ensures res[..FULL_ENCODED * count] + Base58.Encode(data[FULL_BLOCK * count..]) == Base58.Encode(data)
  {
    hide EncodeBlock, Base58.Encode;
    FirstLetter();
    var i := 0;
    assert data[0..] == data && res[..0] == "" && "" + Base58.Encode(data) == Base58.Encode(data);
    while i < count
      invariant 0 <= i <= count
      invariant forall j :: FULL_ENCODED * i <= j < res.Length ==> res[j] == ALPHABET[0]
      invariant res[..FULL_ENCODED * i] + Base58.Encode(data[FULL_BLOCK * i..]) == Base58.Encode(data)
    {
      var block := data[FULL_BLOCK * i..FULL_BLOCK * (i + 1)];
      ghost var done := res[..FULL_ENCODED * i];
      EncodeNext(data, i);
      EncodeBlockInto(block, res, FULL_ENCODED * i);
      Extend(res[..FULL_ENCODED * (i + 1)], done, EncodeBlock(block), Base58.Encode(data[FULL_BLOCK * (i + 1)..]));
      i := i + 1;
    }
  }

  lemma Extend(now: string, done: string, block: string, rest: string)
    requires |now| == |done| + |block| && now[..|done|] == done && now[|done|..] == block
    ensures now + rest == done + (block + rest)
  {
  }

  /** encode: full blocks, then the shorter last one, into a buffer of '1's. */
  method EncodeText(data: seq<Byte>) returns (text: string)
    ensures text == Base58.Encode(data)
  {
    hide EncodeBlock;
    if data == [] {
      EncodeNothing();
      return "";
    }
    var fullBlockCount, lastBlockSize := |data| / FULL_BLOCK, |data| % FULL_BLOCK;
    var resSize := fullBlockCount * FULL_ENCODED + ENCODED_SIZES[lastBlockSize];
    FirstLetter();
    var res := new char[resSize](_ => ALPHABET[0]);
    EncodeFullBlocks(data, res, fullBlockCount);
    ghost var done := res[..FULL_ENCODED * fullBlockCount];
    var last := data[FULL_BLOCK * fullBlockCount..];
    if 0 < lastBlockSize {
      EncodeBlockInto(last, res, FULL_ENCODED * fullBlockCount);
      assert res[..] == done + EncodeBlock(last);
    } else {
      EncodeNothing();
      assert last == [] && res[..] == done && done + "" == done;
    }
    text := res[..];
  }

  /** What a decoded prefix and the rest of a text say about the whole. */
  ghost predicate DecodedSoFar(t: string, done: seq<Byte>, rest: string) {
    Base58.Decode(t) == if Base58.Decode(rest).Some? then Some(done + Base58.Decode(rest).value) else None
  }

  /** decode: the length is checked first, then every block. */
  method DecodeText(t: string) returns (r: Option<seq<Byte>>)
    ensures r == Base58.Decode(t)
  {
    hide DecodeBlock, DecodedSize, Base58.Decode, DecodedSoFar;
    StartDecoding(t);
    if t == "" {
      LastBlock(t, [], t);
      return Some([]);
    }
    var rev := new ReverseAlphabet();
    var sizes := new DecodedBlockSizes();
    var fullBlockCount, lastBlockSize := |t| / FULL_ENCODED, |t| % FULL_ENCODED;
    var lastDecoded := sizes.Size(lastBlockSize);
    if lastDecoded < 0 {
      DecodesExactly(t);
      return None;
    }
    SizeTables(0, lastBlockSize);
    SizeTables(8, 11);
    var data := new Byte[fullBlockCount * FULL_BLOCK + lastDecoded](_ => 0);
    var i := 0;
    assert t[0..] == t && data[..0] == [];
    while i < fullBlockCount
      invariant 0 <= i <= fullBlockCount && rev.Valid() && sizes.Valid()
      invariant DecodedSoFar(t, data[..FULL_BLOCK * i], t[FULL_ENCODED * i..])
    {
      var block := t[FULL_ENCODED * i..FULL_ENCODED * (i + 1)];
      ghost var rest, done := t[FULL_ENCODED * i..], data[..FULL_BLOCK * i];
      assert rest[..FULL_ENCODED] == block && rest[FULL_ENCODED..] == t[FULL_ENCODED * (i + 1)..];
      var ok := DecodeBlockInto(rev, sizes, block, data, FULL_BLOCK * i);
      NextBlock(t, done, rest);
      if !ok {
        return None;
      }
      assert data[..FULL_BLOCK * (i + 1)] == done + DecodeBlock(block).value;
      i := i + 1;
    }
    ghost var done := data[..FULL_BLOCK * i];
    var last := t[FULL_ENCODED * fullBlockCount..];
    LastBlock(t, done, last);
    if 0 < lastBlockSize {
      var ok := DecodeBlockInto(rev, sizes, last, data, FULL_BLOCK * fullBlockCount);
      if !ok {
        return None;
      }
      assert data[..] == done + DecodeBlock(last).value;
    } else {
      NoLetters(lastBlockSize);
      assert last == "" && data[..] == done && done + [] == done;
    }
    return Some(data[..]);
  }

  lemma NoLetters(n: nat)
    requires n == 0
    ensures DecodedSize(n) == 0
  {
  }

  lemma StartDecoding(t: string)
    ensures DecodedSoFar(t, [], t)
  {
    hide Base58.Decode;
    var r := Base58.Decode(t);
    assert r.Some? ==> [] + r.value == r.value;
  }

  lemma LastBlock(t: string, done: seq<Byte>, last: string)
    requires DecodedSoFar(t, done, last) && |last| < FULL_ENCODED
    ensures last == "" ==> Base58.Decode(t) == Some(done)
    ensures var b := DecodeBlock(last);
            last != "" ==> Base58.Decode(t) == if b.Some? then Some(done + b.value) else None
  {
    hide DecodeBlock;
    assert done + [] == done;
  }

  lemma NextBlock(t: string, done: seq<Byte>, rest: string)
    requires DecodedSoFar(t, done, rest) && |rest| >= FULL_ENCODED
    ensures var b := DecodeBlock(rest[..FULL_ENCODED]);
            if b.Some? then DecodedSoFar(t, done + b.value, rest[FULL_ENCODED..]) else Base58.Decode(t).None?
  {
    hide DecodeBlock;
    var b, more := DecodeBlock(rest[..FULL_ENCODED]), Base58.Decode(rest[FULL_ENCODED..]);
    if b.Some? && more.Some? {
      assert done + (b.value + more.value) == (done + b.value) + more.value;
    }
  }
}
