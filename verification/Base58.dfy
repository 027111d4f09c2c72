/**
 base58.cpp: text in blocks of eleven letters for eight bytes, shorter for the last block.
 This file says what the codec computes and proves its round trips; Base58Codec runs it.
 */
module Base58 {
  import opened Common
  import opened Positional
  import opened Varint

  const ALPHABET := "123456789" + "ABCDEFGH" + "JKLMN" + "PQRSTUVWXYZ" + "abcdefghijk" + "mnopqrstuvwxyz"
  const ENCODED_SIZES: seq<nat> := [0, 2, 3, 5, 6, 7, 9, 10, 11]
  const FULL_BLOCK: nat := 8
  const FULL_ENCODED: nat := 11

  // ---------------------------------------------------------------- letters

  function Letter(d: nat): char
    requires d < 58
  {
    if d < 9 then ('1' as int + d) as char
    else if d < 17 then ('A' as int + d - 9) as char
    else if d < 22 then ('J' as int + d - 17) as char
    else if d < 33 then ('P' as int + d - 22) as char
    else if d < 44 then ('a' as int + d - 33) as char
    else ('m' as int + d - 44) as char
  }

  /** The digit a letter stands for, or -1. */
  function DigitOf(c: char): int {
    if '1' <= c <= '9' then c as int - '1' as int
    else if 'A' <= c <= 'H' then c as int - 'A' as int + 9
    else if 'J' <= c <= 'N' then c as int - 'J' as int + 17
    else if 'P' <= c <= 'Z' then c as int - 'P' as int + 22
    else if 'a' <= c <= 'k' then c as int - 'a' as int + 33
    else if 'm' <= c <= 'z' then c as int - 'm' as int + 44
    else -1
  }

  lemma Segments(i: nat)
    ensures i < 9 ==> "123456789"[i] == ('1' as int + i) as char
    ensures i < 8 ==> "ABCDEFGH"[i] == ('A' as int + i) as char
    ensures i < 5 ==> "JKLMN"[i] == ('J' as int + i) as char
    ensures i < 11 ==> "PQRSTUVWXYZ"[i] == ('P' as int + i) as char
    ensures i < 11 ==> "abcdefghijk"[i] == ('a' as int + i) as char
    ensures i < 14 ==> "mnopqrstuvwxyz"[i] == ('m' as int + i) as char
  {
  }

  /** The alphabet lists the letters by digit. */
  lemma AlphabetAt(d: nat)
    requires d < 58
    ensures |ALPHABET| == 58 && ALPHABET[d] == Letter(d)
  {
    if d < 9 {
      Segments(d);
    } else if d < 17 {
      Segments(d - 9);
    } else if d < 22 {
      Segments(d - 17);
    } else if d < 33 {
      Segments(d - 22);
    } else if d < 44 {
      Segments(d - 33);
    } else {
      Segments(d - 44);
    }
  }

  /** Letters and digits determine each other. */
  lemma LettersAndDigits(d: nat, c: char)
    ensures d < 58 ==> DigitOf(Letter(d)) == d
    ensures -1 <= DigitOf(c) < 58
    ensures 0 <= DigitOf(c) ==> Letter(DigitOf(c)) == c
  {
  }

  function Letters(ds: seq<nat>): (t: string)
    requires InBase(ds, 58)
    ensures |t| == |ds|
  {
    seq(|ds|, i requires 0 <= i < |ds| => Letter(ds[i]))
  }

  predicate InAlphabet(t: string) {
    forall i :: 0 <= i < |t| ==> 0 <= DigitOf(t[i])
  }

  function DigitsOf(t: string): (ds: seq<nat>)
    requires InAlphabet(t)
    ensures |ds| == |t| && forall i :: 0 <= i < |t| ==> ds[i] == DigitOf(t[i])
  {
    seq(|t|, i requires 0 <= i < |t| => DigitOf(t[i]))
  }

  lemma DigitsOfLetters(ds: seq<nat>)
    requires InBase(ds, 58)
    ensures InAlphabet(Letters(ds)) && DigitsOf(Letters(ds)) == ds
  {
    forall i | 0 <= i < |ds| ensures DigitOf(Letters(ds)[i]) == ds[i] {
      LettersAndDigits(ds[i], ' ');
    }
  }

  lemma LettersOfDigits(t: string)
    requires InAlphabet(t)
    ensures InBase(DigitsOf(t), 58) && Letters(DigitsOf(t)) == t
  {
    forall i | 0 <= i < |t| ensures DigitOf(t[i]) < 58 && Letter(DigitOf(t[i])) == t[i] {
      LettersAndDigits(0, t[i]);
    }
  }

  // ---------------------------------------------------------------- one block

  function ToBytes(v: nat, n: nat): (bs: seq<Byte>)
    ensures |bs| == n
  {
    DigitsInBase(v, n, 256);
    ToDigits(v, n, 256)
  }

  /** The number of bytes a text block of a given length stands for, or -1. */
  function DecodedSize(e: nat): int {
    if e == 0 then 0
    else if e == 2 then 1
    else if e == 3 then 2
    else if e == 5 then 3
    else if e == 6 then 4
    else if e == 7 then 5
    else if e == 9 then 6
    else if e == 10 then 7
    else if e == 11 then 8
    else -1
  }

  /** The size tables are inverse to each other. */
  lemma SizeTables(s: nat, e: nat)
    ensures s <= 8 ==> DecodedSize(ENCODED_SIZES[s]) == s
    ensures -1 <= DecodedSize(e) <= 8 && (0 <= DecodedSize(e) ==> ENCODED_SIZES[DecodedSize(e)] == e)
  {
  }

  function EncodeBlock(block: seq<Byte>): (t: string)
    requires |block| <= 8
    ensures |t| == ENCODED_SIZES[|block|]
  {
    var e := ENCODED_SIZES[|block|];
    DigitsInBase(Value(block, 256), e, 58);
    Letters(ToDigits(Value(block, 256), e, 58))
  }

  function DecodeBlock(t: string): (r: Option<seq<Byte>>)
    ensures r.Some? ==> |r.value| == DecodedSize(|t|)
  {
    if DecodedSize(|t|) <= 0 || !InAlphabet(t) then None
    else
      var v := Value(DigitsOf(t), 58);
      if v < Pow(256, DecodedSize(|t|)) then Some(ToBytes(v, DecodedSize(|t|))) else None
  }

  lemma Powers256()
    ensures Pow(256, 1) == 0x100 && Pow(256, 2) == 0x1_0000 && Pow(256, 3) == 0x100_0000 && Pow(256, 4) == 0x1_0000_0000
    ensures Pow(256, 5) == 0x100_0000_0000 && Pow(256, 6) == 0x1_0000_0000_0000
    ensures Pow(256, 7) == 0x100_0000_0000_0000 && Pow(256, 8) == 0x1_0000_0000_0000_0000
  {
    assert Pow(256, 1) == 0x100;
    assert Pow(256, 3) == 256 * (256 * Pow(256, 1));
    assert Pow(256, 5) == 256 * (256 * Pow(256, 3));
    assert Pow(256, 7) == 256 * (256 * Pow(256, 5));
  }

  lemma Powers58()
    ensures Pow(58, 1) == 58 && Pow(58, 4) == 11316496 && Pow(58, 8) == 128063081718016
    ensures Pow(58, 2) == 3364 && Pow(58, 3) == 195112 && Pow(58, 5) == 656356768 && Pow(58, 6) == 38068692544
    ensures Pow(58, 7) == 2207984167552 && Pow(58, 9) == 7427658739644928 && Pow(58, 10) == 430804206899405824
    ensures Pow(58, 11) == 24986644000165537792
  {
    assert Pow(58, 1) == 58;
    assert Pow(58, 3) == 58 * (58 * Pow(58, 1));
    assert Pow(58, 5) == 58 * (58 * Pow(58, 3));
    assert Pow(58, 7) == 58 * (58 * Pow(58, 5));
    assert Pow(58, 9) == 58 * (58 * Pow(58, 7));
    assert Pow(58, 11) == 58 * (58 * Pow(58, 9));
  }

  /** Every block of bytes has enough letters, and with one less some would not. */
  lemma Capacity(s: nat)
    requires s <= 8
    ensures Pow(256, s) <= Pow(58, ENCODED_SIZES[s])
    ensures s > 0 ==> Pow(58, ENCODED_SIZES[s] - 1) < Pow(256, s)
  {
    hide Pow;
    Powers256();
    Powers58();
    PowZero();
  }

  lemma PowZero()
    ensures Pow(256, 0) == 1 && Pow(58, 0) == 1
  {
  }

  lemma BytesInBase(block: seq<Byte>)
    ensures InBase(block, 256)
  {
  }

  /** A block and its letters are the same number, in base 256 and in base 58, the first digit weighing most. */
  lemma BlockMeans(block: seq<Byte>)
    requires |block| <= 8
    ensures InAlphabet(EncodeBlock(block)) && Value(DigitsOf(EncodeBlock(block)), 58) == Value(block, 256)
  {
    hide Pow, Value, ToDigits;
    var v, e := Value(block, 256), ENCODED_SIZES[|block|];
    BytesInBase(block);
    ValueBound(block, 256);
    Capacity(|block|);
    DigitsInBase(v, e, 58);
    DigitsOfLetters(ToDigits(v, e, 58));
    ValueOfDigits(v, e, 58);
  }

  lemma BlockRoundTrip(block: seq<Byte>)
    requires 1 <= |block| <= 8
    ensures DecodeBlock(EncodeBlock(block)) == Some(block)
  {
    hide Pow, Value, ToDigits;
    var s := |block|;
    var v, e := Value(block, 256), ENCODED_SIZES[s];
    SizeTables(s, e);
    BytesInBase(block);
    ValueBound(block, 256);
    Capacity(s);
    DigitsInBase(v, e, 58);
    DigitsOfLetters(ToDigits(v, e, 58));
    ValueOfDigits(v, e, 58);
    DigitsOfValue(block, 256);
  }

  lemma BlockConverse(t: string)
    requires DecodeBlock(t).Some?
    ensures EncodeBlock(DecodeBlock(t).value) == t
  {
    hide Pow, Value, ToDigits;
    var s := DecodedSize(|t|);
    SizeTables(0, |t|);
    var ds := DigitsOf(t);
    LettersOfDigits(t);
    ValueOfDigits(Value(ds, 58), s, 256);
    DigitsOfValue(ds, 58);
  }

  // ---------------------------------------------------------------- whole texts

  function Encode(data: seq<Byte>): string
    decreases |data|
  {
    if |data| < FULL_BLOCK then EncodeBlock(data)
    else EncodeBlock(data[..FULL_BLOCK]) + Encode(data[FULL_BLOCK..])
  }

  function Decode(t: string): Option<seq<Byte>>
    decreases |t|
  {
    if t == "" then Some([])
    else if |t| < FULL_ENCODED then DecodeBlock(t)
    else
      var first, rest := DecodeBlock(t[..FULL_ENCODED]), Decode(t[FULL_ENCODED..]);
      if first.Some? && rest.Some? then Some(first.value + rest.value) else None
  }

  lemma EncodeNothing()
    ensures EncodeBlock([]) == ""
  {
  }

  /** Blocks of eight bytes are encoded on their own. */
  lemma {:induction false} EncodeSplits(a: seq<Byte>, b: seq<Byte>)
    requires |a| % 8 == 0
    ensures Encode(a + b) == Encode(a) + Encode(b)
    decreases |a|
  {
    hide EncodeBlock;
    if a == [] {
      EncodeNothing();
      assert a + b == b;
    } else {
      assert (a + b)[..8] == a[..8] && (a + b)[8..] == a[8..] + b;
      EncodeSplits(a[8..], b);
    }
  }

  /** How long an encoding is. */
  lemma {:induction false} EncodeLength(data: seq<Byte>)
    ensures |Encode(data)| == 11 * (|data| / 8) + ENCODED_SIZES[|data| % 8]
    decreases |data|
  {
    hide EncodeBlock;
    if |data| < 8 {
    } else {
      var more := data[8..];
      EncodeLength(more);
      assert |data| / 8 == |more| / 8 + 1 && |data| % 8 == |more| % 8;
      assert |EncodeBlock(data[..8])| == 11;
    }
  }

  /** Every byte string survives encoding. */
  lemma {:induction false} RoundTrip(data: seq<Byte>)
    ensures Decode(Encode(data)) == Some(data)
    decreases |data|
  {
    hide EncodeBlock, DecodeBlock;
    if |data| < FULL_BLOCK {
      if data == [] {
        EncodeNothing();
      } else {
        BlockRoundTrip(data);
        ShortBlocks(|data|);
      }
    } else {
      var a, b := data[..FULL_BLOCK], data[FULL_BLOCK..];
      BlockRoundTrip(a);
      RoundTrip(b);
      var t := Encode(data);
      assert t[..FULL_ENCODED] == EncodeBlock(a) && t[FULL_ENCODED..] == Encode(b);
      assert a + b == data;
    }
  }

  lemma ShortBlocks(s: nat)
    requires 0 < s < 8
    ensures 0 < ENCODED_SIZES[s] < FULL_ENCODED
  {
  }

  /** Every accepted text is the encoding of what it decodes to, so no bytes have two spellings. */
  lemma {:induction false} Converse(t: string)
    requires Decode(t).Some?
    ensures Encode(Decode(t).value) == t
    decreases |t|
  {
    hide EncodeBlock, DecodeBlock;
    if t == "" {
      EncodeNothing();
    } else if |t| < FULL_ENCODED {
      BlockConverse(t);
    } else {
      var a, b := t[..FULL_ENCODED], t[FULL_ENCODED..];
      BlockConverse(a);
      Converse(b);
      var d := Decode(t).value;
      assert d[..FULL_BLOCK] == DecodeBlock(a).value && d[FULL_BLOCK..] == Decode(b).value;
      assert a + b == t;
    }
  }

  /** The accepted texts are exactly the encodings. */
  lemma AcceptedAreEncodings(t: string)
    ensures Decode(t).Some? <==> exists data: seq<Byte> :: t == Encode(data)
  {
    hide Encode, Decode;
    if Decode(t).Some? {
      Converse(t);
      assert t == Encode(Decode(t).value);
    }
    if data: seq<Byte> :| t == Encode(data) {
      RoundTrip(data);
    }
  }

  /** The k-th block of a text. */
  function BlockAt(t: string, k: nat): string
    requires FULL_ENCODED * k <= |t|
  {
    if FULL_ENCODED * (k + 1) <= |t| then t[FULL_ENCODED * k..FULL_ENCODED * (k + 1)] else t[FULL_ENCODED * k..]
  }

  /** A text whose length, letters and block values are in range. */
  ghost predicate Acceptable(t: string) {
    && 0 <= DecodedSize(|t| % FULL_ENCODED)
    && InAlphabet(t)
    && forall k :: 0 <= k && FULL_ENCODED * k < |t| ==> BlockFits(BlockAt(t, k))
  }

  ghost predicate BlockFits(b: string) {
    InAlphabet(b) && 0 <= DecodedSize(|b|) && Value(DigitsOf(b), 58) < Pow(256, DecodedSize(|b|))
  }

  /**
   Decoding succeeds exactly when the length is possible, every letter is known and every
   block's number fits its bytes.
   */
  lemma {:induction false} DecodesExactly(t: string)
    ensures Decode(t).Some? <==> Acceptable(t)
    decreases |t|
  {
    hide DecodeBlock, BlockFits, Acceptable;
    if t == "" {
      EmptyAcceptable();
    } else if |t| < FULL_ENCODED {
      BlockExactly(t);
      ShortAcceptable(t);
    } else {
      BlockExactly(t[..FULL_ENCODED]);
      DecodesExactly(t[FULL_ENCODED..]);
      AcceptableSplit(t);
    }
  }

  lemma EmptyAcceptable()
    ensures Acceptable("")
  {
  }

  lemma BlockExactly(b: string)
    requires b != ""
    ensures DecodeBlock(b).Some? <==> BlockFits(b)
  {
    hide Pow, Value;
  }

  lemma ShortAcceptable(t: string)
    requires 0 < |t| < FULL_ENCODED
    ensures Acceptable(t) <==> BlockFits(t)
  {
    hide Pow, Value;
    assert BlockAt(t, 0) == t;
    assert forall k :: 0 <= k && FULL_ENCODED * k < |t| ==> BlockAt(t, k) == t;
  }

  lemma AcceptableSplit(t: string)
    requires |t| >= FULL_ENCODED
    ensures Acceptable(t) <==> BlockFits(t[..FULL_ENCODED]) && Acceptable(t[FULL_ENCODED..])
  {
    hide BlockFits, DecodedSize;
    var a, b := t[..FULL_ENCODED], t[FULL_ENCODED..];
    assert t == a + b && BlockAt(t, 0) == a;
    forall k | 0 <= k && FULL_ENCODED * k < |b| ensures BlockAt(t, k + 1) == BlockAt(b, k) {
    }
    AlphabetSplit(a, b);
    if Acceptable(t) {
      forall k | 0 <= k && FULL_ENCODED * k < |b| ensures BlockFits(BlockAt(b, k)) {
        assert BlockFits(BlockAt(t, k + 1));
      }
      assert BlockFits(BlockAt(t, 0));
    }
    if BlockFits(a) && Acceptable(b) {
      forall k | 0 <= k && FULL_ENCODED * k < |t| ensures BlockFits(BlockAt(t, k)) {
        if k > 0 {
          assert BlockAt(t, (k - 1) + 1) == BlockAt(b, k - 1);
        }
      }
      FitsIsKnown(a);
    }
  }

  lemma FitsIsKnown(b: string)
    requires BlockFits(b)
    ensures InAlphabet(b)
  {
  }

  lemma AlphabetSplit(a: string, b: string)
    ensures InAlphabet(a + b) <==> InAlphabet(a) && InAlphabet(b)
  {
    var t := a + b;
    assert forall i :: 0 <= i < |a| ==> t[i] == a[i];
    assert forall i :: 0 <= i < |b| ==> t[|a| + i] == b[i];
  }
}
