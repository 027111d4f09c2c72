/**
 varint.h: seven bits a byte, least significant first, the top bit on all bytes but the last.
 */
module Varint {
  import opened Common
  import opened IntUtil

  type Byte = x: nat | x < 256

  // ---------------------------------------------------------------- writing

  function Encode(v: nat): seq<Byte> {
    if v < 128 then [v] else [v % 128 + 128] + Encode(v / 128)
  }

  lemma EncodeUnfold(v: nat)
    ensures Encode(v) == if v < 128 then [v] else [v % 128 + 128] + Encode(v / 128)
  {
  }

  /** The number bytes stand for: seven bits each, the first byte weighing least. */
  function Septets(s: seq<Byte>): nat {
    if s == [] then 0 else s[0] % 128 + 128 * Septets(s[1..])
  }

  /** An encoding stands for its number, has the top bit on all bytes but the last, and no superfluous last byte. */
  lemma {:induction false} EncodeMeans(v: nat)
    ensures var s := Encode(v);
            && Septets(s) == v && s != []
            && (forall i :: 0 <= i < |s| - 1 ==> s[i] >= 128) && s[|s| - 1] < 128
            && (|s| > 1 ==> s[|s| - 1] > 0)
    decreases v
  {
    if v < 128 {
      assert [v][1..] == [];
    } else {
      EncodeMeans(v / 128);
      var s := Encode(v);
      assert s[1..] == Encode(v / 128) && s[0] % 128 == v % 128;
    }
  }

  lemma ContinuationByte(i: nat)
    ensures Or(i % 256 % 128, 0x80) == i % 128 + 128
  {
    hide Or, Pow2;
    Powers();
    OrDisjoint(i % 128, 1, 7);
    assert i % 256 % 128 == i % 128;
  }

  method WriteVarint(v: nat) returns (dest: seq<Byte>)
    ensures dest == Encode(v)
  {
    hide Or, Encode;
    dest := [];
    var i := v;
    while i >= 0x80
      invariant dest + Encode(i) == Encode(v)
    {
      ContinuationByte(i);
      EncodeUnfold(i);
      dest := dest + [Or(i % 256 % 128, 0x80)];
      i := i / 128;
    }
    EncodeUnfold(i);
    dest := dest + [i];
  }

  // ---------------------------------------------------------------- reading

  /** What read_varint returns: a count and the value so far, or one of its two errors. */
  datatype Outcome = Read(n: nat, value: nat) | Overflow | NonCanonical

  /** The loop of read_varint: n bytes with value i are behind. */
  function ReadFrom(bits: nat, s: seq<Byte>, shift: nat, i: nat, n: nat): Outcome
    requires shift <= bits
    decreases |s|
  {
    if s == [] then Read(n, i)
    else if shift + 7 >= bits && s[0] >= Pow2(bits - shift) then Overflow
    else if s[0] == 0 && shift != 0 then NonCanonical
    else
      var i' := Or(i, s[0] % 128 * Pow2(shift));
      if s[0] < 128 then Read(n + 1, i')
      else
        Pow2AtMost(bits - shift);
        ReadFrom(bits, s[1..], shift + 7, i', n + 1)
  }

  function ReadValue(bits: nat, s: seq<Byte>): Outcome { ReadFrom(bits, s, 0, 0, 0) }

  lemma Pow2AtMost(k: int)
    ensures 0 <= k <= 7 ==> Pow2(k) <= 128
  {
    Powers();
    if 0 <= k < 7 {
      Pow2Grows(k, 7);
    }
  }

  lemma {:induction false} Pow2Grows(j: nat, k: nat)
    requires j <= k
    ensures Pow2(j) <= Pow2(k)
    decreases k - j
  {
    if j == k {
    } else {
      Pow2Grows(j, k - 1);
    }
  }

  lemma {:induction false} Pow2Sum(j: nat, k: nat)
    ensures Pow2(j + k) == Pow2(j) * Pow2(k)
    decreases k
  {
    if k == 0 {
    } else {
      Pow2Sum(j, k - 1);
      assert Pow2(j) * (2 * Pow2(k - 1)) == 2 * (Pow2(j) * Pow2(k - 1));
    }
  }

  /** Seven more bits are or-ed above the ones read, and they fit. */
  lemma OrSeptet(i: nat, d: nat, shift: nat, room: nat)
    requires i < Pow2(shift) && d < Pow2(room)
    ensures Or(i, d * Pow2(shift)) == i + d * Pow2(shift) < Pow2(shift + room)
  {
    hide Or, Pow2;
    OrDisjoint(i, d, shift);
    Pow2Sum(shift, room);
    MulLe(d + 1, Pow2(room), Pow2(shift));
  }

  /** What was written is read back, whatever follows it. */
  lemma {:induction false} ReadEncoded(bits: nat, v: nat, rest: seq<Byte>, shift: nat, i: nat, n: nat)
    requires shift <= bits && v < Pow2(bits - shift) && i < Pow2(shift) && (shift != 0 ==> v > 0)
    ensures ReadFrom(bits, Encode(v) + rest, shift, i, n) == Read(n + |Encode(v)|, i + v * Pow2(shift))
    decreases v
  {
    hide Or, Pow2, ReadFrom, Encode;
    EncodeUnfold(v);
    var s := Encode(v) + rest;
    if v < 128 {
      assert s[0] == v;
      OrSeptet(i, v, shift, bits - shift);
      ReadLast(bits, s, shift, i, n);
    } else {
      var d, q := v % 128, v / 128;
      assert s[0] == d + 128 && s[1..] == Encode(q) + rest;
      QuotientFits(v, bits - shift);
      ReadMore(bits, s, shift, i, n);
      Powers();
      OrSeptet(i, d, shift, 7);
      ReadEncoded(bits, q, rest, shift + 7, i + d * Pow2(shift), n + 1);
      Pow2Sum(shift, 7);
      SplitShift(v, Pow2(shift));
    }
  }

  lemma ReadLast(bits: nat, s: seq<Byte>, shift: nat, i: nat, n: nat)
    requires shift <= bits && s != [] && s[0] < 128 && s[0] < Pow2(bits - shift) && (shift != 0 ==> s[0] > 0)
    ensures ReadFrom(bits, s, shift, i, n) == Read(n + 1, Or(i, s[0] * Pow2(shift)))
  {
    hide Or, Pow2;
  }

  lemma ReadMore(bits: nat, s: seq<Byte>, shift: nat, i: nat, n: nat)
    requires shift + 7 < bits && s != [] && s[0] >= 128
    ensures ReadFrom(bits, s, shift, i, n) == ReadFrom(bits, s[1..], shift + 7, Or(i, s[0] % 128 * Pow2(shift)), n + 1)
  {
    hide Or, Pow2;
  }

  lemma QuotientFits(v: nat, k: nat)
    requires 128 <= v < Pow2(k)
    ensures k > 7 && v / 128 < Pow2(k - 7)
  {
    hide Pow2;
    Pow2AtMost(k);
    Powers();
    Pow2Sum(k - 7, 7);
  }

  lemma SplitShift(v: nat, p: nat)
    ensures v % 128 * p + v / 128 * (p * 128) == v * p
  {
    assert v == v / 128 * 128 + v % 128;
    assert v / 128 * (p * 128) == v / 128 * 128 * p;
    assert (v / 128 * 128 + v % 128) * p == v / 128 * 128 * p + v % 128 * p;
  }

  /** Round trip for every number of bits. */
  lemma RoundTrip(bits: nat, v: nat, rest: seq<Byte>)
    requires v < Pow2(bits)
    ensures ReadValue(bits, Encode(v) + rest) == Read(|Encode(v)|, v)
  {
    hide ReadFrom;
    Pow2Zero();
    ReadEncoded(bits, v, rest, 0, 0, 0);
  }

  ghost predicate Continuations(s: seq<Byte>) {
    forall k :: 0 <= k < |s| ==> s[k] >= 128
  }

  /**
   Everything a successful read says about the input: it stopped at a terminator and what it
   consumed is the one encoding of the value, or it ran out of input inside continuation bytes.
   */
  lemma {:induction false} ReadMeans(bits: nat, s: seq<Byte>, shift: nat, i: nat, n: nat) returns (v: nat)
    requires shift <= bits && i < Pow2(shift)
    requires ReadFrom(bits, s, shift, i, n).Read?
    ensures var r := ReadFrom(bits, s, shift, i, n);
            && n <= r.n <= n + |s| && r.value == i + v * Pow2(shift) && v < Pow2(bits - shift)
            && (if r.n > n && s[r.n - n - 1] < 128 then s[..r.n - n] == Encode(v) && (shift != 0 ==> v > 0)
                else r.n == n + |s| && Continuations(s))
    decreases |s|
  {
    hide Or, Pow2, Encode;
    v := 0;
    if s == [] {
    } else {
      var d := s[0] % 128;
      Pow2AtMost(bits - shift);
      Powers();
      if s[0] < 128 {
        v := s[0];
        EncodeUnfold(v);
        if shift + 7 < bits {
          Pow2Grows(7, bits - shift);
        }
        OrSeptet(i, d, shift, bits - shift);
        assert s[..1] == [s[0]];
      } else {
        OrSeptet(i, d, shift, 7);
        var w := ReadMeans(bits, s[1..], shift + 7, i + d * Pow2(shift), n + 1);
        v := d + 128 * w;
        ValueStep(d, w, shift, bits);
        ReadMeansStep(s, w);
      }
    }
  }

  lemma ValueStep(d: nat, w: nat, shift: nat, bits: nat)
    requires d < 128 && shift + 7 <= bits && w < Pow2(bits - shift - 7)
    ensures d * Pow2(shift) + w * Pow2(shift + 7) == (d + 128 * w) * Pow2(shift) && d + 128 * w < Pow2(bits - shift)
  {
    hide Pow2;
    Powers();
    Pow2Sum(shift, 7);
    Pow2Sum(bits - shift - 7, 7);
    SplitShift(d + 128 * w, Pow2(shift));
  }

  /** The consumed bytes, one byte further left. */
  lemma ReadMeansStep(s: seq<Byte>, w: nat)
    requires s != [] && s[0] >= 128
    ensures forall k :: 1 <= k < |s| && s[1..][..k] == Encode(w) && w > 0 ==> s[..k + 1] == Encode(s[0] % 128 + 128 * w)
  {
    forall k | 1 <= k < |s| && s[1..][..k] == Encode(w) && w > 0
      ensures s[..k + 1] == Encode(s[0] % 128 + 128 * w)
    {
      var v := s[0] % 128 + 128 * w;
      assert v % 128 == s[0] % 128 && v / 128 == w && v >= 128;
      assert s[..k + 1] == [s[0]] + s[1..][..k];
    }
  }

  /** The number of bytes the loop looks at, however it ends. */
  function Looked(bits: nat, s: seq<Byte>, shift: nat): (k: nat)
    requires shift <= bits
    ensures k <= |s|
    decreases |s|
  {
    if s == [] then 0
    else if shift + 7 >= bits && s[0] >= Pow2(bits - shift) then 1
    else if s[0] == 0 && shift != 0 then 1
    else if s[0] < 128 then 1
    else
      Pow2AtMost(bits - shift);
      1 + Looked(bits, s[1..], shift + 7)
  }

  /** ceil(bits / 7), and one byte for no bits at all. */
  function MaxBytes(bits: nat): nat { if bits == 0 then 1 else (bits + 6) / 7 }

  lemma {:induction false} LookedBound(bits: nat, s: seq<Byte>, shift: nat)
    requires shift <= bits && (shift != 0 ==> shift < bits)
    ensures Looked(bits, s, shift) <= if bits == 0 then 1 else (bits - shift + 6) / 7
    decreases |s|
  {
    hide Pow2;
    if s == [] || s[0] < 128 {
    } else {
      Pow2AtMost(bits - shift);
      if shift + 7 < bits {
        LookedBound(bits, s[1..], shift + 7);
      }
    }
  }

  lemma {:induction false} LookedDecides(bits: nat, s: seq<Byte>, t: seq<Byte>, shift: nat, i: nat, n: nat)
    requires shift <= bits
    ensures var k, r := Looked(bits, s, shift), ReadFrom(bits, s, shift, i, n);
            && (r.Read? ==> r.n == n + k)
            && (k < |s| ==> ReadFrom(bits, s[..k] + t, shift, i, n) == r)
    decreases |s|
  {
    hide Or, Pow2;
    if s == [] {
    } else {
      Pow2AtMost(bits - shift);
      var k := Looked(bits, s, shift);
      assert (s[..k] + t)[0] == s[0];
      if s[0] >= 128 && shift + 7 <= bits && !(shift + 7 >= bits && s[0] >= Pow2(bits - shift)) {
        LookedDecides(bits, s[1..], t, shift + 7, Or(i, s[0] % 128 * Pow2(shift)), n + 1);
        assert (s[..k] + t)[1..] == s[1..][..k - 1] + t;
      }
    }
  }

  /**
   Whatever the bytes and however the read ends, it looks at no more than ceil(bits / 7) of them
   (one for no bits at all): the count of a successful read, and bytes beyond make no difference.
   */
  lemma ReadIsShort(bits: nat, s: seq<Byte>, t: seq<Byte>)
    ensures var k, r := Looked(bits, s, 0), ReadValue(bits, s);
            && k <= MaxBytes(bits) && (r.Read? ==> r.n == k)
            && (k < |s| ==> ReadValue(bits, s[..k] + t) == r)
  {
    hide Looked, ReadFrom;
    LookedBound(bits, s, 0);
    LookedDecides(bits, s, t, 0, 0, 0);
  }

  /** Bytes without a terminator are taken for a value exactly when they leave a bit to spare. */
  lemma {:induction false} UnterminatedRead(bits: nat, s: seq<Byte>, shift: nat, i: nat, n: nat)
    requires shift <= bits && Continuations(s)
    ensures ReadFrom(bits, s, shift, i, n).Read? <==> s == [] || shift + 7 * |s| < bits
    ensures ReadFrom(bits, s, shift, i, n).Read? ==> ReadFrom(bits, s, shift, i, n).n == n + |s|
    decreases |s|
  {
    hide Or, Pow2;
    if s == [] {
    } else {
      Pow2AtMost(bits - shift);
      if shift + 7 < bits {
        UnterminatedRead(bits, s[1..], shift + 7, Or(i, s[0] % 128 * Pow2(shift)), n + 1);
      }
    }
  }

  /** The value read is the number the consumed bytes stand for, terminated or not. */
  lemma {:induction false} ReadIsSeptets(bits: nat, s: seq<Byte>, shift: nat, i: nat, n: nat)
    requires shift <= bits && i < Pow2(shift)
    ensures var r := ReadFrom(bits, s, shift, i, n);
            r.Read? ==> n <= r.n <= n + |s| && r.value == i + Septets(s[..r.n - n]) * Pow2(shift)
    decreases |s|
  {
    hide Or, Pow2;
    var r := ReadFrom(bits, s, shift, i, n);
    if s == [] || !r.Read? {
    } else {
      var d := s[0] % 128;
      Powers();
      Pow2AtMost(bits - shift);
      OrSeptet(i, d, shift, 7);
      if s[0] < 128 {
        assert s[..1][1..] == [] && s[..1][0] == s[0];
      } else {
        ReadIsSeptets(bits, s[1..], shift + 7, Or(i, d * Pow2(shift)), n + 1);
        var k := r.n - n;
        assert s[..k][0] == s[0] && s[..k][1..] == s[1..][..k - 1];
        Pow2Sum(shift, 7);
        SeptetsShift(d, Septets(s[1..][..k - 1]), Pow2(shift));
      }
    }
  }

  lemma SeptetsShift(d: nat, w: nat, p: nat)
    ensures d * p + w * (p * 128) == (d + 128 * w) * p
  {
  }

  /**
   How a read of k continuation bytes and a last byte b ends: overflow if they or b leave the bits,
   otherwise a superfluous zero is told apart, and otherwise all is read.
   */
  lemma {:induction false} OutcomeExactly(bits: nat, c: seq<Byte>, b: Byte, rest: seq<Byte>, shift: nat, i: nat, n: nat)
    requires shift <= bits && Continuations(c) && b < 128
    ensures var r := ReadFrom(bits, c + [b] + rest, shift, i, n); var last := shift + 7 * |c|;
            if (c != [] && last >= bits) || (last + 7 >= bits && last <= bits && b >= Pow2(bits - last)) then
              r == Overflow
            else if b == 0 && last != 0 then r == NonCanonical
            else r.Read? && r.n == n + |c| + 1
    decreases |c|
  {
    hide Or, Pow2;
    var s := c + [b] + rest;
    if c == [] {
      assert s[0] == b;
    } else {
      assert s[0] == c[0] && s[1..] == c[1..] + [b] + rest;
      Pow2AtMost(bits - shift);
      if shift + 7 < bits {
        OutcomeExactly(bits, c[1..], b, rest, shift + 7, Or(i, s[0] % 128 * Pow2(shift)), n + 1);
      }
    }
  }

  /** Exactly when a read on a terminator succeeds: the input starts with an encoding that fits the bits. */
  lemma ReadsExactly(bits: nat, s: seq<Byte>, k: nat)
    requires 0 < k <= |s| && s[k - 1] < 128
    ensures (ReadValue(bits, s).Read? && ReadValue(bits, s).n == k) <==>
            exists v: nat :: v < Pow2(bits) && s[..k] == Encode(v)
  {
    hide ReadFrom;
    Pow2Zero();
    if ReadValue(bits, s).Read? && ReadValue(bits, s).n == k {
      var v := ReadMeans(bits, s, 0, 0, 0);
      assert v < Pow2(bits) && s[..k] == Encode(v);
    }
    if v: nat :| v < Pow2(bits) && s[..k] == Encode(v) {
      assert s == Encode(v) + s[k..];
      RoundTrip(bits, v, s[k..]);
    }
  }

  /** One byte of the loop, at index k. */
  lemma ReadByte(bits: nat, s: seq<Byte>, k: nat, shift: nat, i: nat)
    requires k < |s| && shift <= bits
    ensures var byte, i' := s[k], Or(i, s[k] % 128 * Pow2(shift));
            var r, looked := ReadFrom(bits, s[k..], shift, i, k), Looked(bits, s[k..], shift);
            if shift + 7 >= bits && byte >= Pow2(bits - shift) then r == Overflow && looked == 1
            else if byte == 0 && shift != 0 then r == NonCanonical && looked == 1
            else if byte < 128 then r == Read(k + 1, i') && looked == 1
            else
              && shift + 7 <= bits && r == ReadFrom(bits, s[k + 1..], shift + 7, i', k + 1)
              && looked == 1 + Looked(bits, s[k + 1..], shift + 7)
  {
    hide Or, Pow2;
    assert s[k..][0] == s[k] && s[k..][1..] == s[k + 1..];
    Pow2AtMost(bits - shift);
  }

  lemma ReadNothing(bits: nat, shift: nat, i: nat, n: nat)
    requires shift <= bits
    ensures ReadFrom(bits, [], shift, i, n) == Read(n, i) && Looked(bits, [], shift) == 0
  {
  }

  /** read_varint: the count, -1 for overflow, -2 for a superfluous zero byte. */
  method ReadVarint(bits: nat, s: seq<Byte>) returns (read: int, i: nat, ghost looked: nat)
    requires bits <= 64
    ensures looked == Looked(bits, s, 0) <= MaxBytes(bits)
    ensures match ReadValue(bits, s)
            case Read(n, value) => read == n && i == value < TWO_64
            case Overflow => read == -1
            case NonCanonical => read == -2
  {
    hide Or, Pow2, ReadFrom, Looked;
    read, i, looked := 0, 0, 0;
    var shift, k := 0, 0;
    LookedBound(bits, s, 0);
    Pow2Zero();
    Powers();
    assert s[0..] == s;
    while true
      invariant 0 <= k <= |s| && shift <= bits && read == k
      invariant i < Pow2(shift)
      invariant ReadFrom(bits, s[k..], shift, i, k) == ReadValue(bits, s)
      invariant looked == k && k + Looked(bits, s[k..], shift) == Looked(bits, s, 0)
      decreases |s| - k
    {
      Pow2Grows(shift, 64);
      if k == |s| {
        assert s[k..] == [];
        ReadNothing(bits, shift, i, k);
        return;
      }
      ReadByte(bits, s, k, shift, i);
      var byte := s[k];
      k, looked := k + 1, looked + 1;
      read := read + 1;
      if shift + 7 >= bits && byte >= Pow2(bits - shift) {
        return -1, i, looked;
      }
      if byte == 0 && shift != 0 {
        return -2, i, looked;
      }
      Septet(byte, i, shift, bits);
      i := Or(i, byte % 128 * Pow2(shift) % TWO_64);
      if byte < 128 {
        return;
      }
      shift := shift + 7;
    }
  }

  /** The bits read stay below the limit, so the shift never leaves the word. */
  lemma Septet(byte: Byte, i: nat, shift: nat, bits: nat)
    requires shift <= bits <= 64 && i < Pow2(shift) && (shift + 7 >= bits ==> byte < Pow2(bits - shift))
    ensures byte >= 128 ==> shift + 7 < bits && Or(i, byte % 128 * Pow2(shift)) < Pow2(shift + 7)
    ensures Or(i, byte % 128 * Pow2(shift)) < TWO_64
    ensures byte % 128 * Pow2(shift) % TWO_64 == byte % 128 * Pow2(shift)
  {
    hide Or, Pow2;
    Powers();
    Pow2AtMost(bits - shift);
    var room := if shift + 7 < bits then 7 else bits - shift;
    assert byte % 128 < Pow2(room) && (byte >= 128 ==> room == 7 && shift + 7 < bits);
    SeptetFits(i, byte % 128, shift, room);
  }

  lemma SeptetFits(i: nat, d: nat, shift: nat, room: nat)
    requires i < Pow2(shift) && d < Pow2(room) && shift + room <= 64
    ensures Or(i, d * Pow2(shift)) < Pow2(shift + room) <= TWO_64 && d * Pow2(shift) < TWO_64
  {
    hide Or, Pow2;
    Powers();
    OrSeptet(i, d, shift, room);
    Pow2Grows(shift + room, 64);
  }
}
