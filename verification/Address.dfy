/**
 encode_addr and decode_addr (base58.cpp): a varint tag, the data, and the first four bytes of
 their hash, in base 58.  The hash is any function to 32 bytes.
 */
module Address {
  import opened Common
  import opened IntUtil
  import opened Varint
  import opened Base58
  import Base58Codec

  type Digest = s: seq<Byte> | |s| == 32 witness seq(32, _ => 0)
  type Hash = seq<Byte> -> Digest

  const CHECKSUM_SIZE: nat := 4

  function Checksum(hash: Hash, buf: seq<Byte>): (c: seq<Byte>)
    ensures |c| == 4
  {
    hash(buf)[..CHECKSUM_SIZE]
  }

  function Sealed(hash: Hash, buf: seq<Byte>): seq<Byte> { buf + Checksum(hash, buf) }

  function EncodeAddr(hash: Hash, tag: U64, data: seq<Byte>): string {
    Base58.Encode(Sealed(hash, Varint.Encode(tag) + data))
  }

  /** The bytes in front of the checksum, if the text decodes and the checksum is right. */
  function Payload(hash: Hash, addr: string): Option<seq<Byte>> {
    match Base58.Decode(addr)
    case None => None
    case Some(bytes) =>
      if |bytes| <= CHECKSUM_SIZE then None
      else
        var buf := bytes[..|bytes| - CHECKSUM_SIZE];
        if Checksum(hash, buf) == bytes[|bytes| - CHECKSUM_SIZE..] then Some(buf) else None
  }

  function DecodeAddr(hash: Hash, addr: string): Option<(nat, seq<Byte>)> {
    match Payload(hash, addr)
    case None => None
    case Some(buf) =>
      match ReadValue(64, buf)
      case Read(n, tag) => if 0 < n <= |buf| then Some((tag, buf[n..])) else None
      case Overflow => None
      case NonCanonical => None
  }

  // ---------------------------------------------------------------- as it runs

  method EncodeAddress(hash: Hash, tag: U64, data: seq<Byte>) returns (addr: string)
    ensures addr == EncodeAddr(hash, tag, data)
  {
    var buf := WriteVarint(tag);
    buf := buf + data;
    var digest := hash(buf);
    buf := buf + digest[..CHECKSUM_SIZE];
    addr := Base58Codec.EncodeText(buf);
  }

  method DecodeAddress(hash: Hash, addr: string) returns (r: Option<(nat, seq<Byte>)>)
    ensures r == DecodeAddr(hash, addr)
  {
    hide Base58.Decode, ReadValue;
    var decoded := Base58Codec.DecodeText(addr);
    if decoded.None? || |decoded.value| <= CHECKSUM_SIZE {
      return None;
    }
    var size := |decoded.value| - CHECKSUM_SIZE;
    var checksum := decoded.value[size..];
    var addrData := decoded.value[..size];
    var digest := hash(addrData);
    if digest[..CHECKSUM_SIZE] != checksum {
      return None;
    }
    var read, tag, _ := ReadVarint(64, addrData);
    if read <= 0 {
      return None;
    }
    ReadWithin(addrData);
    return Some((tag, addrData[read..]));
  }

  lemma ReadWithin(s: seq<Byte>)
    ensures ReadValue(64, s).Read? ==> ReadValue(64, s).n <= |s|
  {
    if ReadValue(64, s).Read? {
      Pow2Zero();
      var v := ReadMeans(64, s, 0, 0, 0);
    }
  }

  // ---------------------------------------------------------------- round trips

  lemma SealedPayload(hash: Hash, buf: seq<Byte>)
    ensures Payload(hash, Base58.Encode(Sealed(hash, buf))) == if buf == [] then None else Some(buf)
  {
    hide Base58.Encode, Base58.Decode;
    var bytes := Sealed(hash, buf);
    Base58.RoundTrip(bytes);
    assert bytes[..|bytes| - CHECKSUM_SIZE] == buf && bytes[|bytes| - CHECKSUM_SIZE..] == Checksum(hash, buf);
  }

  lemma SealedIs(hash: Hash, buf: seq<Byte>)
    ensures Sealed(hash, buf) == buf + hash(buf)[..4]
  {
  }

  /** What an address holds: the tag, the data, and the first four bytes of the hash of both. */
  lemma AddressHolds(hash: Hash, tag: U64, data: seq<Byte>)
    ensures var buf := Varint.Encode(tag) + data;
            Base58.Decode(EncodeAddr(hash, tag, data)) == Some(buf + hash(buf)[..4])
  {
    hide Base58.Encode, Base58.Decode, Varint.Encode;
    Base58.RoundTrip(Sealed(hash, Varint.Encode(tag) + data));
  }

  /** Bytes that do not end in the first four bytes of the hash of the others are refused, and so are four or fewer. */
  lemma WrongChecksumRefused(hash: Hash, buf: seq<Byte>, c: seq<Byte>)
    requires |c| == 4
    ensures c != hash(buf)[..4] ==> DecodeAddr(hash, Base58.Encode(buf + c)).None?
    ensures DecodeAddr(hash, Base58.Encode(c)).None?
  {
    hide Base58.Encode, Base58.Decode, ReadValue;
    Base58.RoundTrip(buf + c);
    Base58.RoundTrip(c);
    assert (buf + c)[..|buf|] == buf && (buf + c)[|buf|..] == c;
  }

  /** The checksum is what decides: with the right one the payload is handed on, and only then. */
  lemma RightChecksumRead(hash: Hash, buf: seq<Byte>, c: seq<Byte>)
    requires |c| == 4 && buf != []
    ensures DecodeAddr(hash, Base58.Encode(buf + c)).Some? <==> c == hash(buf)[..4] && ReadValue(64, buf).Read?
  {
    hide Base58.Encode, Base58.Decode, ReadFrom;
    Base58.RoundTrip(buf + c);
    assert (buf + c)[..|buf|] == buf && (buf + c)[|buf|..] == c;
    ReadWithin(buf);
    ReadSome(buf);
  }

  lemma ReadSome(s: seq<Byte>)
    requires s != []
    ensures ReadValue(64, s).Read? ==> ReadValue(64, s).n > 0
  {
    if ReadValue(64, s).Read? {
      Pow2Zero();
      var v := ReadMeans(64, s, 0, 0, 0);
    }
  }

  /** Every tag and every data come back. */
  lemma AddressRoundTrip(hash: Hash, tag: U64, data: seq<Byte>)
    ensures DecodeAddr(hash, EncodeAddr(hash, tag, data)) == Some((tag, data))
  {
    hide Payload, ReadValue, Sealed, Varint.Encode;
    var buf := Varint.Encode(tag) + data;
    EncodeEnds(tag);
    SealedPayload(hash, buf);
    Powers();
    Varint.RoundTrip(64, tag, data);
    assert buf[|Varint.Encode(tag)|..] == data;
  }

  /** An encoding is never empty and its last byte has no continuation bit. */
  lemma {:induction false} EncodeEnds(v: nat)
    ensures Varint.Encode(v) != [] && Varint.Encode(v)[|Varint.Encode(v)| - 1] < 128
    decreases v
  {
    EncodeUnfold(v);
    if v < 128 {
    } else {
      EncodeEnds(v / 128);
    }
  }

  lemma EncodeInjective(a: seq<Byte>, b: seq<Byte>)
    requires Base58.Encode(a) == Base58.Encode(b)
    ensures a == b
  {
    Base58.RoundTrip(a);
    Base58.RoundTrip(b);
  }

  lemma SealedInjective(hash: Hash, a: seq<Byte>, b: seq<Byte>)
    requires Sealed(hash, a) == Sealed(hash, b)
    ensures a == b
  {
    assert Sealed(hash, a)[..|a|] == a && Sealed(hash, b)[..|b|] == b;
  }

  lemma PayloadSeals(hash: Hash, addr: string)
    requires Payload(hash, addr).Some?
    ensures addr == Base58.Encode(Sealed(hash, Payload(hash, addr).value)) && Payload(hash, addr).value != []
  {
    hide Base58.Encode, Base58.Decode;
    Converse(addr);
    var bytes, buf := Base58.Decode(addr).value, Payload(hash, addr).value;
    assert bytes == buf + bytes[|buf|..];
  }

  /**
   An accepted address is the encoding of what it decodes to exactly when its payload is not made
   of continuation bytes only: the varint reader takes the end of its input for the end of the tag.
   */
  lemma AddressConverse(hash: Hash, addr: string)
    ensures DecodeAddr(hash, addr).Some? ==>
              var (tag, data) := DecodeAddr(hash, addr).value;
              && tag < TWO_64
              && (EncodeAddr(hash, tag, data) == addr <==> !Continuations(Payload(hash, addr).value))
  {
    hide Payload, ReadFrom, Sealed, Varint.Encode, Base58.Encode;
    if DecodeAddr(hash, addr).Some? {
      var buf := Payload(hash, addr).value;
      PayloadSeals(hash, addr);
      Pow2Zero();
      Powers();
      var v := ReadMeans(64, buf, 0, 0, 0);
      var (tag, data) := DecodeAddr(hash, addr).value;
      assert tag == v;
      EncodeEnds(tag);
      if Continuations(buf) {
        assert data == [] && Varint.Encode(tag) + data == Varint.Encode(tag);
        if EncodeAddr(hash, tag, data) == addr {
          EncodeInjective(Sealed(hash, Varint.Encode(tag) + data), Sealed(hash, buf));
          SealedInjective(hash, Varint.Encode(tag) + data, buf);
        }
      } else {
        assert Varint.Encode(tag) + data == buf;
      }
    }
  }

  ghost predicate IsEncoding(hash: Hash, addr: string) {
    exists tag: U64, data: seq<Byte> :: addr == EncodeAddr(hash, tag, data)
  }

  /** One to nine continuation bytes and the first four bytes of their hash. */
  ghost predicate IsUnterminated(hash: Hash, addr: string) {
    exists buf: seq<Byte> :: 1 <= |buf| <= 9 && Continuations(buf) && addr == Base58.Encode(buf + hash(buf)[..4])
  }

  /**
   An address is accepted exactly when it is an encoding or its payload is an unterminated tag
   of up to nine bytes.
   */
  lemma AcceptedExactly(hash: Hash, addr: string)
    ensures DecodeAddr(hash, addr).Some? <==> IsEncoding(hash, addr) || IsUnterminated(hash, addr)
  {
    hide Payload, ReadFrom, Sealed, Varint.Encode, Base58.Encode;
    if DecodeAddr(hash, addr).Some? {
      AddressConverse(hash, addr);
      var buf := Payload(hash, addr).value;
      if Continuations(buf) {
        PayloadSeals(hash, addr);
        UnterminatedRead(64, buf, 0, 0, 0);
        SealedIs(hash, buf);
        assert IsUnterminated(hash, addr);
      } else {
        var (tag, data) := DecodeAddr(hash, addr).value;
        assert addr == EncodeAddr(hash, tag, data);
      }
    }
    if IsEncoding(hash, addr) {
      var tag: U64, data: seq<Byte> :| addr == EncodeAddr(hash, tag, data);
      AddressRoundTrip(hash, tag, data);
    }
    if IsUnterminated(hash, addr) {
      var buf: seq<Byte> :| 1 <= |buf| <= 9 && Continuations(buf) && addr == Base58.Encode(buf + hash(buf)[..4]);
      SealedIs(hash, buf);
      SealedPayload(hash, buf);
      UnterminatedRead(64, buf, 0, 0, 0);
    }
  }

  /** For every hash there is such an address: one continuation byte and its checksum read as tag 0 without data. */
  lemma AcceptedTwice(hash: Hash)
    ensures var addr := Base58.Encode(Sealed(hash, [0x80]));
            && DecodeAddr(hash, addr) == Some((0, []))
            && EncodeAddr(hash, 0, []) != addr
            && DecodeAddr(hash, EncodeAddr(hash, 0, [])) == Some((0, []))
  {
    hide Base58.Encode, Sealed, Payload;
    var addr := Base58.Encode(Sealed(hash, [0x80]));
    SealedPayload(hash, [0x80]);
    OneContinuation();
    assert [0x80][1..] == [];
    AddressConverse(hash, addr);
    AddressRoundTrip(hash, 0, []);
  }

  lemma OneContinuation()
    ensures ReadValue(64, [0x80]) == Read(1, 0)
  {
    assert [0x80][1..] == [];
    OrZero(0);
  }
}
