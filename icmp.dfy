/**
 * The ICMP echo header encoder and the Internet checksum used by the ping
 * helper.
 *
 * The encoder's layout is its own, not the Echo message of RFC 792 (which
 * puts the checksum in octets 2-3, the identifier in 4-5 and the sequence
 * number in 6-7): octets 2-3 are always zero, the checksum goes to 4-5, the
 * identifier to 6-7, and the sequence number is never written. Because the
 * Internet checksum (RFC 1071, section 4.1) sums 16-bit words wherever they
 * sit, a message built this way still checks out.
 */
module Icmp {
  import opened Common

  /** The header fields of an ICMP echo message. */
  datatype IcmpHeader = IcmpHeader(
    msgType: uint8,
    code: uint8,
    checksum: uint16,
    identifier: uint16,
    sequenceNumber: uint16)

  /** The 16-bit value of two octets, most significant first. */
  function BigEndian16(hi: uint8, lo: uint8): uint16
  {
    hi * 0x100 + lo
  }

  /** The eight octets encodeICMPHeader writes for a header. */
  function HeaderBytes(header: IcmpHeader): (b: seq<uint8>)
  {
    [header.msgType, header.code, 0, 0,
     header.checksum / 0x100, header.checksum % 0x100,
     header.identifier / 0x100, header.identifier % 0x100]
  }

  /** Reads the fields back from the encoder's layout; the sequence number is not there and reads as 0. */
  function DecodeHeader(b: seq<uint8>): IcmpHeader
    requires |b| == 8
  {
    IcmpHeader(b[0], b[1], BigEndian16(b[4], b[5]), BigEndian16(b[6], b[7]), 0)
  }

  /** Encoding gives eight octets, 2 and 3 zero, and keeps every field but the sequence number, which it drops. */
  lemma HeaderRoundTrip(header: IcmpHeader)
    ensures |HeaderBytes(header)| == 8 && HeaderBytes(header)[2] == 0 && HeaderBytes(header)[3] == 0
    ensures DecodeHeader(HeaderBytes(header)) == header.(sequenceNumber := 0)
  {
  }

  /** encodeICMPHeader: fills a new 8-byte buffer; its error result is always nil. */
  method EncodeHeader(header: IcmpHeader) returns (buffer: array<uint8>, err: Option<string>)
    ensures fresh(buffer)
    ensures buffer[..] == HeaderBytes(header)
    ensures err == None
  {
    buffer := new uint8[8];
    buffer[0] := header.msgType;
    buffer[1] := header.code;
    buffer[2] := 0;
    buffer[3] := 0;
    // big-endian checksum: byte(c >> 8), byte(c)
    buffer[4] := header.checksum / 0x100;
    buffer[5] := header.checksum % 0x100;
    buffer[6] := header.identifier / 0x100;
    buffer[7] := header.identifier % 0x100;
    err := None;
  }

  /** The 16-bit words of data, big-endian; an odd trailing octet is the high byte of a last word. */
  function Words(data: seq<uint8>): (w: seq<uint16>)
    ensures |w| == (|data| + 1) / 2
  {
    if |data| == 0 then []
    else if |data| == 1 then [BigEndian16(data[0], 0)]
    else [BigEndian16(data[0], data[1])] + Words(data[2..])
  }

  /** Ordinary sum of a sequence of words. */
  function Sum(ws: seq<uint16>): nat
  {
    if ws == [] then 0 else ws[0] + Sum(ws[1..])
  }

  /** 16-bit one's complement addition: the carry out of bit 15 is added back in (end-around carry). */
  function OnesAdd(a: uint16, b: uint16): uint16
  {
    if a + b > 0xffff then a + b - 0xffff else a + b
  }

  /** The one's complement sum of the words, added one by one as RFC 1071 describes. */
  function OnesComplementSum(ws: seq<uint16>): uint16
  {
    if ws == [] then 0 else OnesAdd(OnesComplementSum(ws[1..]), ws[0])
  }

  /**
   * What repeatedly folding the carries of s back into its low 16 bits ends
   * with: 0 for 0, and otherwise the value in 1..0xffff congruent to s
   * modulo 0xffff.
   */
  function Fold(s: nat): uint16
  {
    if s == 0 then 0 else (s - 1) % 0xffff + 1
  }

  /** The Internet checksum as the ping helper computes it: words summed in a wrapping uint32, folded, complemented. */
  function InternetChecksum(data: seq<uint8>): uint16
  {
    0xffff - Fold(Wrap32(Sum(Words(data))))
  }

  /** Without 32-bit wrap-around, the checksum is RFC 1071's complement of the one's complement sum. */
  lemma ChecksumIsOnesComplement(data: seq<uint8>)
    requires Sum(Words(data)) < 0x1_0000_0000
    ensures InternetChecksum(data) == 0xffff - OnesComplementSum(Words(data))
  {
    OnesSumIsFold(Words(data));
  }

  /** Truncation to uint32. */
  function Wrap32(s: nat): (r: uint32)
    ensures s < 0x1_0000_0000 ==> r == s
  {
    s % 0x1_0000_0000
  }

  /** A value at most 0xffff is its own fold. */
  lemma FoldSmall(s: nat)
    requires s <= 0xffff
    ensures Fold(s) == s
  {
  }

  /** One folding step, (s >> 16) + (s & 0xffff), keeps the fold and shrinks s. */
  lemma FoldStep(s: nat)
    requires s > 0xffff
    ensures Fold(s / 0x1_0000 + s % 0x1_0000) == Fold(s)
    ensures s / 0x1_0000 + s % 0x1_0000 < s
  {
    var q, r := s / 0x1_0000, s % 0x1_0000;
    assert s == 0xffff * q + (q + r);
    FoldCongruent(s, q + r, q);
  }

  /** Two positive values that differ by a multiple of 0xffff fold alike. */
  lemma FoldCongruent(s: nat, t: nat, q: nat)
    requires s == 0xffff * q + t && t > 0
    ensures Fold(s) == Fold(t)
  {
    assert (s - 1) % 0xffff == (t - 1) % 0xffff by {
      assert s - 1 == 0xffff * q + (t - 1);
    }
  }

  /** Adding one word with end-around carry to the fold of s gives the fold of s + w. */
  lemma OnesAddFold(s: nat, w: uint16)
    ensures OnesAdd(Fold(s), w) == Fold(s + w)
  {
    if s == 0 {
      FoldSmall(w);
    } else {
      var a := Fold(s);
      var q := (s - 1) / 0xffff;
      assert s == 0xffff * q + a;
      var t := OnesAdd(a, w);
      if a + w > 0xffff {
        assert s + w == 0xffff * (q + 1) + t;
        FoldCongruent(s + w, t, q + 1);
      } else {
        assert s + w == 0xffff * q + t;
        FoldCongruent(s + w, t, q);
      }
      FoldSmall(t);
    }
  }

  /** RFC 1071's end-around-carry sum, taken word by word, equals the fold of the plain sum. */
  lemma {:induction false} OnesSumIsFold(ws: seq<uint16>)
    ensures OnesComplementSum(ws) == Fold(Sum(ws))
  {
    if ws != [] {
      OnesSumIsFold(ws[1..]);
      OnesAddFold(Sum(ws[1..]), ws[0]);
    }
  }

  /** Truncating before or after adding w makes no difference. */
  lemma Wrap32Add(a: nat, w: nat)
    ensures Wrap32(Wrap32(a) + w) == Wrap32(a + w)
  {
    var q := a / 0x1_0000_0000;
    assert a + w == 0x1_0000_0000 * q + (Wrap32(a) + w);
  }

  /** Sum of the words of data from octet i on, read two octets at a time. */
  function WordsFrom(data: seq<uint8>, i: int): nat
    requires 0 <= i <= |data|
    decreases |data| - i
  {
    if i == |data| then 0
    else if i + 1 == |data| then BigEndian16(data[i], 0)
    else BigEndian16(data[i], data[i + 1]) + WordsFrom(data, i + 2)
  }

  /** WordsFrom is the sum of the words of the suffix. */
  lemma {:induction false} WordsFromSum(data: seq<uint8>, i: int)
    requires 0 <= i <= |data|
    ensures WordsFrom(data, i) == Sum(Words(data[i..]))
    decreases |data| - i
  {
    var rest := data[i..];
    if i + 1 == |data| {
      assert Words(rest)[1..] == [];
    } else if i + 1 < |data| {
      WordsFromSum(data, i + 2);
      assert rest[2..] == data[i + 2..];
      assert Words(rest)[1..] == Words(data[i + 2..]);
    }
  }

  /** checksum: sum the words into a wrapping uint32, fold the carries back in, complement. */
  method Checksum(buffer: array<uint8>) returns (c: uint16)
    ensures c == InternetChecksum(buffer[..])
  {
    var sum: uint32 := 0;
    var length := buffer.Length;
    var index := 0;
    while length > 1
      invariant 0 <= index <= buffer.Length
      invariant length == buffer.Length - index
      // the words before index are in sum, wrapped to 32 bits
      invariant Wrap32(sum + WordsFrom(buffer[..], index)) == Wrap32(WordsFrom(buffer[..], 0))
    {
      // sum += uint32(buffer[index])<<8 | uint32(buffer[index+1]), in uint32
      Wrap32Add(sum + BigEndian16(buffer[index], buffer[index + 1]), WordsFrom(buffer[..], index + 2));
      sum := Wrap32(sum + BigEndian16(buffer[index], buffer[index + 1]));
      index := index + 2;
      length := length - 2;
    }
    if length > 0 {
      // the odd trailing octet is the high byte of one last word
      sum := Wrap32(sum + BigEndian16(buffer[index], 0));
    }
    WordsFromSum(buffer[..], 0);
    assert buffer[..][0..] == buffer[..];
    var folded := FoldCarries(sum);
    // uint16(^sum), with sum <= 0xffff
    c := 0xffff - folded;
  }

  /** The carry-folding loop of checksum: adds the high 16 bits into the low ones until no carry is left. */
  method FoldCarries(total: uint32) returns (sum: uint16)
    ensures sum == Fold(total)
  {
    var s := total;
    while s > 0xffff
      invariant Fold(s) == Fold(total)
      decreases s
    {
      FoldStep(s);
      // (sum >> 16) + (sum & 0xffff)
      s := s / 0x1_0000 + s % 0x1_0000;
    }
    FoldSmall(s);
    sum := s;
  }

  /** The header's words add up to its fields' sum (octets 2-3 contribute nothing). */
  lemma HeaderWordSum(header: IcmpHeader)
    ensures Sum(Words(HeaderBytes(header)))
      == BigEndian16(header.msgType, header.code) as int + header.checksum + header.identifier
  {
    var b := HeaderBytes(header);
    var w0, w1, w2, w3 := BigEndian16(b[0], b[1]), BigEndian16(b[2], b[3]), BigEndian16(b[4], b[5]), BigEndian16(b[6], b[7]);
    assert b[6..][2..] == [];
    assert Words(b[6..]) == [w3];
    assert b[4..][2..] == b[6..];
    assert Words(b[4..]) == [w2, w3];
    assert b[2..][2..] == b[4..];
    assert Words(b[2..]) == [w1, w2, w3];
    assert Words(b) == [w0, w1, w2, w3];
    assert [w0, w1, w2, w3][1..] == [w1, w2, w3] && [w1, w2, w3][1..] == [w2, w3] && [w2, w3][1..] == [w3];
    assert Sum([w3]) == w3 by { assert [w3][1..] == []; }
    assert Sum([w2, w3]) == w2 as int + w3;
    assert Sum([w1, w2, w3]) == w1 as int + w2 + w3;
  }

  /** An all-zero buffer has checksum 0xffff. */
  lemma ZeroBufferChecksum(data: seq<uint8>)
    requires forall i :: 0 <= i < |data| ==> data[i] == 0
    ensures InternetChecksum(data) == 0xffff
  {
    ZeroWordsSum(data);
  }

  /** Zero octets make zero words. */
  lemma {:induction false} ZeroWordsSum(data: seq<uint8>)
    requires forall i :: 0 <= i < |data| ==> data[i] == 0
    ensures Sum(Words(data)) == 0
  {
    if |data| == 1 {
      assert Words(data)[1..] == [];
    } else if |data| > 1 {
      ZeroWordsSum(data[2..]);
      assert Words(data)[1..] == Words(data[2..]);
    }
  }

  /**
   * Re-encoding a header whose checksum field was zero with the checksum of
   * its first encoding gives a message whose checksum is 0: the one's
   * complement sum over the whole message is 0xffff, as a receiver checks.
   */
  lemma ChecksumVerifies(header: IcmpHeader)
    requires header.checksum == 0
    ensures var c := InternetChecksum(HeaderBytes(header));
      InternetChecksum(HeaderBytes(header.(checksum := c))) == 0
  {
    var c := InternetChecksum(HeaderBytes(header));
    HeaderChecksum(header);
    HeaderChecksum(header.(checksum := c));
    SealedTotal(header, c);
    ChecksumOfSealedSum(HeaderTotal(header), c, HeaderTotal(header.(checksum := c)));
  }

  /** Writing c into a zero checksum field adds c to the word sum. */
  lemma SealedTotal(header: IcmpHeader, c: uint16)
    requires header.checksum == 0
    ensures HeaderTotal(header) <= 0x1fffe
    ensures HeaderTotal(header.(checksum := c)) == HeaderTotal(header) + c
  {
  }

  /** The word sum of an encoded header, from its fields. */
  function HeaderTotal(header: IcmpHeader): nat
  {
    BigEndian16(header.msgType, header.code) as int + header.checksum + header.identifier
  }

  /** The checksum of an encoded header, from its fields. */
  lemma HeaderChecksum(header: IcmpHeader)
    ensures InternetChecksum(HeaderBytes(header)) == 0xffff - Fold(Wrap32(HeaderTotal(header)))
  {
    HeaderWordSum(header);
  }

  /** The arithmetic of ChecksumVerifies: with the checksum c of a sum s added in, the checksum is 0. */
  lemma ChecksumOfSealedSum(s: nat, c: uint16, s': nat)
    requires s <= 0x1fffe && c == 0xffff - Fold(Wrap32(s)) && s' == s + c
    ensures 0xffff - Fold(Wrap32(s')) == 0
  {
    assert Wrap32(s) == s;
    assert Wrap32(s') == s';
    FoldComplement(s, s');
  }

  /** Adding the complement of the fold of s to s gives 0xffff, one's complement negative zero. */
  lemma FoldComplement(s: nat, t: nat)
    requires t == s + 0xffff - Fold(s)
    ensures Fold(t) == 0xffff
  {
    if s > 0 {
      var q := (s - 1) / 0xffff;
      assert s == 0xffff * q + Fold(s);
      FoldCongruent(t, 0xffff, q);
    }
  }

  /** The header of the echo request the ping helper sends from process pid (pid & 0xffff is pid mod 2^16). */
  function EchoRequestHeader(pid: int): IcmpHeader
  {
    IcmpHeader(8, 0, 0, pid % 0x1_0000, 1)
  }

  /**
   * The message the ping helper writes to the socket: the echo request
   * header encoded, its checksum computed, and the header encoded again with
   * that checksum.
   */
  method EchoRequest(pid: int) returns (message: array<uint8>)
    ensures fresh(message)
    ensures var header := EchoRequestHeader(pid);
      message[..] == HeaderBytes(header.(checksum := InternetChecksum(HeaderBytes(header))))
    ensures message.Length == 8
    ensures message[0] == 8 && message[1] == 0 && message[2] == 0 && message[3] == 0
    ensures BigEndian16(message[6], message[7]) == pid % 0x1_0000
    ensures InternetChecksum(message[..]) == 0
  {
    var msg := EchoRequestHeader(pid);
    var first, _ := EncodeHeader(msg);
    var c := Checksum(first);
    msg := msg.(checksum := c);
    var second, _ := EncodeHeader(msg);
    ChecksumVerifies(EchoRequestHeader(pid));
    message := second;
  }
}
