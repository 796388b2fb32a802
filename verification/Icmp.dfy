/** Echo requests and the replies they draw: the bytes written for a probe, the reader of
incoming messages, and the messages of RFC 792 behind the headers of RFC 791 section 3.1. */
module Icmp {
  import opened Collections

  function FirstByte(v: nat): Byte {
    v % 256
  }

  function SecondByte(v: nat): Byte {
    v / 256 % 256
  }

  /** An echo request; the two checksum bytes are whatever the socket library computes. */
  function PingRequest(kind: Byte, identifier: nat, sequence: nat, size: nat, checksum: (Byte, Byte)): seq<Byte> {
    [if kind == 0 then 8 else kind, 0, checksum.0, checksum.1,
     SecondByte(identifier), FirstByte(identifier), SecondByte(sequence), FirstByte(sequence)]
    + seq(size, _ => 255)
  }

  /** The request of a probe is an echo request of RFC 792: type 8, code 0, the checksum,
      identifier and sequence in 16 bits each, and data bytes of ones. */
  lemma RequestIsEcho(identifier: nat, sequence: nat, size: nat, checksum: (Byte, Byte))
    ensures var r := PingRequest(0, identifier, sequence, size, checksum);
            && |r| == 8 + size && r[0] == 8 && r[1] == 0 && (r[2], r[3]) == checksum
            && (r[4] as int) * 256 + r[5] as int == identifier % 65536
            && (r[6] as int) * 256 + r[7] as int == sequence % 65536
            && forall i :: 8 <= i < |r| ==> r[i] == 255
  {
    SequenceBytes(identifier);
    SequenceBytes(sequence);
  }

  /** Any other type is written as given. */
  lemma RequestType(kind: Byte, identifier: nat, sequence: nat, size: nat, checksum: (Byte, Byte))
    requires kind != 0
    ensures PingRequest(kind, identifier, sequence, size, checksum)
         == PingRequest(0, identifier, sequence, size, checksum)[0 := kind]
  {
  }

  /** What reading a message gives: an id, nothing, or an out-of-range exception. */
  datatype Parsed = Id(id: nat) | Nothing | RangeError

  function ReadUInt16BE(msg: seq<Byte>, offset: nat): Parsed {
    if offset + 2 > |msg| then RangeError else Id((msg[offset] as int) * 256 + msg[offset + 1] as int)
  }

  predicate ErrorType(kind: Byte) {
    kind == 3 || kind == 4 || kind == 5 || kind == 11
  }

  /** The reader: the message starts with a 20-byte header, and an error quotes the request
      behind a header of its own. */
  method ParseIdFromIcmpMessage(msg: seq<Byte>) returns (r: Parsed)
    ensures r == ParsedId(msg)
    ensures r.RangeError? <==> |msg| < 21 || (!ErrorType(msg[20]) && |msg| < 28)
    ensures r.Nothing? <==> |msg| >= 21 && ErrorType(msg[20]) && !QuotesRequest(msg)
    ensures r.Id? ==> 0 <= r.id < 65536
  {
    var offset := 20;
    if offset >= |msg| {
      return RangeError;
    }
    var kind := msg[offset];
    if kind == 3 || kind == 4 || kind == 5 || kind == 11 {
      var inner := offset + 8;
      if |msg| - inner < 20 || msg[inner] / 16 != 4 {
        return Nothing;
      }
      var length := msg[inner] % 16 * 4;
      if |msg| - inner - length < 8 {
        return Nothing;
      }
      offset := inner + length;
    }
    r := ReadUInt16BE(msg, offset + 6);
  }

  /** An error long enough to hold an IPv4 header and eight bytes of the quoted request. */
  predicate QuotesRequest(msg: seq<Byte>) {
    && |msg| >= 48
    && msg[28] / 16 == 4
    && |msg| >= 28 + msg[28] % 16 * 4 + 8
  }

  function ParsedId(msg: seq<Byte>): Parsed {
    if |msg| < 21 then RangeError
    else if !ErrorType(msg[20]) then ReadUInt16BE(msg, 26)
    else if !QuotesRequest(msg) then Nothing
    else ReadUInt16BE(msg, 28 + msg[28] % 16 * 4 + 6)
  }

  // ---------------------------------------------------------------- messages of the network

  /** An IPv4 header without constraints beyond its version and length field. */
  predicate IpHeader(h: seq<Byte>) {
    HeaderSize(|h|) && h[0] == 64 + |h| / 4
  }

  /** The length of a legal IPv4 header. */
  predicate HeaderSize(h: nat) {
    20 <= h <= 60 && h % 4 == 0
  }

  /** Behind an outer header of `h` bytes, an echo reply repeats identifier, sequence and data of
      the request. */
  predicate IsEchoReply(msg: seq<Byte>, h: nat, request: seq<Byte>)
    requires |request| >= 8
  {
    && |msg| == h + |request|
    && IpHeader(msg[..h])
    && msg[h] == 0
    && msg[h + 4..] == request[4..]
  }

  /** An error message quotes the header and at least eight bytes of the request. */
  predicate IsError(msg: seq<Byte>, h: nat, inner: seq<Byte>, request: seq<Byte>)
    requires |request| >= 8
  {
    && IpHeader(inner)
    && |msg| >= h + 8 + |inner| + 8
    && IpHeader(msg[..h])
    && (msg[h] == 3 || msg[h] == 4 || msg[h] == 5 || msg[h] == 11)
    && msg[h + 8..h + 8 + |inner|] == inner
    && msg[h + 8 + |inner|..h + 8 + |inner| + 8] == request[..8]
  }

  lemma SequenceBytes(v: nat)
    ensures (SecondByte(v) as int) * 256 + FirstByte(v) as int == v % 65536
  {
    var h, r := v / 65536, v % 65536;
    var hi, lo := r / 256, r % 256;
    assert v == 256 * (256 * h + hi) + lo;
    assert v / 256 == 256 * h + hi;
  }

  /** Reading an echo reply gives back the sequence of the request, in 16 bits. */
  lemma EchoReplyRoundTrip(msg: seq<Byte>, identifier: nat, sequence: nat, size: nat, checksum: (Byte, Byte))
    requires IsEchoReply(msg, 20, PingRequest(0, identifier, sequence, size, checksum))
    ensures ParsedId(msg) == Id(sequence % 65536)
  {
    var request := PingRequest(0, identifier, sequence, size, checksum);
    assert msg[26] == msg[24..][2] == request[4..][2] == request[6] == SecondByte(sequence);
    assert msg[27] == msg[24..][3] == request[4..][3] == request[7] == FirstByte(sequence);
    SequenceBytes(sequence);
  }

  /** So does reading an error, whatever the length of the quoted header. */
  lemma ErrorRoundTrip(msg: seq<Byte>, inner: seq<Byte>, identifier: nat, sequence: nat, size: nat, checksum: (Byte, Byte))
    requires IsError(msg, 20, inner, PingRequest(0, identifier, sequence, size, checksum))
    ensures ParsedId(msg) == Id(sequence % 65536)
  {
    var request := PingRequest(0, identifier, sequence, size, checksum);
    var n := |inner|;
    assert msg[28] == msg[28..28 + n][0] == inner[0];
    assert msg[28] / 16 == 4 && msg[28] % 16 * 4 == n by {
      HeaderLength(n);
    }
    var quoted := msg[28 + n..28 + n + 8];
    assert msg[28 + n + 6] == quoted[6] == request[..8][6] == request[6] == SecondByte(sequence);
    assert msg[28 + n + 7] == quoted[7] == request[..8][7] == request[7] == FirstByte(sequence);
    SequenceBytes(sequence);
  }

  lemma HeaderLength(n: nat)
    requires 20 <= n <= 60 && n % 4 == 0
    ensures (64 + n / 4) / 16 == 4 && (64 + n / 4) % 16 * 4 == n
  {
  }

  /** The network's answer to a request behind an outer header of `h` bytes, of either kind. */
  ghost predicate Answers(msg: seq<Byte>, h: nat, request: seq<Byte>)
    requires |request| >= 8
  {
    IsEchoReply(msg, h, request) || exists inner :: IsError(msg, h, inner, request)
  }

  lemma AnswerRoundTrip(msg: seq<Byte>, sequence: nat, size: nat, checksum: (Byte, Byte))
    requires Answers(msg, 20, PingRequest(0, 0, sequence, size, checksum))
    ensures ParsedId(msg) == Id(sequence % 65536)
  {
    var request := PingRequest(0, 0, sequence, size, checksum);
    if IsEchoReply(msg, 20, request) {
      EchoReplyRoundTrip(msg, 0, sequence, size, checksum);
    } else {
      var inner :| IsError(msg, 20, inner, request);
      ErrorRoundTrip(msg, inner, 0, sequence, size, checksum);
    }
  }

  // ---------------------------------------------------------------- exactly which outer headers are read

  function Zeros(n: nat): (z: seq<Byte>)
    ensures |z| == n && forall i :: 0 <= i < n ==> z[i] == 0
  {
    seq(n, _ => 0)
  }

  /** A header of `h` bytes whose other fields and options are zero. */
  function PlainHeader(h: nat): (r: seq<Byte>)
    requires HeaderSize(h)
    ensures IpHeader(r) && |r| == h && forall i :: 0 < i < h ==> r[i] == 0
  {
    [64 + h / 4] + Zeros(h - 1)
  }

  /** Every answer of one kind, to a request with any sequence, gives its sequence back. */
  ghost predicate RepliesRead(h: nat) {
    forall msg, identifier: nat, sequence: nat, size: nat, checksum ::
      IsEchoReply(msg, h, PingRequest(0, identifier, sequence, size, checksum)) ==> ParsedId(msg) == Id(sequence % 65536)
  }

  ghost predicate ErrorsRead(h: nat) {
    forall msg, inner, identifier: nat, sequence: nat, size: nat, checksum ::
      IsError(msg, h, inner, PingRequest(0, identifier, sequence, size, checksum)) ==> ParsedId(msg) == Id(sequence % 65536)
  }

  /** Behind a header with options the reader takes an option byte for the message type and
      header or checksum bytes for the sequence: this reply to sequence 1 reads as 0. */
  lemma ReplyMisread(h: nat) returns (msg: seq<Byte>)
    requires HeaderSize(h) && h > 20
    ensures IsEchoReply(msg, h, PingRequest(0, 0, 1, 0, (0, 0))) && ParsedId(msg) == Id(0)
  {
    var request := PingRequest(0, 0, 1, 0, (0, 0));
    msg := PlainHeader(h) + (Zeros(4) + request[4..]);
    assert msg[..h] == PlainHeader(h);
    assert msg[h + 4..] == request[4..];
    assert msg[20] == 0 && msg[26] == 0 && msg[27] == 0;
  }

  lemma ErrorMisread(h: nat) returns (msg: seq<Byte>)
    requires HeaderSize(h) && h > 20
    ensures IsError(msg, h, PlainHeader(20), PingRequest(0, 0, 1, 0, (0, 0))) && ParsedId(msg) == Id(0)
  {
    var request, inner := PingRequest(0, 0, 1, 0, (0, 0)), PlainHeader(20);
    var icmp: seq<Byte> := [3] + Zeros(7);
    msg := PlainHeader(h) + (icmp + (inner + request[..8]));
    assert msg[..h] == PlainHeader(h);
    assert msg[h + 8..h + 28] == inner;
    assert msg[h + 28..h + 36] == request[..8];
    assert msg[20] == 0 && msg[26] == 0 && msg[27] == 0;
  }

  /** The fixed offset of 20 reads all echo replies, and all errors, exactly when the outer header
      has no options. */
  lemma OuterHeaderExactly(h: nat)
    requires HeaderSize(h)
    ensures RepliesRead(h) <==> h == 20
    ensures ErrorsRead(h) <==> h == 20
  {
    if h == 20 {
      forall msg, identifier: nat, sequence: nat, size: nat, checksum
        | IsEchoReply(msg, 20, PingRequest(0, identifier, sequence, size, checksum))
        ensures ParsedId(msg) == Id(sequence % 65536)
      {
        EchoReplyRoundTrip(msg, identifier, sequence, size, checksum);
      }
      forall msg, inner, identifier: nat, sequence: nat, size: nat, checksum
        | IsError(msg, 20, inner, PingRequest(0, identifier, sequence, size, checksum))
        ensures ParsedId(msg) == Id(sequence % 65536)
      {
        ErrorRoundTrip(msg, inner, identifier, sequence, size, checksum);
      }
    } else {
      var reply := ReplyMisread(h);
      var error := ErrorMisread(h);
    }
  }
}
