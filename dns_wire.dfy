/**
 * DNS message layouts of section 4.1 of RFC 1035: the 12-byte header, a question
 * (QNAME ending in the zero-length root label, then QTYPE and QCLASS, both big-endian
 * 16-bit) and a resource record (NAME, TYPE, CLASS, a 32-bit TTL, RDLENGTH, RDATA).
 * A QNAME is kept here as its bytes up to the root label; the length bytes and label
 * characters of a well-formed name are never zero.
 */
module DnsWire {
  import opened Bytes

  const HEADER_SIZE: nat := 12

  /** A query message: header, QNAME bytes, the root label, QTYPE and QCLASS. */
  function EncodeQuery(header: seq<byte>, name: seq<byte>, qtype: uint16, qclass: uint16): (m: seq<byte>)
    requires |header| == HEADER_SIZE
    ensures |m| == HEADER_SIZE + |name| + 5
  {
    header + name + [0] + BigEndian16(qtype) + BigEndian16(qclass)
  }

  /** The fields of an encoded query sit where section 4.1.2 of RFC 1035 puts them. */
  lemma EncodeQueryLayout(header: seq<byte>, name: seq<byte>, qtype: uint16, qclass: uint16)
    requires |header| == HEADER_SIZE
    ensures var m := EncodeQuery(header, name, qtype, qclass);
      && m[..12] == header && m[12..12 + |name|] == name && m[12 + |name|] == 0
      && U16At(m, 13 + |name|) == qtype && U16At(m, 15 + |name|) == qclass
  {
    var m := EncodeQuery(header, name, qtype, qclass);
    assert m == (header + name + [0]) + BigEndian16(qtype) + BigEndian16(qclass);
    BigEndian16RoundTrip(qtype, header + name + [0], BigEndian16(qclass));
    assert m == (header + name + [0] + BigEndian16(qtype)) + BigEndian16(qclass) + [];
    BigEndian16RoundTrip(qclass, header + name + [0] + BigEndian16(qtype), []);
  }

  /** The fixed part of a resource record (section 4.1.3 of RFC 1035) with a compressed NAME. */
  datatype RecordHead = RecordHead(owner: uint16, rtype: uint16, rclass: uint16, ttl: int, rdlength: uint16)

  /** The fixed 12 bytes of a resource record starting at offset `k`, as a resolver reads them. */
  function DecodeRecordHead(b: seq<byte>, k: nat): RecordHead
    requires k + 12 <= |b|
  {
    RecordHead(U16At(b, k), U16At(b, k + 2), U16At(b, k + 4), U32At(b, k + 6), U16At(b, k + 10))
  }

  /** `response_ip`: the address the fallback answer gives, 192.168.6.1. */
  const RESPONSE_IP: seq<byte> := [192, 168, 6, 1]

  /** A compression pointer to offset 12, the first QNAME (section 4.1.4 of RFC 1035). */
  const POINTER_TO_QNAME: uint16 := 0xC00C

  /** The 17 answer bytes the server writes: four zero bytes and then 0x3C where TTL and RDLENGTH go. */
  const ANSWER_AS_WRITTEN: seq<byte> := [0xC0, 0x0C, 0x00, 0x01, 0x00, 0x01, 0x00, 0x00, 0x00, 0x00, 0x3C, 0x00, 0x04] + RESPONSE_IP

  /** The 16-byte A record the fallback means: TTL 60 seconds, RDLENGTH 4, then the address. */
  const ANSWER_INTENDED: seq<byte> := [0xC0, 0x0C, 0x00, 0x01, 0x00, 0x01, 0x00, 0x00, 0x00, 0x3C, 0x00, 0x04] + RESPONSE_IP

  /**
   * Read as a record from its own first byte (where the server starts it, on the last byte
   * of the question), the as-written answer has TTL 0 and RDLENGTH 0x3C00, far more than
   * the five bytes that follow.
   */
  lemma AnswerAsWrittenMisreads()
    ensures |ANSWER_AS_WRITTEN| == 17
    ensures DecodeRecordHead(ANSWER_AS_WRITTEN, 0) == RecordHead(POINTER_TO_QNAME, 1, 1, 0, 0x3C00)
    ensures 0x3C00 > |ANSWER_AS_WRITTEN| - 12
  {
  }

  /** The intended answer is an A record for the first QNAME, TTL 60, whose RDATA is 192.168.6.1. */
  lemma AnswerIntendedDecodes()
    ensures |ANSWER_INTENDED| == 16
    ensures DecodeRecordHead(ANSWER_INTENDED, 0) == RecordHead(POINTER_TO_QNAME, 1, 1, 60, 4)
    ensures ANSWER_INTENDED[12..] == RESPONSE_IP
  {
  }

  /** The header of the fallback reply: flags 0x8180 (a recursion-available response), low bytes of QDCOUNT and ANCOUNT set to 1. */
  function FallbackHeader(b: seq<byte>): (h: seq<byte>)
    requires |b| >= HEADER_SIZE
    ensures |h| == |b|
    ensures h[2] == 0x81 && h[3] == 0x80 && h[5] == 1 && h[7] == 1
    ensures forall k :: 0 <= k < |b| && k != 2 && k != 3 && k != 5 && k != 7 ==> h[k] == b[k]
  {
    b[2 := 0x81][3 := 0x80][5 := 1][7 := 1]
  }

  /**
   * The intended type code of a question whose QNAME has `q` bytes before the root label:
   * the 16-bit QTYPE found just after that label.
   */
  function IntendedQType(b: seq<byte>, q: nat): uint16
    requires 12 + q + 3 <= |b|
  {
    U16At(b, 13 + q)
  }

  /** The intended type code reads back the QTYPE the query was built with. */
  lemma IntendedQTypeRoundTrip(header: seq<byte>, name: seq<byte>, qtype: uint16, qclass: uint16)
    requires |header| == HEADER_SIZE
    ensures IntendedQType(EncodeQuery(header, name, qtype, qclass), |name|) == qtype
  {
    EncodeQueryLayout(header, name, qtype, qclass);
  }

  /**
   * The intended fallback reply to a query whose QNAME has `q` bytes: the reply header, the
   * whole question unchanged, then the intended A record; none when it would not fit in
   * the 512 bytes a UDP DNS message may have (section 4.2.1 of RFC 1035).
   */
  function IntendedFallback(query: seq<byte>, q: nat): (r: Option<seq<byte>>)
    requires 12 + q + 5 <= |query|
    ensures r.Some? <==> q + 33 <= 512
    ensures r.Some? ==> |r.value| == q + 33
  {
    if q + 33 > 512 then None
    else Some(FallbackHeader(query[..17 + q]) + ANSWER_INTENDED)
  }

  /**
   * The intended reply keeps the question (QNAME, QTYPE and QCLASS) intact and the answer
   * that follows it decodes, at the offset a resolver reads it from, to the intended A record.
   */
  lemma IntendedFallbackDecodes(header: seq<byte>, name: seq<byte>, qclass: uint16)
    requires |header| == HEADER_SIZE && |name| + 33 <= 512
    ensures var query := EncodeQuery(header, name, 1, qclass);
      var r := IntendedFallback(query, |name|);
      && r.Some?
      && r.value[12..17 + |name|] == query[12..17 + |name|]
      && U16At(r.value, 13 + |name|) == 1 && U16At(r.value, 15 + |name|) == qclass
      && DecodeRecordHead(r.value, 17 + |name|) == RecordHead(POINTER_TO_QNAME, 1, 1, 60, 4)
      && r.value[29 + |name|..] == RESPONSE_IP
  {
    var query := EncodeQuery(header, name, 1, qclass);
    EncodeQueryLayout(header, name, 1, qclass);
    var q := |name|;
    var h := FallbackHeader(query[..17 + q]);
    var r := h + ANSWER_INTENDED;
    assert r[12..17 + q] == query[12..17 + q];
    assert r[17 + q..] == ANSWER_INTENDED;
    AnswerIntendedDecodes();
    assert r[17 + q..29 + q] == ANSWER_INTENDED[..12];
  }
}
