/**
 * The message records of dns.go (`Header`, `Body`, `Query`, `Resource`) and their wire forms:
 * `Header.encode`, `Body.encode`, `Query.encode`, `decodeHeader`, `decodeBody`,
 * `decodeResource` and `checkHeader`.
 */
module Messages {
  import opened Bytes
  import opened Outcomes
  import opened DomainNames

  /** The twelve-byte header: six unsigned 16-bit fields. */
  datatype Header = Header(id: u16, flags: u16, qdCount: u16, anCount: u16, nsCount: u16, arCount: u16)

  /** A question, or the owner name, type and class of a resource record. */
  datatype Body = Body(question: seq<byte>, queryType: u16, queryClass: u16)

  datatype Query = Query(header: Header, body: Body)

  /** A resource record; for an NS record of class IN, `rData` holds the decompressed name. */
  datatype Resource = Resource(body: Body, ttl: u32, rdLength: u16, rData: seq<byte>)

  /** Resource type A and class IN, the values the resolver asks for and takes glue from. */
  const TypeA: u16 := 1
  const ClassIN: u16 := 1

  /** Resource type NS, whose rdata `decodeResource` decompresses into a name. */
  const TypeNS: u16 := 2

  // ---------------------------------------------------------------------------------------
  // Header
  // ---------------------------------------------------------------------------------------

  /** `Header.encode`: the six fields big-endian, in declaration order. */
  function EncodeHeader(h: Header): (r: seq<byte>)
    ensures |r| == 12
    ensures ReadU16(r, 0) == h.id && ReadU16(r, 2) == h.flags && ReadU16(r, 4) == h.qdCount
    ensures ReadU16(r, 6) == h.anCount && ReadU16(r, 8) == h.nsCount && ReadU16(r, 10) == h.arCount
  {
    U16Bytes(h.id) + U16Bytes(h.flags) + U16Bytes(h.qdCount)
    + U16Bytes(h.anCount) + U16Bytes(h.nsCount) + U16Bytes(h.arCount)
  }

  /**
   * `decodeHeader(buffer, offset)`: the six fields read from the twelve bytes at `offset`, and the
   * header size 12. A buffer too short for them is a slice panic in the source.
   */
  function DecodeHeader(buffer: seq<byte>, offset: nat): (r: Result<(Header, nat)>)
    ensures r.Ok? <==> offset + 12 <= |buffer|
    ensures r.Ok? ==> r.value.1 == 12
  {
    if offset + 12 > |buffer| then Err(OutOfBounds)
    else
      Ok((Header(ReadU16(buffer, offset), ReadU16(buffer, offset + 2), ReadU16(buffer, offset + 4),
                 ReadU16(buffer, offset + 6), ReadU16(buffer, offset + 8), ReadU16(buffer, offset + 10)),
          12))
  }

  /** Decoding the bytes of an encoded header gives that header back, with size 12. */
  lemma HeaderRoundTrip(h: Header, buffer: seq<byte>, offset: nat)
    requires offset + 12 <= |buffer| && buffer[offset..offset + 12] == EncodeHeader(h)
    ensures DecodeHeader(buffer, offset) == Ok((h, 12))
  {
    var w := EncodeHeader(h);
    forall k | 0 <= k < 12 ensures buffer[offset + k] == w[k] {
      assert buffer[offset + k] == buffer[offset..offset + 12][k];
    }
  }

  /** Every twelve bytes are the encoding of the header decoded from them. */
  lemma HeaderDecodeEncode(buffer: seq<byte>, offset: nat)
    requires offset + 12 <= |buffer|
    ensures DecodeHeader(buffer, offset).Ok?
    ensures EncodeHeader(DecodeHeader(buffer, offset).value.0) == buffer[offset..offset + 12]
  {
    var w := EncodeHeader(DecodeHeader(buffer, offset).value.0);
    forall j | 0 <= j < 6 ensures w[2 * j..2 * j + 2] == buffer[offset + 2 * j..offset + 2 * j + 2] {
      U16Inverse(buffer, offset + 2 * j);
    }
    forall k | 0 <= k < 12 ensures w[k] == buffer[offset..offset + 12][k] {
      var j := k / 2;
      assert w[k] == w[2 * j..2 * j + 2][k - 2 * j];
    }
  }

  /**
   * `checkHeader`: the response must carry the query's id, and the 16-bit sum of its answer,
   * authority and additional counts must be non-zero. The source ends the process on either
   * failure; the model reports it.
   */
  function CheckHeader(response: Header, query: Query): (r: Outcome)
    ensures r == Pass <==>
              response.id == query.header.id
              && (response.anCount + response.nsCount + response.arCount) % 0x1_0000 != 0
    ensures r == Fail(IdMismatch) <==> response.id != query.header.id
    ensures r.Fail? ==> r.error in {IdMismatch, NoRecords}
  {
    if response.id != query.header.id then Fail(IdMismatch)
    else if (response.anCount + response.nsCount + response.arCount) % 0x1_0000 == 0 then Fail(NoRecords)
    else Pass
  }

  /**
   * The count sum wraps: a response whose three counts add up to 65536 has records, and is
   * still turned away as having none.
   */
  lemma CheckHeaderSumWraps(query: Query)
    ensures var response := Header(query.header.id, 0x8180, 1, 0xFFFF, 1, 0);
            response.anCount > 0 && CheckHeader(response, query) == Fail(NoRecords)
  {
  }

  // ---------------------------------------------------------------------------------------
  // Question
  // ---------------------------------------------------------------------------------------

  /**
   * The bytes `Body.encode` produces: the labels of the question, each after its length byte,
   * a zero byte, then the type and the class big-endian.
   */
  function BodyWire(b: Body): seq<byte>
  {
    LabelsWire(Split(b.question)) + [0] + U16Bytes(b.queryType) + U16Bytes(b.queryClass)
  }

  /** A question whose labels all decode back as written. */
  predicate WellFormed(question: seq<byte>)
  {
    forall i | 0 <= i < |Split(question)| :: Decodable(Split(question)[i])
  }

  /**
   * `Body.encode`: the label lengths are summed first to size the output, then each label is
   * written after its length byte with a running index, and the terminator, type and class go
   * last.
   */
  method EncodeBody(b: Body) returns (r: seq<byte>)
    ensures r == BodyWire(b)
  {
    var s := Split(b.question);
    var length := SumLengths(s);
    LabelsWireLength(s);
    var size := 4 + length + |s| + 1;
    var serialized := new byte[size];
    var idx := WriteLabels(serialized, s);
    serialized[idx] := 0;
    var qt, qc := U16Bytes(b.queryType), U16Bytes(b.queryClass);
    serialized[size - 4], serialized[size - 3] := qt[0], qt[1];
    serialized[size - 2], serialized[size - 1] := qc[0], qc[1];
    r := serialized[..];
    ghost var w := BodyWire(b);
    forall k | 0 <= k < |r| ensures r[k] == w[k] {
      if k < idx {
        assert r[k] == serialized[..idx][k];
      }
    }
  }

  /** The first loop of `Body.encode`: the total length of the labels. */
  method SumLengths(s: seq<seq<byte>>) returns (length: nat)
    ensures length == SumLen(s)
  {
    length := 0;
    for i := 0 to |s|
      invariant length == SumLen(s[..i])
    {
      assert s[..i + 1][..i] == s[..i];
      length := length + |s[i]|;
    }
    assert s[..|s|] == s;
  }

  /**
   * The second loop of `Body.encode`: each label after its length byte, from the start of
   * `serialized`, with the running index `idx` returned where the terminator goes.
   */
  method WriteLabels(serialized: array<byte>, s: seq<seq<byte>>) returns (idx: nat)
    requires |LabelsWire(s)| < serialized.Length
    modifies serialized
    ensures idx == |LabelsWire(s)|
    ensures serialized[..idx] == LabelsWire(s)
    ensures serialized[idx..] == old(serialized[idx..])
  {
    idx := 0;
    assert s[..0] == [];
    for i := 0 to |s|
      invariant idx == |LabelsWire(s[..i])| <= |LabelsWire(s)|
      invariant serialized[..idx] == LabelsWire(s[..i])
      invariant forall k | idx <= k < serialized.Length :: serialized[k] == old(serialized[k])
    {
      var part := s[i];
      LabelsWireNext(s, i);
      ghost var before := serialized[..idx];
      serialized[idx] := LengthByte(part);
      assert serialized[..idx + 1] == before + [LengthByte(part)];
      ghost var mid := serialized[..];
      CopyLabel(serialized, idx + 1, part);
      PrefixThenSlice(serialized[..], idx + 1, |part|);
      forall k | idx + 1 + |part| <= k < serialized.Length ensures serialized[k] == mid[k] {
        assert serialized[k] == serialized[idx + 1 + |part|..][k - idx - 1 - |part|];
      }
      idx := idx + 1 + |part|;
    }
    assert s[..|s|] == s;
    assert serialized[idx..] == old(serialized[idx..]) by {
      forall k | 0 <= k < serialized.Length - idx ensures serialized[idx..][k] == old(serialized[idx..])[k] {
        assert serialized[idx + k] == old(serialized[idx + k]);
      }
    }
  }

  /** The labels up to `i + 1` are encoded as those up to `i`, then label `i` after its length byte. */
  lemma LabelsWireNext(s: seq<seq<byte>>, i: nat)
    requires i < |s|
    ensures LabelsWire(s[..i + 1]) == LabelsWire(s[..i]) + [LengthByte(s[i])] + s[i]
    ensures |LabelsWire(s[..i + 1])| <= |LabelsWire(s)|
  {
    assert s[..i + 1] == s[..i] + [s[i]];
    LabelsWireSnoc(s[..i], s[i]);
    LabelsWirePrefix(s, i + 1);
  }

  /** The inner loop of `Body.encode`: the bytes of one label copied to `at` onwards. */
  method CopyLabel(serialized: array<byte>, at: nat, part: seq<byte>)
    requires at + |part| <= serialized.Length
    modifies serialized
    ensures serialized[..at] == old(serialized[..at])
    ensures serialized[at..at + |part|] == part
    ensures serialized[at + |part|..] == old(serialized[at + |part|..])
  {
    for j := 0 to |part|
      invariant serialized[..at] == old(serialized[..at])
      invariant serialized[at + |part|..] == old(serialized[at + |part|..])
      invariant serialized[at..at + j] == part[..j]
    {
      serialized[at + j] := part[j];
      assert serialized[at..at + j + 1] == serialized[at..at + j] + [part[j]];
    }
  }

  /** The four pieces of an encoded question, where they sit. */
  lemma BodyWireParts(b: Body)
    ensures var lw := LabelsWire(Split(b.question));
            var w := BodyWire(b);
            && |w| == |lw| + 5
            && w[..|lw|] == lw
            && w[|lw|] == 0
            && w[|lw| + 1..|lw| + 3] == U16Bytes(b.queryType)
            && w[|lw| + 3..|lw| + 5] == U16Bytes(b.queryClass)
  {
    var lw := LabelsWire(Split(b.question));
    var w := BodyWire(b);
    var qt, qc := U16Bytes(b.queryType), U16Bytes(b.queryClass);
    assert w == lw + [0] + qt + qc;
    assert w[|lw| + 1..|lw| + 3] == qt by {
      assert w[|lw| + 1] == qt[0] && w[|lw| + 2] == qt[1];
    }
    assert w[|lw| + 3..|lw| + 5] == qc by {
      assert w[|lw| + 3] == qc[0] && w[|lw| + 4] == qc[1];
    }
  }

  /**
   * The layout promised by `Body.encode`: the length is 4 + the label lengths + one length byte
   * per label + the terminator; the label encoding comes first (each label after its length
   * byte, see BodyLabelAt); a zero byte follows the last label; the type and the class are the
   * last four bytes, big-endian.
   */
  lemma BodyLayout(b: Body)
    ensures var s := Split(b.question);
            |BodyWire(b)| == 4 + SumLen(s) + |s| + 1
    ensures var s := Split(b.question);
            BodyWire(b)[..SumLen(s) + |s|] == LabelsWire(s) && BodyWire(b)[SumLen(s) + |s|] == 0
    ensures var w := BodyWire(b);
            ReadU16(w, |w| - 4) == b.queryType && ReadU16(w, |w| - 2) == b.queryClass
  {
    var w := BodyWire(b);
    LabelsWireLength(Split(b.question));
    BodyWireParts(b);
    U16RoundTrip(b.queryType, w, |w| - 4);
    U16RoundTrip(b.queryClass, w, |w| - 2);
  }

  /** Label `i` of the question sits in the encoded question after its length byte. */
  lemma BodyLabelAt(b: Body, i: nat)
    requires i < |Split(b.question)|
    ensures var s := Split(b.question);
            var o := LabelOffset(s, i);
            && o + 1 + |s[i]| < |BodyWire(b)|
            && BodyWire(b)[o] == LengthByte(s[i])
            && BodyWire(b)[o + 1..o + 1 + |s[i]|] == s[i]
  {
    var s := Split(b.question);
    var o := LabelOffset(s, i);
    var lw := LabelsWire(s);
    LabelsWireLayout(s, i);
    BodyWireParts(b);
    SliceWithin(BodyWire(b), 0, lw, o, o + 1 + |s[i]|);
    assert BodyWire(b)[o] == BodyWire(b)[o..o + 1 + |s[i]|][0];
    assert lw[o + 1..o + 1 + |s[i]|] == lw[o..o + 1 + |s[i]|][1..];
  }

  // ---------------------------------------------------------------------------------------
  // Query
  // ---------------------------------------------------------------------------------------

  /** The bytes `Query.encode` produces: the encoded header followed by the encoded question. */
  function QueryWire(q: Query): seq<byte>
  {
    EncodeHeader(q.header) + BodyWire(q.body)
  }

  /** `Query.encode`: the header, then the question appended after it. */
  method EncodeQuery(q: Query) returns (r: seq<byte>)
    ensures r == QueryWire(q)
  {
    var header := EncodeHeader(q.header);
    var body := EncodeBody(q.body);
    r := header + body;
  }

  // ---------------------------------------------------------------------------------------
  // Decoding questions and resource records
  // ---------------------------------------------------------------------------------------

  /**
   * What `decodeBody(buffer, start)` computes: the name at `start`, then type and class from the
   * four bytes after it; the size is the name's size plus four.
   */
  function BodyAt(buffer: seq<byte>, start: nat): (r: Result<(Body, nat)>)
    ensures r.Ok? ==> 6 <= r.value.1 && start + r.value.1 <= |buffer|
  {
    match NameAt(buffer, start)
    case Err(e) => Err(e)
    case Ok(d) =>
      var offset := start + d.size;
      if offset + 4 > |buffer| then Err(OutOfBounds)
      else Ok((Body(d.name, ReadU16(buffer, offset), ReadU16(buffer, offset + 2)), d.size + 4))
  }

  /** `decodeBody`: the owner name through `decodeDomainName`, then type and class. */
  method DecodeBody(buffer: seq<byte>, start: nat) returns (r: Result<(Body, nat)>)
    ensures r == BodyAt(buffer, start)
  {
    var name := DecodeDomainName(buffer, start, {start});
    assert NameAt(buffer, start) == name;
    if name.Err? {
      return Err(name.error);
    }
    var offset := start + name.value.size;
    if offset + 4 > |buffer| {
      return Err(OutOfBounds);
    }
    var body := Body(name.value.name, ReadU16(buffer, offset), ReadU16(buffer, offset + 2));
    r := Ok((body, name.value.size + 4));
  }

  /**
   * An encoded question with well-formed labels decodes to the question it encodes, and the size
   * reported is the whole encoding.
   */
  lemma BodyRoundTrip(b: Body, buffer: seq<byte>, start: nat)
    requires WellFormed(b.question)
    requires start + |BodyWire(b)| <= |buffer|
    requires buffer[start..start + |BodyWire(b)|] == BodyWire(b)
    ensures BodyAt(buffer, start) == Ok((b, |BodyWire(b)|))
  {
    var w := BodyWire(b);
    var lw := LabelsWire(Split(b.question));
    var size := |lw| + 1;
    var offset := start + size;
    assert NameAt(buffer, start) == Ok(Decoded(b.question, size)) by {
      QuestionNameRoundTrip(b, buffer, start);
    }
    assert |w| == size + 4 && offset + 4 <= |buffer|
           && ReadU16(buffer, offset) == b.queryType
           && ReadU16(buffer, offset + 2) == b.queryClass by {
      BodyWireParts(b);
      SliceWithin(buffer, start, w, size, size + 2);
      SliceWithin(buffer, start, w, size + 2, size + 4);
      U16RoundTrip(b.queryType, buffer, offset);
      U16RoundTrip(b.queryClass, buffer, offset + 2);
    }
    BodyAfterName(buffer, start, Decoded(b.question, size), b.queryType, b.queryClass);
  }

  /** A question whose name decodes at `start` and whose type and class follow it. */
  lemma BodyAfterName(buffer: seq<byte>, start: nat, d: Decoded, queryType: u16, queryClass: u16)
    requires NameAt(buffer, start) == Ok(d) && start + d.size + 4 <= |buffer|
    requires ReadU16(buffer, start + d.size) == queryType && ReadU16(buffer, start + d.size + 2) == queryClass
    ensures BodyAt(buffer, start) == Ok((Body(d.name, queryType, queryClass), d.size + 4))
  {
  }

  /** The name of an encoded, well-formed question decodes to the question, terminator included. */
  lemma QuestionNameRoundTrip(b: Body, buffer: seq<byte>, start: nat)
    requires WellFormed(b.question)
    requires start + |BodyWire(b)| <= |buffer|
    requires buffer[start..start + |BodyWire(b)|] == BodyWire(b)
    ensures NameAt(buffer, start) == Ok(Decoded(b.question, |LabelsWire(Split(b.question))| + 1))
  {
    var s := Split(b.question);
    var w := BodyWire(b);
    var lw := LabelsWire(s);
    assert start + |lw| < |buffer| && buffer[start..start + |lw|] == lw && buffer[start + |lw|] == 0 by {
      BodyWireParts(b);
      SliceWithin(buffer, start, w, 0, |lw|);
      SliceWithin(buffer, start, w, |lw|, |lw| + 1);
      assert buffer[start + |lw|] == buffer[start + |lw|..start + |lw| + 1][0];
    }
    ReadEncodedLabels(buffer, start, buffer, {start}, s);
    JoinSplit(b.question);
  }

  /**
   * An encoded query with a well-formed question decodes to its header at offset 0 and to its
   * question at offset 12, consuming the whole message.
   */
  lemma QueryRoundTrip(q: Query)
    requires WellFormed(q.body.question)
    ensures DecodeHeader(QueryWire(q), 0) == Ok((q.header, 12))
    ensures BodyAt(QueryWire(q), 12) == Ok((q.body, |QueryWire(q)| - 12))
  {
    var w := QueryWire(q);
    assert w[0..12] == EncodeHeader(q.header);
    HeaderRoundTrip(q.header, w, 0);
    assert w[12..12 + |BodyWire(q.body)|] == BodyWire(q.body);
    BodyRoundTrip(q.body, w, 12);
  }

  /**
   * Where `decodeResource` slices opaque rdata: the end index is computed in 16-bit arithmetic,
   * `10 + uint16(offset) + rdLength`, so it wraps past 65535.
   */
  function OpaqueEnd(offset: nat, rdLength: u16): (end: nat)
    ensures offset + 10 + rdLength < 0x1_0000 ==> end == offset + 10 + rdLength
    ensures offset + 10 + rdLength >= 0x1_0000 ==> end < offset + 10
  {
    (10 + offset % 0x1_0000 + rdLength) % 0x1_0000
  }

  /**
   * What `decodeResource(buffer, start)` computes: the owner name, then the fixed fields and the
   * rdata after it (RecordAfter). The size is the name's size, the ten fixed bytes and the rdata
   * length, even when the rdata is replaced by a name of another length.
   */
  function ResourceAt(buffer: seq<byte>, start: nat): (r: Result<(Resource, nat)>)
    ensures r.Ok? ==> start + r.value.1 <= |buffer|
    ensures r.Ok? && !(r.value.0.body.queryType == TypeNS && r.value.0.body.queryClass == ClassIN) ==>
              |r.value.0.rData| == r.value.0.rdLength
  {
    match NameAt(buffer, start)
    case Err(e) => Err(e)
    case Ok(d) => RecordAfter(buffer, start + d.size, d)
  }

  /**
   * A decoded record is owned by the name at its start, and its size is that name's size, the ten
   * fixed bytes and the rdata length.
   */
  lemma ResourceSize(buffer: seq<byte>, start: nat)
    requires ResourceAt(buffer, start).Ok?
    ensures NameAt(buffer, start).Ok?
    ensures var (r, size) := ResourceAt(buffer, start).value;
            r.body.question == NameAt(buffer, start).value.name
            && size == NameAt(buffer, start).value.size + 10 + r.rdLength
  {
  }

  /**
   * The fields of a decoded record are the big-endian values after its owner name: type at +0,
   * class at +2, TTL at +4 and rdata length at +8; rdata other than NS/IN is the next rdLength
   * bytes.
   */
  lemma ResourceFields(buffer: seq<byte>, start: nat)
    requires ResourceAt(buffer, start).Ok?
    ensures NameAt(buffer, start).Ok?
    ensures var offset := start + NameAt(buffer, start).value.size;
            var r := ResourceAt(buffer, start).value.0;
            && offset + 10 + r.rdLength <= |buffer|
            && r.body.queryType == ReadU16(buffer, offset) && r.body.queryClass == ReadU16(buffer, offset + 2)
            && r.ttl == ReadU32(buffer, offset + 4) && r.rdLength == ReadU16(buffer, offset + 8)
            && (!(r.body.queryType == TypeNS && r.body.queryClass == ClassIN) ==>
                  r.rData == buffer[offset + 10..offset + 10 + r.rdLength])
  {
  }

  /** The ten fixed bytes of a record after its owner name: type, class, TTL and rdata length. */
  function FixedWire(r: Resource): (w: seq<byte>)
    ensures |w| == 10
  {
    U16Bytes(r.body.queryType) + U16Bytes(r.body.queryClass) + U32Bytes(r.ttl) + U16Bytes(r.rdLength)
  }

  /**
   * A record other than NS/IN, written after its owner name as its fixed fields and its rdata,
   * decodes back to the same record; its size is the owner's size, 10 and the rdata length.
   * The 16-bit end index must not wrap.
   */
  lemma RecordRoundTrip(buffer: seq<byte>, offset: nat, owner: Decoded, r: Resource)
    requires !(r.body.queryType == TypeNS && r.body.queryClass == ClassIN)
    requires r.body.question == owner.name && |r.rData| == r.rdLength
    requires offset + 10 + r.rdLength <= |buffer| && offset + 10 + r.rdLength < 0x1_0000
    requires buffer[offset..offset + 10 + r.rdLength] == FixedWire(r) + r.rData
    ensures RecordAfter(buffer, offset, owner) == Ok((r, owner.size + 10 + r.rdLength))
  {
    var w := FixedWire(r) + r.rData;
    var n := 10 + r.rdLength;
    assert w[0..2] == U16Bytes(r.body.queryType) && w[2..4] == U16Bytes(r.body.queryClass);
    assert w[4..8] == U32Bytes(r.ttl) && w[8..10] == U16Bytes(r.rdLength) && w[10..n] == r.rData;
    SliceWithin(buffer, offset, w, 0, 2);
    SliceWithin(buffer, offset, w, 2, 4);
    SliceWithin(buffer, offset, w, 4, 8);
    SliceWithin(buffer, offset, w, 8, 10);
    SliceWithin(buffer, offset, w, 10, n);
    U16RoundTrip(r.body.queryType, buffer, offset);
    U16RoundTrip(r.body.queryClass, buffer, offset + 2);
    U32RoundTrip(r.ttl, buffer, offset + 4);
    U16RoundTrip(r.rdLength, buffer, offset + 8);
  }

  /** Once the owner name at `start` is decoded, the record is what follows it. */
  lemma ResourceAfterOwner(buffer: seq<byte>, start: nat, owner: Decoded)
    requires NameAt(buffer, start) == Ok(owner)
    ensures ResourceAt(buffer, start) == RecordAfter(buffer, start + owner.size, owner)
  {
  }

  /**
   * The part of a resource record after its owner name `owner`, which ends at `offset`: type,
   * class, TTL and rdata length from the next ten bytes, then the rdata.
   */
  function RecordAfter(buffer: seq<byte>, offset: nat, owner: Decoded): (r: Result<(Resource, nat)>)
    ensures r.Ok? ==> offset + 10 + r.value.0.rdLength <= |buffer|
                      && r.value.0.body.question == owner.name
                      && r.value.1 == owner.size + 10 + r.value.0.rdLength
    ensures r.Ok? ==> r.value.0.body.queryType == ReadU16(buffer, offset)
                      && r.value.0.body.queryClass == ReadU16(buffer, offset + 2)
                      && r.value.0.ttl == ReadU32(buffer, offset + 4)
                      && r.value.0.rdLength == ReadU16(buffer, offset + 8)
    ensures r.Ok? && !(r.value.0.body.queryType == TypeNS && r.value.0.body.queryClass == ClassIN) ==>
              r.value.0.rData == buffer[offset + 10..offset + 10 + r.value.0.rdLength]
  {
    if offset + 10 > |buffer| then Err(OutOfBounds)
    else
      var qType, qClass := ReadU16(buffer, offset), ReadU16(buffer, offset + 2);
      var rdLength := ReadU16(buffer, offset + 8);
      match RDataAt(buffer, offset, qType, qClass, rdLength)
      case Err(e) => Err(e)
      case Ok(rData) =>
        Ok((Resource(Body(owner.name, qType, qClass), ReadU32(buffer, offset + 4), rdLength, rData),
            owner.size + 10 + rdLength))
  }

  /**
   * The rdata of a record whose fixed fields start at `offset`. For type NS and class IN it is
   * the name the rdata bytes hold, its pointers resolved against `buffer`; for any other record
   * the rdata bytes as they are, sliced with the 16-bit end index.
   */
  function RDataAt(buffer: seq<byte>, offset: nat, qType: u16, qClass: u16, rdLength: u16): (r: Result<seq<byte>>)
    ensures r.Ok? ==> offset + 10 + rdLength <= |buffer|
    ensures !(qType == TypeNS && qClass == ClassIN) ==>
              (r.Ok? <==> offset + 10 + rdLength <= |buffer| && offset + 10 + rdLength < 0x1_0000)
    ensures r.Ok? && !(qType == TypeNS && qClass == ClassIN) ==> r.value == buffer[offset + 10..offset + 10 + rdLength]
  {
    if qType == TypeNS && qClass == ClassIN then
      if offset + 10 + rdLength > |buffer| then Err(OutOfBounds)
      else NSrDataName(buffer, buffer[offset + 10..offset + 10 + rdLength])
    else
      var end := OpaqueEnd(offset, rdLength);
      if end > |buffer| || offset + 10 > end then Err(OutOfBounds)
      else Ok(buffer[offset + 10..end])
  }

  /** `decodeResource`: the owner name, the fixed fields, then the rdata as its type demands. */
  method DecodeResource(buffer: seq<byte>, start: nat) returns (r: Result<(Resource, nat)>)
    ensures r == ResourceAt(buffer, start)
  {
    var name := DecodeDomainName(buffer, start, {start});
    assert NameAt(buffer, start) == name;
    if name.Err? {
      return Err(name.error);
    }
    var offset := start + name.value.size;
    assert ResourceAt(buffer, start) == RecordAfter(buffer, offset, name.value);
    if offset + 10 > |buffer| {
      return Err(OutOfBounds);
    }
    var qType := ReadU16(buffer, offset);
    var qClass := ReadU16(buffer, offset + 2);
    var ttl := ReadU32(buffer, offset + 4);
    var rdLength := ReadU16(buffer, offset + 8);
    var rData := DecodeRData(buffer, offset, qType, qClass, rdLength);
    if rData.Err? {
      return Err(rData.error);
    }
    r := Ok((Resource(Body(name.value.name, qType, qClass), ttl, rdLength, rData.value),
             name.value.size + 10 + rdLength));
  }

  /** The rdata step of `decodeResource`: NS names decompressed, other rdata sliced as it is. */
  method DecodeRData(buffer: seq<byte>, offset: nat, qType: u16, qClass: u16, rdLength: u16)
    returns (r: Result<seq<byte>>)
    ensures r == RDataAt(buffer, offset, qType, qClass, rdLength)
  {
    if qType == TypeNS && qClass == ClassIN {
      if offset + 10 + rdLength > |buffer| {
        return Err(OutOfBounds);
      }
      r := DecodeNSrData(buffer, buffer[offset + 10..offset + 10 + rdLength]);
    } else {
      var end := OpaqueEnd(offset, rdLength);
      if end > |buffer| || offset + 10 > end {
        return Err(OutOfBounds);
      }
      r := Ok(buffer[offset + 10..end]);
    }
  }

  /**
   * The rdata of an NS record of class IN is the name decoded from the rdata bytes, with its
   * pointers resolved against the whole message; the size still counts the rdata length from
   * the record, not the length of that name.
   */
  lemma ResourceNSName(buffer: seq<byte>, start: nat)
    requires ResourceAt(buffer, start).Ok?
    requires ResourceAt(buffer, start).value.0.body.queryType == TypeNS
    requires ResourceAt(buffer, start).value.0.body.queryClass == ClassIN
    ensures var d := NameAt(buffer, start).value;
            var rec := ResourceAt(buffer, start).value.0;
            var at := start + d.size + 10;
            at + rec.rdLength <= |buffer|
            && NSrDataName(buffer, buffer[at..at + rec.rdLength]) == Ok(rec.rData)
            && ResourceAt(buffer, start).value.1 == d.size + 10 + rec.rdLength
  {
  }

  /**
   * Opaque rdata whose 16-bit end index wraps is refused even when the buffer holds every byte
   * the record claims.
   */
  lemma OpaqueEndWraps(buffer: seq<byte>, start: nat)
    requires NameAt(buffer, start).Ok?
    requires var offset := start + NameAt(buffer, start).value.size;
             && offset < 0x1_0000 && offset + 10 <= |buffer|
             && !(ReadU16(buffer, offset) == TypeNS && ReadU16(buffer, offset + 2) == ClassIN)
             && offset + 10 + ReadU16(buffer, offset + 8) >= 0x1_0000
    ensures ResourceAt(buffer, start) == Err(OutOfBounds)
  {
  }
}
