/**
 * Domain names: the dotted text form, the length-prefixed label form written by `Body.encode`,
 * and the decoder with its compression pointers (`decodeDomainName`, `decodeNSrData`).
 */
module DomainNames {
  import opened Bytes
  import opened Outcomes

  /** The byte '.', on which `strings.Split` cuts a name and with which the decoder joins labels. */
  const Dot: byte := 46

  /** The one length byte the decoder reads as a compression pointer (0xC0). */
  const PointerTag: byte := 192

  // ---------------------------------------------------------------------------------------
  // Dotted names
  // ---------------------------------------------------------------------------------------

  /** `strings.Split(s, ".")`: the pieces between dots; an empty string gives one empty piece. */
  function Split(s: seq<byte>): (parts: seq<seq<byte>>)
    ensures |parts| >= 1
    ensures forall i | 0 <= i < |parts| :: Dot !in parts[i]
  {
    if s == [] then [[]]
    else
      var tail := Split(s[1..]);
      if s[0] == Dot then [[]] + tail
      else [[s[0]] + tail[0]] + tail[1..]
  }

  /** `strings.Join(parts, ".")`: the pieces with one dot between neighbours. */
  function Join(parts: seq<seq<byte>>): (s: seq<byte>)
    requires |parts| >= 1
  {
    if |parts| == 1 then parts[0] else parts[0] + [Dot] + Join(parts[1..])
  }

  /** Joining the pieces of a split gives back the string. */
  lemma {:induction false} JoinSplit(s: seq<byte>)
    ensures Join(Split(s)) == s
  {
    if s != [] {
      var tail := Split(s[1..]);
      JoinSplit(s[1..]);
      if s[0] != Dot && |tail| > 1 {
        assert Join(tail) == tail[0] + [Dot] + Join(tail[1..]);
      }
      assert s == [s[0]] + s[1..];
    }
  }

  /** A piece without dots splits into itself. */
  lemma {:induction false} SplitWithoutDot(p: seq<byte>)
    requires Dot !in p
    ensures Split(p) == [p]
  {
    if p != [] {
      SplitWithoutDot(p[1..]);
      assert [p[0]] + p[1..] == p;
    }
  }

  /** Splitting cuts at the first dot. */
  lemma {:induction false} SplitAtFirstDot(p: seq<byte>, rest: seq<byte>)
    requires Dot !in p
    ensures Split(p + [Dot] + rest) == [p] + Split(rest)
  {
    var s := p + [Dot] + rest;
    if p == [] {
      assert s[1..] == rest;
    } else {
      assert s[1..] == p[1..] + [Dot] + rest;
      SplitAtFirstDot(p[1..], rest);
      assert [p[0]] + p[1..] == p;
    }
  }

  /** Splitting a join of dot-free pieces gives back the pieces. */
  lemma {:induction false} SplitJoin(parts: seq<seq<byte>>)
    requires |parts| >= 1 && forall i | 0 <= i < |parts| :: Dot !in parts[i]
    ensures Split(Join(parts)) == parts
  {
    if |parts| == 1 {
      SplitWithoutDot(parts[0]);
    } else {
      SplitAtFirstDot(parts[0], Join(parts[1..]));
      SplitJoin(parts[1..]);
      assert [parts[0]] + parts[1..] == parts;
    }
  }

  // ---------------------------------------------------------------------------------------
  // Label encoding, as `Body.encode` writes it
  // ---------------------------------------------------------------------------------------

  /** `uint8(len(part))`: the length byte, truncated to eight bits with no check against 63. */
  function LengthByte(part: seq<byte>): (n: byte)
    ensures |part| < 0x100 ==> n == |part|
  {
    |part| % 0x100
  }

  /** Each label preceded by its length byte, in order; the terminator is not included. */
  function LabelsWire(labels: seq<seq<byte>>): seq<byte>
  {
    if labels == [] then [] else [LengthByte(labels[0])] + labels[0] + LabelsWire(labels[1..])
  }

  /** The sum of the label lengths (the `length` accumulated at dns.go:86-88). */
  function SumLen(labels: seq<seq<byte>>): nat
  {
    if labels == [] then 0 else SumLen(labels[..|labels| - 1]) + |labels[|labels| - 1]|
  }

  /** Where label `i` starts in LabelsWire(labels): the total size of the labels before it. */
  function LabelOffset(labels: seq<seq<byte>>, i: nat): nat
    requires i <= |labels|
  {
    SumLen(labels[..i]) + i
  }

  /** A label the decoder reads back as written: non-empty, length fits its byte, and not 192. */
  predicate Decodable(part: seq<byte>)
  {
    0 < |part| < 0x100 && |part| != PointerTag as int
  }

  lemma {:induction false} LabelsWireSnoc(labels: seq<seq<byte>>, l: seq<byte>)
    ensures LabelsWire(labels + [l]) == LabelsWire(labels) + [LengthByte(l)] + l
  {
    if labels != [] {
      assert (labels + [l])[1..] == labels[1..] + [l];
      LabelsWireSnoc(labels[1..], l);
    } else {
      assert ([] + [l])[1..] == [];
    }
  }

  /** One length byte per label plus the label bytes. */
  lemma {:induction false} LabelsWireLength(labels: seq<seq<byte>>)
    ensures |LabelsWire(labels)| == SumLen(labels) + |labels|
  {
    if labels != [] {
      var init, last := labels[..|labels| - 1], labels[|labels| - 1];
      assert labels == init + [last];
      LabelsWireSnoc(init, last);
      LabelsWireLength(init);
    }
  }

  /**
   * The layout of the label encoding: label `i` sits at LabelOffset(labels, i), as its length
   * byte followed by its bytes.
   */
  lemma {:induction false} LabelsWireLayout(labels: seq<seq<byte>>, i: nat)
    requires i < |labels|
    ensures LabelOffset(labels, i) + 1 + |labels[i]| <= |LabelsWire(labels)|
    ensures LabelsWire(labels)[LabelOffset(labels, i)] == LengthByte(labels[i])
    ensures LabelsWire(labels)[LabelOffset(labels, i) + 1..LabelOffset(labels, i) + 1 + |labels[i]|]
            == labels[i]
  {
    var before := labels[..i];
    var upTo := labels[..i + 1];
    assert upTo == before + [labels[i]];
    LabelsWireSnoc(before, labels[i]);
    LabelsWireLength(before);
    var w := LabelsWire(upTo);
    var o := LabelOffset(labels, i);
    assert |LabelsWire(before)| == o;
    LabelsWirePrefix(labels, i + 1);
    assert LabelsWire(labels)[..|w|] == w;
    assert w[o] == LengthByte(labels[i]);
    assert w[o + 1..o + 1 + |labels[i]|] == labels[i];
  }

  lemma {:induction false} LabelsWirePrefix(labels: seq<seq<byte>>, i: nat)
    requires i <= |labels|
    ensures |LabelsWire(labels[..i])| <= |LabelsWire(labels)|
    ensures LabelsWire(labels)[..|LabelsWire(labels[..i])|] == LabelsWire(labels[..i])
  {
    if i > 0 {
      assert labels[..i][1..] == labels[1..][..i - 1];
      LabelsWirePrefix(labels[1..], i - 1);
    } else {
      assert labels[..i] == [];
    }
  }

  // ---------------------------------------------------------------------------------------
  // Decoding
  // ---------------------------------------------------------------------------------------

  /** A decoded name and the number of bytes it occupied at the position where decoding began. */
  datatype Decoded = Decoded(name: seq<byte>, size: nat)

  /** The offsets 0 .. n - 1. */
  function Below(n: nat): (s: set<int>)
    ensures forall i :: i in s <==> 0 <= i < n
  {
    if n == 0 then {} else Below(n - 1) + {n - 1}
  }

  /** Every offset a one-byte compression pointer can name. */
  function ByteOffsets(): set<int>
  {
    Below(0x100)
  }

  lemma ExtendEmpty(r: Result<Decoded>)
    ensures Extend([], 0, r) == r
  {
    if r.Ok? {
      assert [] + r.value.name == r.value.name;
    }
  }

  lemma ExtendTwice(a: seq<byte>, m: nat, b: seq<byte>, n: nat, r: Result<Decoded>)
    ensures Extend(a, m, Extend(b, n, r)) == Extend(a + b, m + n, r)
  {
    if r.Ok? {
      assert a + (b + r.value.name) == (a + b) + r.value.name;
    }
  }

  /** Puts `prefix` before a decoded name and adds `skipped` bytes to its size. */
  function Extend(prefix: seq<byte>, skipped: nat, r: Result<Decoded>): Result<Decoded>
  {
    match r
    case Ok(d) => Ok(Decoded(prefix + d.name, skipped + d.size))
    case Err(e) => Err(e)
  }

  /**
   * What the decoding loop of dns.go computes when it reads labels from `src` starting at `idx`
   * and follows a pointer into `buffer`: a length byte of exactly 192 takes the next byte as the
   * offset of the rest of the name in `buffer`, appends that name and ends, having consumed two
   * bytes here; any other length byte `n` takes the next `n` bytes as a label, and the name ends
   * if the byte after the label is zero, otherwise the label and a dot are kept and reading
   * continues there. `visited` holds the pointer targets already being decoded: following one
   * of them again would recurse without bound in the source (a Go stack overflow), which the model reports as PointerLoop.
   */
  function ReadName(src: seq<byte>, idx: nat, buffer: seq<byte>, visited: set<int>): (r: Result<Decoded>)
    ensures r.Ok? ==> 2 <= r.value.size && idx + r.value.size <= |src|
    decreases ByteOffsets() - visited, |src| - idx
  {
    if idx >= |src| then Err(OutOfBounds)
    else if src[idx] == PointerTag then
      if idx + 1 >= |src| then Err(OutOfBounds)
      else if src[idx + 1] in visited then Err(PointerLoop)
      else
        var target := src[idx + 1];
        assert target in ByteOffsets() - visited;
        match ReadName(buffer, target, buffer, visited + {target})
        case Ok(d) => Ok(Decoded(d.name, 2))
        case Err(e) => Err(e)
    else
      var next := idx + 1 + src[idx];
      if next >= |src| then Err(OutOfBounds)
      else if src[next] == 0 then Ok(Decoded(src[idx + 1..next], next + 1 - idx))
      else Extend(src[idx + 1..next] + [Dot], next - idx, ReadName(src, next, buffer, visited))
  }

  /** `decodeDomainName(buffer, offset)` as its callers invoke it. */
  function NameAt(buffer: seq<byte>, offset: nat): Result<Decoded>
  {
    ReadName(buffer, offset, buffer, {offset})
  }

  /** `decodeNSrData(buffer, rdata)`: the name in `rdata`, its pointers resolved against `buffer`. */
  function NSrDataName(buffer: seq<byte>, rdata: seq<byte>): Result<seq<byte>>
  {
    match ReadName(rdata, 0, buffer, {})
    case Ok(d) => Ok(d.name)
    case Err(e) => Err(e)
  }

  /**
   * The loop state of the decoders: the name read from `offset` is the text `s` gathered so far,
   * followed by what is read from `idx` on.
   */
  predicate Reading(src: seq<byte>, offset: nat, idx: nat, buffer: seq<byte>, visited: set<int>, s: seq<byte>)
  {
    offset <= idx && ReadName(src, offset, buffer, visited) == Extend(s, idx - offset, ReadName(src, idx, buffer, visited))
  }

  /** A read that fails at `idx` fails as a whole, with the same error. */
  lemma StopReading(src: seq<byte>, offset: nat, idx: nat, buffer: seq<byte>, visited: set<int>, s: seq<byte>)
    requires Reading(src, offset, idx, buffer, visited, s)
    requires ReadName(src, idx, buffer, visited).Err?
    ensures ReadName(src, offset, buffer, visited) == ReadName(src, idx, buffer, visited)
  {
  }

  /** Where the read at `idx` fails at once: no byte there, no pointer target, or a label past the end. */
  lemma FailsAt(src: seq<byte>, idx: nat, buffer: seq<byte>, visited: set<int>)
    ensures idx >= |src| ==> ReadName(src, idx, buffer, visited) == Err(OutOfBounds)
    ensures idx < |src| && src[idx] == PointerTag && idx + 1 >= |src| ==>
              ReadName(src, idx, buffer, visited) == Err(OutOfBounds)
    ensures idx + 1 < |src| && src[idx] == PointerTag && src[idx + 1] in visited ==>
              ReadName(src, idx, buffer, visited) == Err(PointerLoop)
    ensures idx < |src| && src[idx] != PointerTag && idx + 1 + src[idx] >= |src| ==>
              ReadName(src, idx, buffer, visited) == Err(OutOfBounds)
  {
  }

  /** A label followed by a non-zero byte: it joins the gathered text with a dot, and reading goes on. */
  lemma AdvanceLabel(src: seq<byte>, offset: nat, idx: nat, buffer: seq<byte>, visited: set<int>, s: seq<byte>)
    requires Reading(src, offset, idx, buffer, visited, s)
    requires idx < |src| && src[idx] != PointerTag
    requires idx + 1 + src[idx] < |src| && src[idx + 1 + src[idx]] != 0
    ensures Reading(src, offset, idx + 1 + src[idx], buffer, visited, s + src[idx + 1..idx + 1 + src[idx]] + [Dot])
  {
    var next := idx + 1 + src[idx];
    var part := src[idx + 1..next];
    var rest := ReadName(src, next, buffer, visited);
    assert ReadName(src, idx, buffer, visited) == Extend(part + [Dot], next - idx, rest);
    ExtendTwice(s, idx - offset, part + [Dot], next - idx, rest);
    assert s + (part + [Dot]) == s + part + [Dot];
  }

  /** A label followed by a zero byte ends the name: the text gathered and that label. */
  lemma FinishLabel(src: seq<byte>, offset: nat, idx: nat, buffer: seq<byte>, visited: set<int>, s: seq<byte>)
    requires Reading(src, offset, idx, buffer, visited, s)
    requires idx < |src| && src[idx] != PointerTag
    requires idx + 1 + src[idx] < |src| && src[idx + 1 + src[idx]] == 0
    ensures ReadName(src, offset, buffer, visited)
            == Ok(Decoded(s + src[idx + 1..idx + 1 + src[idx]], idx + 2 + src[idx] - offset))
  {
    assert ReadName(src, idx, buffer, visited) == Ok(Decoded(src[idx + 1..idx + 1 + src[idx]], src[idx] as int + 2));
  }

  /** A pointer ends the name: the text gathered, then the name at the target; two bytes consumed. */
  lemma FinishPointer(src: seq<byte>, offset: nat, idx: nat, buffer: seq<byte>, visited: set<int>, s: seq<byte>)
    requires Reading(src, offset, idx, buffer, visited, s)
    requires idx + 1 < |src| && src[idx] == PointerTag && src[idx + 1] !in visited
    ensures var t := src[idx + 1];
            ReadName(src, offset, buffer, visited)
            == match ReadName(buffer, t, buffer, visited + {t})
               case Ok(d) => Ok(Decoded(s + d.name, idx + 2 - offset))
               case Err(e) => Err(e)
  {
  }

  /**
   * `decodeDomainName`: the loop over labels with the running index `idx` and the accumulated
   * name `s`; a pointer recurses. `visited` is the guard the model adds against pointer loops.
   */
  method DecodeDomainName(buffer: seq<byte>, offset: nat, visited: set<int>) returns (r: Result<Decoded>)
    ensures r == ReadName(buffer, offset, buffer, visited)
    decreases ByteOffsets() - visited
  {
    var s: seq<byte> := [];
    var idx := offset;
    ExtendEmpty(ReadName(buffer, offset, buffer, visited));
    while true
      invariant Reading(buffer, offset, idx, buffer, visited, s)
      decreases |buffer| - idx
    {
      FailsAt(buffer, idx, buffer, visited);
      if idx >= |buffer| {
        StopReading(buffer, offset, idx, buffer, visited, s);
        return Err(OutOfBounds);
      }
      var length := buffer[idx];
      if length == PointerTag {
        if idx + 1 >= |buffer| {
          StopReading(buffer, offset, idx, buffer, visited, s);
          return Err(OutOfBounds);
        }
        var target := buffer[idx + 1];
        if target in visited {
          StopReading(buffer, offset, idx, buffer, visited, s);
          return Err(PointerLoop);
        }
        FinishPointer(buffer, offset, idx, buffer, visited, s);
        assert target in ByteOffsets() - visited;
        var suffix := DecodeDomainName(buffer, target, visited + {target});
        if suffix.Err? {
          return Err(suffix.error);
        }
        s := s + suffix.value.name;
        idx := idx + 2;
        break;
      } else {
        if idx + 1 + length >= |buffer| {
          StopReading(buffer, offset, idx, buffer, visited, s);
          return Err(OutOfBounds);
        }
        var name := buffer[idx + 1..idx + 1 + length];
        if buffer[idx + 1 + length] == 0 {
          FinishLabel(buffer, offset, idx, buffer, visited, s);
          s := s + name;
          idx := idx + 1 + length + 1;
          break;
        } else {
          AdvanceLabel(buffer, offset, idx, buffer, visited, s);
          s := s + name + [Dot];
          idx := idx + 1 + length;
        }
      }
    }
    return Ok(Decoded(s, idx - offset));
  }

  /**
   * `decodeNSrData`: the same loop over the rdata slice; a pointer decodes the rest of the name
   * from the whole message `buffer`.
   */
  method DecodeNSrData(buffer: seq<byte>, rdata: seq<byte>) returns (r: Result<seq<byte>>)
    ensures r == NSrDataName(buffer, rdata)
  {
    var s: seq<byte> := [];
    var idx := 0;
    ExtendEmpty(ReadName(rdata, 0, buffer, {}));
    while true
      invariant Reading(rdata, 0, idx, buffer, {}, s)
      decreases |rdata| - idx
    {
      FailsAt(rdata, idx, buffer, {});
      if idx >= |rdata| {
        StopReading(rdata, 0, idx, buffer, {}, s);
        return Err(OutOfBounds);
      }
      var length := rdata[idx];
      if length == PointerTag {
        if idx + 1 >= |rdata| {
          StopReading(rdata, 0, idx, buffer, {}, s);
          return Err(OutOfBounds);
        }
        var target := rdata[idx + 1];
        FinishPointer(rdata, 0, idx, buffer, {}, s);
        assert {} + {target as int} == {target as int};
        var suffix := DecodeDomainName(buffer, target, {target});
        if suffix.Err? {
          return Err(suffix.error);
        }
        s := s + suffix.value.name;
        break;
      } else {
        if idx + 1 + length >= |rdata| {
          StopReading(rdata, 0, idx, buffer, {}, s);
          return Err(OutOfBounds);
        }
        var name := rdata[idx + 1..idx + 1 + length];
        if rdata[idx + 1 + length] == 0 {
          FinishLabel(rdata, 0, idx, buffer, {}, s);
          s := s + name;
          break;
        } else {
          AdvanceLabel(rdata, 0, idx, buffer, {}, s);
          s := s + name + [Dot];
          idx := idx + 1 + length;
        }
      }
    }
    return Ok(s);
  }

  // ---------------------------------------------------------------------------------------
  // What decoding promises
  // ---------------------------------------------------------------------------------------

  /** The first label of a label encoding found in `src`, and where the remaining labels begin. */
  lemma WireHead(src: seq<byte>, idx: nat, labels: seq<seq<byte>>)
    requires |labels| >= 1
    requires idx + |LabelsWire(labels)| <= |src|
    requires src[idx..idx + |LabelsWire(labels)|] == LabelsWire(labels)
    ensures idx + 1 + |labels[0]| + |LabelsWire(labels[1..])| == idx + |LabelsWire(labels)|
    ensures src[idx] == LengthByte(labels[0])
    ensures src[idx + 1..idx + 1 + |labels[0]|] == labels[0]
    ensures src[idx + 1 + |labels[0]|..idx + |LabelsWire(labels)|] == LabelsWire(labels[1..])
  {
    var l := labels[0];
    var w := LabelsWire(labels);
    var tail := LabelsWire(labels[1..]);
    var head := [LengthByte(l)] + l;
    assert w == head + tail;
    assert src[idx] == src[idx..idx + |w|][0];
    SliceWithin(src, idx, w, 1, 1 + |l|);
    AppendParts(head, tail);
    AppendParts([LengthByte(l)], l);
    assert w[1..1 + |l|] == head[1..];
    SliceWithin(src, idx, w, 1 + |l|, |w|);
    assert w[1 + |l|..|w|] == w[|head|..];
  }

  /** The last label of a name: a decodable label followed by the zero byte ends the name. */
  lemma ReadLastLabel(src: seq<byte>, idx: nat, buffer: seq<byte>, visited: set<int>, l: seq<byte>)
    requires Decodable(l)
    requires idx + 1 + |l| < |src|
    requires src[idx] == LengthByte(l) && src[idx + 1..idx + 1 + |l|] == l
    requires src[idx + 1 + |l|] == 0
    ensures ReadName(src, idx, buffer, visited) == Ok(Decoded(l, |l| + 2))
  {
  }

  /** A label of a decodable length followed by a non-zero byte: it is kept with a dot before the rest. */
  lemma ReadInnerLabel(src: seq<byte>, idx: nat, buffer: seq<byte>, visited: set<int>, l: seq<byte>)
    requires Decodable(l)
    requires idx + 1 + |l| < |src|
    requires src[idx] == LengthByte(l) && src[idx + 1..idx + 1 + |l|] == l
    requires src[idx + 1 + |l|] != 0
    ensures ReadName(src, idx, buffer, visited)
            == Extend(l + [Dot], |l| + 1, ReadName(src, idx + 1 + |l|, buffer, visited))
  {
  }

  /** A label that is not the last: it is kept with a dot before the rest of the name. */
  lemma ReadLabelBeforeMore(src: seq<byte>, idx: nat, buffer: seq<byte>, visited: set<int>,
                             l: seq<byte>, n: seq<byte>, k: nat)
    requires Decodable(l)
    requires idx + 1 + |l| < |src|
    requires src[idx] == LengthByte(l) && src[idx + 1..idx + 1 + |l|] == l
    requires src[idx + 1 + |l|] != 0
    requires ReadName(src, idx + 1 + |l|, buffer, visited) == Ok(Decoded(n, k))
    ensures ReadName(src, idx, buffer, visited) == Ok(Decoded(l + [Dot] + n, |l| + 1 + k))
  {
    ReadInnerLabel(src, idx, buffer, visited, l);
  }

  /**
   * Labels written as `Body.encode` writes them and ended by a zero byte decode to the dotted
   * name, consuming every label byte and the terminator.
   */
  lemma {:induction false} ReadEncodedLabels(src: seq<byte>, idx: nat, buffer: seq<byte>, visited: set<int>,
                                             labels: seq<seq<byte>>)
    requires |labels| >= 1 && forall i | 0 <= i < |labels| :: Decodable(labels[i])
    requires idx + |LabelsWire(labels)| < |src|
    requires src[idx..idx + |LabelsWire(labels)|] == LabelsWire(labels)
    requires src[idx + |LabelsWire(labels)|] == 0
    ensures ReadName(src, idx, buffer, visited) == Ok(Decoded(Join(labels), |LabelsWire(labels)| + 1))
    decreases |labels|
  {
    var l, rest := labels[0], labels[1..];
    var next := idx + 1 + |l|;
    WireHead(src, idx, labels);
    if rest == [] {
      ReadLastLabel(src, idx, buffer, visited, l);
    } else {
      assert src[next] == src[next..idx + |LabelsWire(labels)|][0] == LabelsWire(rest)[0];
      assert rest[0] == labels[1];
      ReadEncodedLabels(src, next, buffer, visited, rest);
      ReadLabelBeforeMore(src, idx, buffer, visited, l, Join(rest), |LabelsWire(rest)| + 1);
    }
  }

  /**
   * What labels followed by a compression pointer to `target` decode to: the labels joined with
   * dots, then the name found at the target, with two bytes consumed for the pointer.
   */
  function AfterPointer(labels: seq<seq<byte>>, target: byte, buffer: seq<byte>, visited: set<int>): Result<Decoded>
  {
    if target in visited then Err(PointerLoop)
    else match ReadName(buffer, target, buffer, visited + {target})
         case Ok(d) => Ok(Decoded(Join(labels + [d.name]), |LabelsWire(labels)| + 2))
         case Err(e) => Err(e)
  }

  /** One more label in front of labels that end in a pointer. */
  lemma AfterPointerCons(l: seq<byte>, rest: seq<seq<byte>>, target: byte, buffer: seq<byte>, visited: set<int>)
    ensures AfterPointer([l] + rest, target, buffer, visited)
            == Extend(l + [Dot], |l| + 1, AfterPointer(rest, target, buffer, visited))
  {
    var inner := ReadName(buffer, target, buffer, visited + {target});
    if target !in visited && inner.Ok? {
      JoinCons(l, rest, inner.value.name);
      assert ([l] + rest)[0] == l && ([l] + rest)[1..] == rest;
    }
  }

  /** A bare compression pointer: the name is the one at its target, and two bytes are consumed. */
  lemma ReadBarePointer(src: seq<byte>, idx: nat, buffer: seq<byte>, visited: set<int>, target: byte)
    requires idx + 2 <= |src| && src[idx] == PointerTag && src[idx + 1] == target
    ensures ReadName(src, idx, buffer, visited) == AfterPointer([], target, buffer, visited)
  {
    var empty: seq<seq<byte>> := [];
    var inner := ReadName(buffer, target, buffer, visited + {target});
    if target !in visited && inner.Ok? {
      assert empty + [inner.value.name] == [inner.value.name];
    }
  }

  /**
   * The first of several labels written as `Body.encode` writes them, followed by a pointer: it is
   * kept with a dot, and reading continues after it.
   */
  lemma ReadFirstOfLabels(src: seq<byte>, idx: nat, buffer: seq<byte>, visited: set<int>, labels: seq<seq<byte>>)
    requires |labels| >= 1 && forall i | 0 <= i < |labels| :: Decodable(labels[i])
    requires idx + |LabelsWire(labels)| < |src|
    requires src[idx..idx + |LabelsWire(labels)|] == LabelsWire(labels)
    requires src[idx + |LabelsWire(labels)|] == PointerTag
    ensures idx + 1 + |labels[0]| + |LabelsWire(labels[1..])| == idx + |LabelsWire(labels)|
    ensures src[idx + 1 + |labels[0]|..idx + |LabelsWire(labels)|] == LabelsWire(labels[1..])
    ensures ReadName(src, idx, buffer, visited)
            == Extend(labels[0] + [Dot], |labels[0]| + 1, ReadName(src, idx + 1 + |labels[0]|, buffer, visited))
  {
    var l, rest := labels[0], labels[1..];
    var next := idx + 1 + |l|;
    WireHead(src, idx, labels);
    if rest != [] {
      assert src[next] == src[next..idx + |LabelsWire(labels)|][0] == LabelsWire(rest)[0];
      assert rest[0] == labels[1];
    }
    ReadInnerLabel(src, idx, buffer, visited, l);
  }

  /**
   * Labels followed by a compression pointer: the labels are joined with dots, the name found at
   * the pointer's one-byte target is appended, and the pointer consumes exactly two bytes however
   * long that name is.
   */
  lemma {:induction false} ReadLabelsThenPointer(src: seq<byte>, idx: nat, buffer: seq<byte>, visited: set<int>,
                                                 labels: seq<seq<byte>>, target: byte)
    requires forall i | 0 <= i < |labels| :: Decodable(labels[i])
    requires idx + |LabelsWire(labels)| + 2 <= |src|
    requires src[idx..idx + |LabelsWire(labels)|] == LabelsWire(labels)
    requires src[idx + |LabelsWire(labels)|] == PointerTag
    requires src[idx + |LabelsWire(labels)| + 1] == target
    ensures ReadName(src, idx, buffer, visited) == AfterPointer(labels, target, buffer, visited)
    decreases |labels|
  {
    if labels == [] {
      ReadBarePointer(src, idx, buffer, visited, target);
    } else {
      var l, rest := labels[0], labels[1..];
      ReadFirstOfLabels(src, idx, buffer, visited, labels);
      assert forall i | 0 <= i < |rest| :: Decodable(rest[i]) by {
        forall i | 0 <= i < |rest| ensures Decodable(rest[i]) { assert rest[i] == labels[i + 1]; }
      }
      ReadLabelsThenPointer(src, idx + 1 + |l|, buffer, visited, rest, target);
      AfterPointerCons(l, rest, target, buffer, visited);
      assert [l] + rest == labels;
    }
  }

  lemma JoinCons(l: seq<byte>, rest: seq<seq<byte>>, x: seq<byte>)
    ensures Join([l] + rest + [x]) == l + [Dot] + Join(rest + [x])
  {
    assert ([l] + rest + [x])[1..] == rest + [x];
  }

  /**
   * A name spelled out at `x` and a pointer to `x` elsewhere decode to the same text; the spelled
   * name consumes its whole encoding, the pointer two bytes.
   */
  lemma PointerMatchesSpelledOut(buffer: seq<byte>, labels: seq<seq<byte>>, x: byte, at: nat)
    requires |labels| >= 1 && forall i | 0 <= i < |labels| :: Decodable(labels[i])
    requires x + |LabelsWire(labels)| < |buffer|
    requires buffer[x..x + |LabelsWire(labels)|] == LabelsWire(labels)
    requires buffer[x + |LabelsWire(labels)|] == 0
    requires at != x && at + 2 <= |buffer| && buffer[at] == PointerTag && buffer[at + 1] == x
    ensures NameAt(buffer, x) == Ok(Decoded(Join(labels), |LabelsWire(labels)| + 1))
    ensures NameAt(buffer, at) == Ok(Decoded(Join(labels), 2))
  {
    ReadEncodedLabels(buffer, x, buffer, {x}, labels);
    ReadEncodedLabels(buffer, x, buffer, {at, x}, labels);
    assert {at} + {x as int} == {at, x};
    assert buffer[at..at + |LabelsWire([])|] == LabelsWire([]);
    ReadLabelsThenPointer(buffer, at, buffer, {at}, [], x);
  }

  /** A pointer to the name's own first byte is a loop (the source recurses without end). */
  lemma SelfPointerLoops(buffer: seq<byte>, at: byte)
    requires at + 2 <= |buffer| && buffer[at] == PointerTag && buffer[at + 1] == at
    ensures NameAt(buffer, at) == Err(PointerLoop)
  {
  }

  /**
   * A pointer inside NS rdata is resolved against the whole message: the name is the one found at
   * the target offset of `buffer`, whatever the rdata slice holds.
   */
  lemma NSrDataPointerUsesMessage(buffer: seq<byte>, rdata: seq<byte>)
    requires |rdata| >= 2 && rdata[0] == PointerTag
    ensures NSrDataName(buffer, rdata)
            == match NameAt(buffer, rdata[1])
               case Ok(d) => Ok(d.name)
               case Err(e) => Err(e)
  {
    assert {} + {rdata[1] as int} == {rdata[1] as int};
  }

  /**
   * The root name is misread: after a zero length byte the decoder tests the byte after it for
   * the terminator. The RFC 1035 encoding of the root followed by type A ([0, 0, 1, ...]) is
   * taken to consume two bytes, and a zero length byte followed by a label starts the text with a
   * dot.
   */
  lemma RootNameMisread()
    ensures NameAt([0, 0, 1, 0, 1], 0) == Ok(Decoded([], 2))
    ensures NameAt([0, 3, 99, 111, 109, 0], 0) == Ok(Decoded([Dot, 99, 111, 109], 6))
  {
    var a: seq<byte> := [0, 0, 1, 0, 1];
    assert a[0] == 0 && a[1] == 0 && a[1..1] == [];
    var b: seq<byte> := [0, 3, 99, 111, 109, 0];
    assert b[1..1] + [Dot] == [Dot];
    assert ReadName(b, 1, b, {0}) == Ok(Decoded([99, 111, 109], 5)) by {
      assert b[2..5] == [99, 111, 109];
    }
    assert ReadName(b, 0, b, {0}) == Extend([Dot], 1, ReadName(b, 1, b, {0}));
    assert [Dot] + [99, 111, 109] == [Dot, 99, 111, 109];
  }

  /**
   * A label of exactly 192 bytes is written with length byte 192, which the decoder takes for a
   * pointer: only two bytes are consumed, not the 193 the label occupies.
   */
  lemma LongLabelReadAsPointer(src: seq<byte>, idx: nat, buffer: seq<byte>, visited: set<int>, part: seq<byte>)
    requires |part| == 192 && idx + 193 <= |src| && src[idx..idx + 193] == LabelsWire([part])
    ensures ReadName(src, idx, buffer, visited).Ok? ==> ReadName(src, idx, buffer, visited).value.size == 2
  {
    assert LabelsWire([part]) == [LengthByte(part)] + part + LabelsWire([]);
    assert src[idx] == LabelsWire([part])[0] == PointerTag;
  }
}
