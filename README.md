# go-dns: a verified model of the wire codec and the iterative resolver

`dns.go` is a small iterative DNS resolver. It encodes a query for a name (a 12-byte header and
one question), sends it to a root server over UDP and decodes the response. When the response
has an answer, its first answer gives the address. Otherwise it is a referral: the glue
addresses among the additional records are pushed on a stack of servers still to ask, and
when the stack is empty after the glue push, the first authority's name server is resolved by a
nested resolution.

This project models that core in Dafny:

- `bytes.dfy` (`Bytes`): bytes, 16- and 32-bit big-endian fields.
- `outcomes.dfy` (`Outcomes`): the errors and the `Result` type. A Go panic (a slice or index
  out of range) becomes `Err(OutOfBounds)`, and the `os.Exit` of `checkHeader` becomes an error.
- `names.dfy` (`DomainNames`):
  - dotted names and `strings.Split`;
  - the label encoding `Body.encode` writes;
  - `decodeDomainName` and `decodeNSrData`, each as a loop method proved against the
    specification function `ReadName`.
- `messages.dfy` (`Messages`):
  - `Header`, `Body`, `Query` and `Resource`;
  - their encoders and decoders;
  - `checkHeader`.
- `stack.dfy` (`Stacks`): the LIFO `Stack` as a class over a sequence.
- `resolver.dfy` (`Resolver`): the loop of `resolveDomainName`. It is a method over a `Stack` and
  a visited set, proved against the specification `Resolution` / `Walk`. The network is a
  function from a server and a request to the exchange that comes back.

Each loop of the source is a Dafny `method` with invariants, and each such method's `ensures`
ties its result to a specification function. The properties are lemmas about those functions:
- round-trips of the encoders and decoders;
- the consumed-size equations;
- the glue rule's freshness;
- how often a resolution can query a server;
- end-to-end lemmas about the resolver on a direct answer and on a mismatched id.

The source's own quirks are modelled as written and shown by lemmas:
- a pointer is recognised only by a length byte of exactly 192 and has a one-byte target;
- label lengths are truncated to eight bits;
- the root name is misread;
- the 16-bit count sum in `checkHeader` and the 16-bit end index of opaque rdata both wrap.

## Model

| member | source | states |
|---|---|---|
| Bytes.U16Bytes | dns.go:74-79 | `PutUint16`: two bytes, most significant first; U16RoundTrip and U16Inverse state that it and ReadU16 are inverse |
| Bytes.ReadU16 | dns.go:126-131 | `binary.BigEndian.Uint16` of two bytes; its meaning is stated by U16RoundTrip and U16Inverse |
| Bytes.ReadU32 | dns.go:214 | `binary.BigEndian.Uint32` of four bytes; U32RoundTrip states that it reads back what PutUint32 writes |
| Bytes.U32RoundTrip | dns.go:214 | reading four bytes written big-endian gives the 32-bit value back |
| Bytes.U16RoundTrip | dns.go:126-131 | reading two bytes written big-endian gives the 16-bit value back |
| Bytes.U16Inverse | dns.go:74-79 | writing a 16-bit value read from two bytes gives those bytes back |
| Messages.EncodeHeader | dns.go:71-81 | the header is 12 bytes: id, flags, qdCount, anCount, nsCount, arCount, big-endian at offsets 0, 2, 4, 6, 8, 10 |
| Messages.DecodeHeader | dns.go:124-135 | succeeds exactly when 12 bytes are available at the offset (the source panics otherwise), and reports size 12 |
| Messages.HeaderRoundTrip | dns.go:124-135 | decoding an encoded header gives the same header and size 12 |
| Messages.HeaderDecodeEncode | dns.go:71-81 | re-encoding a decoded header gives back the 12 bytes it was read from |
| Messages.CheckHeader | dns.go:59-69 | passes if and only if the ids agree and the 16-bit sum of the three counts is non-zero; fails with IdMismatch exactly when the ids differ, otherwise with NoRecords |
| Messages.CheckHeaderSumWraps | dns.go:65-68 | a response with an answer whose counts add up to 65536 is refused as having no records |
| Messages.BodyWire | dns.go:83-107 | the bytes `Body.encode` produces; BodyLayout, BodyLabelAt and BodyRoundTrip state its layout and that decodeBody reads it back |
| Messages.EncodeBody | dns.go:83-107 | the array written with the running index equals the label encoding of the question, a zero byte, the type and the class |
| Messages.SumLengths | dns.go:85-88 | the loop computes the sum of the label lengths |
| Messages.WriteLabels | dns.go:94-101 | the nested loops write each label after its length byte; the index ends at the length of that encoding, and the bytes after it are unchanged |
| Messages.CopyLabel | dns.go:97-99 | the inner loop copies one label and leaves the bytes before and after it unchanged |
| Messages.BodyLayout | dns.go:90-104 | the encoded question is 4 + the sum of label lengths + the number of labels + 1 bytes long; the label encoding comes first, then a zero byte; type and class are big-endian in the last four bytes |
| Messages.BodyLabelAt | dns.go:95-101 | label i sits right after its length byte, at the summed size of the labels before it |
| Messages.QueryWire | dns.go:109-122 | the bytes `Query.encode` produces; QueryRoundTrip states that they decode back to the query |
| Messages.EncodeQuery | dns.go:109-122 | the query is the encoded header followed by the encoded question |
| Messages.BodyAt | dns.go:137-148 | a decoded question spans at least 6 bytes and lies within the buffer |
| Messages.BodyAfterName | dns.go:138-147 | once the name at the start decodes, the question is that name with the type and class read big-endian after it, and its size is the name's size + 4 |
| Messages.DecodeBody | dns.go:137-148 | the method computes BodyAt: the name at the start, then type and class |
| Messages.BodyRoundTrip | dns.go:137-148 | decoding an encoded question whose labels are decodable gives back the question, with size equal to its encoded length |
| Messages.QuestionNameRoundTrip | dns.go:150-178 | decoding the name of an encoded question gives the dotted name and consumes the encoded length minus 4 |
| Messages.QueryRoundTrip | dns.go:109-148 | decoding an encoded query gives back its header (size 12) and its question (the rest of the bytes) |
| Messages.OpaqueEnd | dns.go:221 | the 16-bit end index, computed modulo 65536, equals offset + 10 + rdLength when that fits in 16 bits, and falls below offset + 10 when it wraps |
| Messages.ResourceAt | dns.go:207-237 | a decoded record lies within the buffer; a record other than NS/IN has exactly rdLength bytes of rdata (its fields are stated by ResourceFields and ResourceSize) |
| Messages.ResourceSize | dns.go:209-236 | a decoded record is owned by the name at its start, and its size is that name's size + 10 + rdLength |
| Messages.RecordAfter | dns.go:210-236 | after the owner name: type, class, TTL and rdLength are the big-endian fields at +0, +2, +4 and +8; the owner is the record's name; rdata other than NS/IN is the next rdLength bytes; the size counts the owner's size, 10 and rdLength |
| Messages.ResourceFields | dns.go:209-222 | a decoded record's type, class, TTL and rdLength are the big-endian fields after its owner name, and rdata other than NS/IN is the rdLength bytes after them |
| Messages.RecordRoundTrip | dns.go:210-236 | any record other than NS/IN whose fixed fields and rdata are written after its owner decodes back to that record, with size owner size + 10 + rdLength, provided the 16-bit end index does not wrap |
| Messages.ResourceAfterOwner | dns.go:209-210 | once the owner name decodes, the record is what follows the name |
| Messages.RDataAt | dns.go:217-222 | NS/IN rdata needs rdLength bytes in the buffer; other rdata is decoded exactly when its end fits the buffer and does not wrap 16 bits, and is then the rdLength bytes after the fixed fields |
| Messages.DecodeResource | dns.go:207-237 | the method computes ResourceAt |
| Messages.DecodeRData | dns.go:217-222 | the method computes RDataAt |
| Messages.ResourceNSName | dns.go:218-235 | NS/IN rdata is the name decoded from the rdata bytes, its pointers resolved against the whole message; the size is still the name's size + 10 + rdLength |
| Messages.OpaqueEndWraps | dns.go:221 | opaque rdata whose 16-bit end index wraps is refused even though the buffer holds every byte the record claims |
| DomainNames.Split | dns.go:84 | the split has at least one piece and no piece contains a dot |
| DomainNames.JoinSplit | dns.go:84 | joining the pieces of a split with dots gives the name back |
| DomainNames.SplitJoin | dns.go:84 | splitting a join of dot-free pieces gives the pieces back |
| DomainNames.LengthByte | dns.go:96 | the length byte is the label's length when it is below 256, with no check against 63 |
| DomainNames.LabelsWire | dns.go:95-101 | each label after its length byte, in order; LabelsWireLength, LabelsWireLayout and ReadEncodedLabels state its size, layout and decoding |
| DomainNames.LabelsWireLength | dns.go:92 | the label encoding is the sum of label lengths plus one byte per label |
| DomainNames.LabelsWireLayout | dns.go:95-101 | label i sits in the encoding right after its length byte |
| DomainNames.ReadName | dns.go:150-178 | a decoded name consumes at least 2 bytes, all within the bytes it is read from |
| DomainNames.NameAt | dns.go:150-178 | `decodeDomainName(buffer, offset)` as its callers call it; ReadEncodedLabels, ReadLabelsThenPointer and PointerMatchesSpelledOut state what it reads |
| DomainNames.NSrDataName | dns.go:180-205 | `decodeNSrData`: the name in the rdata; NSrDataPointerUsesMessage states that its pointers resolve in the whole message |
| DomainNames.DecodeDomainName | dns.go:150-178 | the loop over labels, with its recursion on pointers, computes ReadName |
| DomainNames.DecodeNSrData | dns.go:180-205 | the loop over the rdata bytes computes the name in the rdata, its pointers resolved against the whole message |
| DomainNames.AdvanceLabel | dns.go:170-172 | a label followed by a non-zero byte is kept with a dot, and reading goes on after it |
| DomainNames.FinishLabel | dns.go:164-169 | a label followed by a zero byte ends the name and consumes that byte too |
| DomainNames.FinishPointer | dns.go:157-162 | a pointer ends the name: the gathered text, then the name at the target; two bytes consumed |
| DomainNames.ReadEncodedLabels | dns.go:154-174 | labels written as the encoder writes them, followed by a zero byte, decode to the labels joined with dots and consume the whole encoding and the zero byte |
| DomainNames.ReadBarePointer | dns.go:157-162 | a bare pointer decodes to the name at its one-byte target and consumes two bytes |
| DomainNames.ReadLabelsThenPointer | dns.go:154-174 | labels followed by a pointer decode to the labels and the target's name joined with dots; the pointer consumes exactly two bytes however long the target's name is |
| DomainNames.PointerMatchesSpelledOut | dns.go:157-162 | a pointer to a spelled-out name decodes to the same text in two bytes; the spelled-out name consumes its whole encoding |
| DomainNames.SelfPointerLoops | dns.go:157-159 | a pointer to its own position is reported as a loop (the source recurses without end) |
| DomainNames.NSrDataPointerUsesMessage | dns.go:186-188 | a pointer in NS rdata is resolved against the whole message, not the rdata slice |
| DomainNames.RootNameMisread | dns.go:164-166 | after a zero length byte the decoder tests the byte after it: the root followed by type A consumes 2 bytes, and a zero byte before a label puts a dot in front of the text |
| DomainNames.LongLabelReadAsPointer | dns.go:96 | a 192-byte label is written with length byte 192, which the decoder takes for a pointer, so only 2 bytes are consumed |
| Stacks.PopFrom | dns.go:21-30 | a pop succeeds if and only if there are items; the popped item and the rest make up the old items |
| Stacks.PushThenPop | dns.go:16-30 | pushing x then popping gives x back and restores the items before the push |
| Stacks.PopEmpty | dns.go:22-24 | popping an empty stack reports an error and leaves it empty |
| Stacks.Stack.constructor | dns.go:278 | the stack holds the initial items |
| Stacks.Stack.Push | dns.go:16-18 | x is appended on top |
| Stacks.Stack.Pop | dns.go:21-30 | the result and the new items are those PopFrom gives for the old items |
| Resolver.QueryFor | dns.go:263-266 | the query asks for the name, with id 22 |
| Resolver.ReceiveBuffer | dns.go:298-299 | the buffer is 512 bytes: the datagram's bytes, then zeros |
| Resolver.HostOf | dns.go:350 | the address is the record's first four rdata bytes |
| Resolver.AddressOf | dns.go:323 | the answer's address exists exactly when the rdata has at least four bytes, and is made of the first four |
| Resolver.Section | dns.go:327-344 | a decoded section has exactly the count of records, ends after its start, and every record's rdata length agrees with it unless it is NS/IN |
| Resolver.SectionStep | dns.go:327-334 | one iteration: a failing record ends the section with its error, otherwise it is followed by the rest of the section after it |
| Resolver.DecodeSection | dns.go:326-344 | the loop that appends records and advances the position computes Section |
| Resolver.Examine | dns.go:304-344 | a response with another id ends with IdMismatch; a referral comes only with no answers, has as many authority and additional records as the header counts, and only additional records whose rdata length agrees (the answer and empty-string paths are stated by ExamineAddress and BlankOnOtherQuestion) |
| Resolver.ExamineResponse | dns.go:304-344 | the method computes Examine |
| Resolver.IsGlue | dns.go:349 | an additional record is glue when it has type A, class IN and rdLength 4 |
| Resolver.GlueFrom | dns.go:346-356 | the glue addresses pushed and the visited set after them; GlueFresh, GlueVisited and GlueCount state its properties |
| Resolver.PushGlue | dns.go:346-356 | the loop pushes exactly the glue addresses GlueFrom selects, in order, and returns the visited set GlueFrom leaves |
| Resolver.GlueFresh | dns.go:349-354 | no address is pushed twice, none already visited is pushed, every pushed address is visited afterwards, and nothing leaves the visited set |
| Resolver.GlueVisited | dns.go:349-354 | the visited set after glue is the old one plus exactly the addresses of the glue records (type A, class IN, rdLength 4) |
| Resolver.GlueCount | dns.go:351-353 | an address is pushed at most once, only when it was not visited, and is visited once pushed |
| Resolver.Resolution | dns.go:262-278 | the resolution of a name: the walk from the stack [root] with visited {root}; ResolveDomainName computes it and ResolutionQueries bounds its queries |
| Resolver.Walk | dns.go:280-366 | the loop from a given stack and visited set: empty stack, pop, exchange; WalkStep and WalkQueries state its step and bound |
| Resolver.Respond | dns.go:286-344 | one exchange: a transport failure, a final verdict, or a referral; RespondQueries states its bound |
| Resolver.FollowUp | dns.go:346-365 | a referral: glue pushed; when the stack is then empty, the first authority resolved and pushed; FallbackNotVisited and FollowUpQueries state its properties |
| Resolver.WalkStep | dns.go:280-302 | one iteration pops the top server and sends it the query |
| Resolver.FollowReferral | dns.go:346-365 | it stops only when glue leaves the stack empty, with FollowUp's result; otherwise the visited set is the one glue leaves and the stack is the old one plus the glue pushes, or, when that is empty, the one server found for the first authority; walking on from there gives FollowUp's result |
| Resolver.ResolveDomainName | dns.go:262-367 | the loop over the stack computes the result of Resolution |
| Resolver.WalkQueries | dns.go:275-365 | within one level, a server is queried at most as often as it is on the stack, plus once if it was not visited, plus once per fallback push |
| Resolver.RespondQueries | dns.go:286-344 | the same bound for one iteration after the pop |
| Resolver.FollowUpQueries | dns.go:346-365 | the same bound for a referral: glue pays for every server it schedules |
| Resolver.ResolutionQueries | dns.go:273-366 | a resolution queries each server at most once, plus once per fallback push of it |
| Resolver.FallbackNotVisited | dns.go:359-365 | when glue pushes nothing and the stack is empty, the server found for the first authority is pushed without being marked visited |
| Resolver.IdMismatchAborts | dns.go:304-309 | a root reply with another id ends the resolution with IdMismatch after querying the root alone |
| Resolver.BlankOnOtherQuestion | dns.go:312-315 | the empty-string result comes exactly from a response that passes the header check and echoes another question |
| Resolver.ExamineAddress | dns.go:304-324 | a response gives an address exactly when the header passes, the question is the one asked, anCount > 0 and the first record after the question decodes with at least four rdata bytes; the address is that record's |
| Resolver.DirectOwner | dns.go:157-162 | the answer's owner, a pointer to offset 12, reads as the question's name in two bytes |
| Resolver.DirectRecord | dns.go:212-222 | the answer's fixed fields give type A, class IN and four bytes of rdata, 16 bytes in all |
| Resolver.DirectAnswerRecord | dns.go:318-323 | the first answer of a direct response gives the address it carries |
| Resolver.ExamineDirect | dns.go:304-324 | a direct response to the query is read as the address it carries |
| Resolver.DirectAnswer | dns.go:262-324 | when the root answers directly, the resolution returns that address after querying the root alone |

## Left out

- `main`, `printBinary`, the timing and every `fmt.Print*` line (dns.go:239-256, dns.go:292, dns.go:370-388): command-line handling and output.
- Socket I/O (`net.Dial`, `conn.Write`, `conn.Read`, `defer conn.Close`, dns.go:286-302): the network is a parameter, a function from a server and the request to the datagram read back or a failure. A failure to dial, write or read is one error, TransportError. The function is deterministic, so a server asked twice answers the same way.
- `os.Exit` in `checkHeader` (dns.go:62, dns.go:67): the model reports IdMismatch or NoRecords, and the resolution ends with that error.
- Go panics on an index or slice out of range become `Err(OutOfBounds)`. Slices are modelled with capacity equal to length. For the rdata slice passed to `decodeNSrData` the capacity is larger, but any read past its length panics at `rdata[idx]` anyway.
- Resolver.ResolveDomainName: the source loop and its nested resolution are unbounded. A fallback server is pushed without being marked visited, so the source can loop without bound, leaking a socket per iteration (each `defer conn.Close()` waits for the function to return). The model bounds both with `fuel` (one unit per iteration and per nesting level) and ends with `Err(OutOfFuel)` when it runs out.
- DomainNames.ReadName: the source does not guard against pointer loops and recurses without bound on one, which Go aborts with a stack overflow. The model keeps the set of pointer targets being decoded and reports `Err(PointerLoop)` when one repeats. Targets are single bytes and decoding from an offset is deterministic, so the model reports this exactly when the source's recursion is unbounded.
- Dotted-quad formatting with `fmt.Sprintf` (dns.go:323, dns.go:350): an address is the `Host` value `Dotted(a, b, c, d)`. The empty string returned for a mismatched question is `Blank`.
- The `nameServer` parameter of `resolveDomainName` is never read by the source, and the model omits it.
- The error check after `Pop` (dns.go:281-284) cannot fire under the loop condition. The model's loop pops only a non-empty stack.
- The answer loop (dns.go:318-324) returns in its first iteration, so it is modelled as a test of `anCount > 0`.
- A datagram longer than 512 bytes is cut to the 512-byte buffer, as `conn.Read` into that buffer does.
- `Stack` holds any element type; the resolver uses it with `Host`.
- Method factoring: ExamineResponse, DecodeSection, FollowReferral, SumLengths, WriteLabels, CopyLabel and DecodeRData are parts of one Go function, split so that each loop has its own invariant.
- Concurrency and timing: none in the core.
