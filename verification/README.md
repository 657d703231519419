# The Sink Go client, modelled and proved in Dafny

The Go client for the Sink service keeps records under canonical URIs, ships batches of reads, writes and
deletes over gRPC with its own protobuf codec, retries what may be retried, and keeps DNS answers fresh. This
project models the five parts of it on which correctness rests and proves what they promise, for every input,
every server and every interleaving:

1. **The wire codec** (`Varint`, `WireFormat`, `Messages`, `RoundTrip`, `Marshal`, `Unmarshal`, `Codec`, and for
   responses `ReadMessages`, `ReadRoundTrip`, `ReadUnmarshal`, `Responses`). The `WriteRequest` tree is
   written backwards into a pre-sized byte array and read by a forward index loop.
   `Messages` gives the bytes of a message and the effect of one decoded record; `RoundTrip` states, without
   bytes, what decoding into an existing message means; `Marshal` and `Unmarshal` are the in-place algorithms,
   proved to compute exactly that. A message round-trips exactly when it holds no nil inside and its unknown
   bytes are whole records of unknown fields. The `ReadResponse` tree is read the same way, down to the slots of
   the caller's results. `WireNumbers` states the format of every message in literal bytes.
2. **Canonical URIs and typed keys** (`PathText`, `KeyText`, `Uri`, `Keys`). Parser and printer are exact
   inverses, keys are injective across all types, so equal record URIs mean equal resources and equal keys.
3. **Batches and the read retry** (`Results`, `Slots`, `Retry`, `Backoff`, `Client`, `Reading`, `Mutation`,
   `Writing`). `Network` is a connection that answers from arbitrary scripts and logs every request and wait.
   Results live in arrays and point to mutable error objects, as in the source, and indexes are rewritten
   through those pointers. The specification of a run is a function on values (`Retry.Run`,
   `Reading.ReadBatches`, `Mutation.Outcome`); the methods are proved against it, and the promises are proved
   about it.
4. **The DNS refresh loop** (`DnsRefresh`). A step relation over event loop, resolver callbacks, hints, timer
   and `Close`; generation numbers for resolvers exist only in the model. One invariant, then theorems over
   whole runs, among them that refreshes go on happening and that `Close` returns.
5. **Scan pages and Lua factoring** (`Headers`, `Scanning`, `Writing`). One identical request per page, a
   progress guard that bounds the caller's loop, and a factoring of Lua sources that loses nothing, proved end
   to end through the codec's bytes.

Findings about the code itself:

- `SizeVT` counts three bytes for a oneof wrapper holding nil where two are written, so the codec refuses such
  a request; this is the only way a request can fail to encode (`Marshal.RequestSizeIsLength`,
  `Codec.MarshalToBuffer`).
- `uri.New` does not check its store before splicing it into the text: `New("a/b", ["c"])` succeeds with store
  `a`. It gives its arguments back exactly when the store and segments are valid and the text fits
  (`Uri.NewOfSlashedStore`, `Uri.NewIff`).
- MaxBackoff caps the backoff, not the wait: jitter comes after the cap. Under the default policy no wait passes
  it, as the repository's README says (README.md:625-629), because only two waits of at most 0.24 s happen
  (`Backoff.DefaultPolicyStaysBelowMax`); with six attempts and defaults otherwise one can take 1.19 s
  (`Backoff.SixAttemptsCanExceedMax`). `Backoff.WaitsStayBelowMaxIff` gives the exact condition, and
  `Backoff.TotalWait` the bound that always holds.
- An operation index on the wire counts modulo 2^32: the index 2^32 + i is taken for i
  (`ReadRoundTrip.IndexWraps`).
- Decoding into an operation whose oneof wrapper holds nil can panic (`RoundTrip.NilPanics` gives the bytes), and
  only then (`RoundTrip.OperationSafeIff`). No bytes can bring a request decoder there
  (`RoundTrip.RequestNeverPanics`).

`dafny verify dfyconfig.toml` checks the whole project.

## Model

| member | source | states |
|---|---|---|
| Varint.SizeOfIsLength | api/sink/v1/sink_vtproto.pb.go:1735-1735 | the bit-count formula for a varint's size is the number of bytes written, for every value |
| Varint.EncodeInto | api/sink/v1/sink_vtproto.pb.go:54-54 | the varint ends just before the offset, holds the value's groups, and no other byte of the buffer changes |
| Varint.ReadEncode64 | api/sink/v1/sink_vtproto.pb.go:2375-2388 | reading any encoded 64-bit value gives it back, whatever bytes follow |
| Varint.ReadPrefix | api/sink/v1/sink_vtproto.pb.go:2375-2388 | a varint that is read depends only on the bytes it takes |
| Varint.ReadAt | api/sink/v1/sink_vtproto.pb.go:2375-2388 | the inlined shift loop ends after at most ten bytes and computes the value the groups denote, or fails on overflow or end of input |
| Varint.SignExtend | api/sink/v1/sink_vtproto.pb.go:404-409 | a negative enum becomes a 64-bit value whose low 32 bits give the enum back; only zero is omitted |
| Varint.EncodeGroups | api/sink/v1/sink_vtproto.pb.go:54-54 | the bytes written are one varint, seven bits a byte and least significant first, worth the value, with no empty last group |
| Varint.NegativeTakesTenBytes | api/sink/v1/sink_vtproto.pb.go:404-409 | a negative enum takes ten bytes on the wire |
| Varint.ReadTen | api/sink/v1/sink_vtproto.pb.go:2375-2388 | the first byte without the high bit among the first ten ends a varint worth its groups; without one, ten bytes are an overflow and fewer the end of input |
| WireFormat.ReadLengthAt | api/sink/v1/sink_vtproto.pb.go:2402-2429 | despite wrap-around at 2^63 the announced bytes lie inside the input; it fails exactly when they do not |
| WireFormat.SkipAt | api/sink/v1/sink_vtproto.pb.go:3215-3226 | an unknown field, nested groups included, is passed in bounds, and exactly when one whole field is there |
| WireFormat.SkipAlone | api/sink/v1/sink_vtproto.pb.go:3215-3226 | the bytes of a skipped field are by themselves one skippable field of the same extent |
| WireFormat.ReadFieldPrefix | api/sink/v1/sink_vtproto.pb.go:3100-3235 | a record that is read depends only on its own bytes |
| WireFormat.RunConcat | api/sink/v1/sink_vtproto.pb.go:3097-3236 | for any schema, decoding a ++ b when a decodes is decoding a and then b into the same message |
| WireFormat.RunLen | api/sink/v1/sink_vtproto.pb.go:3100-3213 | a written length-delimited record is read as that one field with that payload |
| WireFormat.RunVarint | api/sink/v1/sink_vtproto.pb.go:3100-3144 | a written varint record is read as that one field with that value |
| WireFormat.RunUnknown | api/sink/v1/sink_vtproto.pb.go:3215-3229 | bytes made of unknown records are appended to the unknown bytes and change nothing else |
| WireFormat.RunKeepsUnknown | api/sink/v1/sink_vtproto.pb.go:3215-3229 | whatever is decoded, the unknown bytes stay a run of whole unknown records |
| WireFormat.RunNeverPanics | api/sink/v1/sink_vtproto.pb.go:3097-3236 | if no field panics while an invariant holds and every field keeps it, a decoder loop never panics |
| WireFormat.RecordNumbers | api/sink/v1/sink_vtproto.pb.go:404-409 | a varint record starts with the byte 8 * num, a length-delimited one with 8 * num + 2 and the length |
| WireFormat.FieldNumbers | api/sink/v1/sink_vtproto.pb.go:3115-3125 | a tag's low three bits are the wire type, 4 refused, and the rest as an int32 the field number; a known field is read exactly if it comes with type 0 for a varint or 2 for bytes |
| WireFormat.LengthNumbers | api/sink/v1/sink_vtproto.pb.go:2402-2429 | a length is the varint's low 64 bits, accepted exactly below 2^63 and within the input, and counts the bytes that follow |
| WireFormat.SkipNumbers | api/sink/v1/sink_vtproto.pb.go:3215-3226 | for each wire type by number, what is skipped: a varint, 8 bytes, a counted run, one level deeper or higher, 4 bytes, or an error |
| WireFormat.SkipGroup | api/sink/v1/sink_vtproto.pb.go:3215-3226 | any run of whole fields, nested groups included, between a group's start and end tag is skipped as one field |
| WireFormat.RunAnyVarint | api/sink/v1/sink_vtproto.pb.go:3126-3144 | any varint of at most ten bytes, canonical or not, is taken as a varint field's value |
| WireNumbers.AddressOnWire | api/sink/v1/sink_vtproto.pb.go:39-59 | an address's bytes with its tag as a literal |
| WireNumbers.DocumentOnWire | api/sink/v1/sink_vtproto.pb.go:79-104 | a document's bytes with literal tags 08 and 12; negative encodings count from 2^64 down |
| WireNumbers.ProgramOnWire | api/sink/v1/sink_vtproto.pb.go:641-668 | a program's bytes with literal tags 0A and 12 |
| WireNumbers.PutOnWire | api/sink/v1/sink_vtproto.pb.go:540-568 | a put's bytes with literal tags 0A and 10 |
| WireNumbers.MergeOnWire | api/sink/v1/sink_vtproto.pb.go:588-621 | a merge's bytes with literal tags 0A and 12 |
| WireNumbers.OperationOnWire | api/sink/v1/sink_vtproto.pb.go:432-521 | an operation's bytes with literal tags 0A, 20 and, last, 12 or 1A; a wrapper holding nil is 12 00 or 1A 00 |
| WireNumbers.RequestOnWire | api/sink/v1/sink_vtproto.pb.go:370-412 | a request's bytes: 08, then each operation under 12, then each program under 1A, then the unknown bytes |
| WireNumbers.RevisionOnWire | api/sink/v1/sink_vtproto.pb.go:124-144 | a revision token's bytes with tag 0A |
| WireNumbers.FailureOnWire | api/sink/v1/sink_vtproto.pb.go:997-1032 | a failure's bytes with tags 08, 12 and 18 |
| WireNumbers.ResultOnWire | api/sink/v1/sink_vtproto.pb.go:297-350 | a read result's bytes with tags 08, 10, 1A, 22 and 2A |
| WireNumbers.ResponseOnWire | api/sink/v1/sink_vtproto.pb.go:252-277 | a read response's bytes: each result under 0A, then the unknown bytes |
| WireNumbers.KnownFields | api/sink/v1/sink_vtproto.pb.go:3125-3213 | which field numbers each message knows, and as what; all others are kept as unknown |
| WireNumbers.RequestNumbers | api/sink/v1/sink_vtproto.pb.go:3126-3144 | any varint in an enum field keeps its low 32 bits as an int32, in a flag it is true unless its low 64 bits are zero |
| WireNumbers.ResponseNumbers | api/sink/v1/sink_vtproto.pb.go:2929-2966 | the same for responses, and an operation index keeps its low 32 bits |
| WireNumbers.LaterDocumentWins | api/sink/v1/sink_vtproto.pb.go:2452-2555 | two documents' bytes joined decode to, field by field, the later nonzero value |
| WireNumbers.LaterActionWins | api/sink/v1/sink_vtproto.pb.go:3302-3383 | a later action of the other kind replaces the earlier one, of the same kind merges with it |
| WireNumbers.LaterRequestAppends | api/sink/v1/sink_vtproto.pb.go:3097-3236 | two requests' bytes joined decode to the later nonzero mode and both lists of operations and programs |
| WireNumbers.NilNumbers | api/sink/v1/sink_vtproto.pb.go:3302-3383 | on a nil message any readable record panics, and a write mode's tag does with anything after it |
| RoundTrip.AddressOverAddress | api/sink/v1/sink_vtproto.pb.go:2369-2451 | decoding an encoded address into an address: last URI wins, unknown bytes append |
| RoundTrip.DocumentOverDocument | api/sink/v1/sink_vtproto.pb.go:2452-2555 | decoding an encoded document into a document merges field by field, last one wins, negative encodings included |
| RoundTrip.ProgramOverProgram | api/sink/v1/sink_vtproto.pb.go:3655-3773 | the same for Lua programs |
| RoundTrip.PutOverPut | api/sink/v1/sink_vtproto.pb.go:3426-3531 | the same for put operations; a nested document merges into the one already there |
| RoundTrip.MergeOverMerge | api/sink/v1/sink_vtproto.pb.go:3532-3654 | the same for merge operations and both their submessages |
| RoundTrip.ActionOverAction | api/sink/v1/sink_vtproto.pb.go:3302-3383 | the oneof: an equal case merges into the wrapper there, another case replaces it |
| RoundTrip.OperationOverOperation | api/sink/v1/sink_vtproto.pb.go:3237-3425 | decoding an encoded operation into an operation is the message-level merge of the two |
| RoundTrip.OperationsAppend | api/sink/v1/sink_vtproto.pb.go:3146-3179 | encoded repeated operations are appended in order, whatever was there |
| RoundTrip.ProgramsAppend | api/sink/v1/sink_vtproto.pb.go:3180-3213 | encoded Lua programs are appended in order |
| RoundTrip.RequestOverRequest | api/sink/v1/sink_vtproto.pb.go:3097-3236 | decoding an encoded request into any request is their merge: scalars last wins, repeated fields append, unknown bytes append |
| RoundTrip.RequestRoundTrip | api/sink/v1/sink_vtproto.pb.go:370-412 | every valid request decodes from its own bytes |
| RoundTrip.RoundTripIff | api/sink/v1/sink_vtproto.pb.go:370-412 | a request decodes from its own bytes if and only if it holds no nil element or wrapper and its unknown bytes are whole unknown records |
| RoundTrip.RequestConcat | api/sink/v1/sink_vtproto.pb.go:3097-3236 | decoding a concatenation of request bytes is decoding the parts in order into one message |
| RoundTrip.DecodedOperation | api/sink/v1/sink_vtproto.pb.go:3237-3425 | whatever bytes arrive, a decoded operation has no nil wrapper and only whole unknown records, at every level |
| RoundTrip.DecodedRequest | api/sink/v1/sink_vtproto.pb.go:3097-3236 | the same for whole requests |
| RoundTrip.ReencodeStable | api/sink/v1/sink_vtproto.pb.go:3097-3236 | any bytes that decode and their re-encoding decode to the same request |
| RoundTrip.NilPanics | api/sink/v1/sink_vtproto.pb.go:3302-3383 | for every operation whose wrapper holds nil, bytes on which its decoder dereferences it |
| RoundTrip.OperationSafeIff | api/sink/v1/sink_vtproto.pb.go:3237-3425 | no bytes at all make the decoder of an operation dereference nil if and only if the operation's wrapper does not hold nil |
| RoundTrip.RequestNeverPanics | api/sink/v1/sink_vtproto.pb.go:3097-3236 | decoding a request never dereferences nil, whatever the bytes and the message read into |
| Marshal.SizeRequest | api/sink/v1/sink_vtproto.pb.go:1846-1869 | the accumulating loops compute the size the length lemmas are about |
| Marshal.DocumentSizeIsLength | api/sink/v1/sink_vtproto.pb.go:1741-1756 | a document's size is the number of bytes written |
| Marshal.ProgramSizeIsLength | api/sink/v1/sink_vtproto.pb.go:1954-1970 | the same for Lua programs |
| Marshal.PutSizeIsLength | api/sink/v1/sink_vtproto.pb.go:1919-1934 | the same for puts |
| Marshal.MergeSizeIsLength | api/sink/v1/sink_vtproto.pb.go:1936-1952 | the same for merges |
| Marshal.ActionSizeIsLength | api/sink/v1/sink_vtproto.pb.go:1891-1918 | a oneof wrapper's size is exact, except that one holding nil counts one byte too many |
| Marshal.OperationSizeIsLength | api/sink/v1/sink_vtproto.pb.go:1871-1889 | an operation's size is exact, or one too large if its wrapper holds nil |
| Marshal.OperationsSizeIsLength | api/sink/v1/sink_vtproto.pb.go:1855-1860 | over a list the excess never cancels out: the size is exact if and only if no wrapper holds nil |
| Marshal.RequestSizeIsLength | api/sink/v1/sink_vtproto.pb.go:1846-1869 | a request's size is at least, and exactly if no wrapper holds nil, the number of bytes written |
| Marshal.MarshalAddress | api/sink/v1/sink_vtproto.pb.go:39-59 | the address's bytes land just before the end index; every other byte of the buffer is as before |
| Marshal.MarshalDocument | api/sink/v1/sink_vtproto.pb.go:79-104 | the same for documents |
| Marshal.MarshalProgram | api/sink/v1/sink_vtproto.pb.go:641-668 | the same for Lua programs |
| Marshal.MarshalPut | api/sink/v1/sink_vtproto.pb.go:540-568 | the same for puts, the nested length being known only after the document is written |
| Marshal.MarshalMerge | api/sink/v1/sink_vtproto.pb.go:588-621 | the same for merges |
| Marshal.PutWrapperInto | api/sink/v1/sink_vtproto.pb.go:481-498 | the put wrapper is written in front of what is there, as an empty record if it holds nil |
| Marshal.MergeWrapperInto | api/sink/v1/sink_vtproto.pb.go:504-521 | the same for the merge wrapper |
| Marshal.MarshalOperation | api/sink/v1/sink_vtproto.pb.go:432-474 | the operation's bytes, oneof last, land just before the end index and nothing else changes |
| Marshal.OperationsInto | api/sink/v1/sink_vtproto.pb.go:394-405 | the backwards loop puts the operations' records in list order in front of what is there |
| Marshal.ProgramsInto | api/sink/v1/sink_vtproto.pb.go:382-393 | the same for Lua programs |
| Marshal.MarshalRequest | api/sink/v1/sink_vtproto.pb.go:370-412 | the returned count is the number of bytes, they land just before the end index, and the rest of the buffer is untouched whatever it held |
| Codec.BufferPool.Get | grpc_codec.go:50-51 | a lent buffer has the asked size and unknown contents, and counts as lent |
| Codec.MarshalToBuffer | grpc_codec.go:30-62 | succeeds if and only if no wrapper holds nil; then the buffer holds exactly the request's bytes over any earlier contents and decodes to the request; on error a pooled buffer goes back, on success it stays with the caller |
| Unmarshal.NextField | api/sink/v1/sink_vtproto.pb.go:3100-3145 | one turn of a decoder loop advances, stays in bounds, and reads the record the format defines there, or fails when there is none |
| Unmarshal.UnmarshalNil | api/sink/v1/sink_vtproto.pb.go:3426-3531 | a decoder called on nil panics exactly when its first record is one it would store, a varint field being zeroed before it is read |
| Unmarshal.UnmarshalAddress | api/sink/v1/sink_vtproto.pb.go:2369-2451 | on every input the loop ends in bounds and agrees with the meaning of the bytes |
| Unmarshal.UnmarshalDocument | api/sink/v1/sink_vtproto.pb.go:2452-2555 | the same for documents |
| Unmarshal.UnmarshalProgram | api/sink/v1/sink_vtproto.pb.go:3655-3773 | the same for Lua programs |
| Unmarshal.UnmarshalPut | api/sink/v1/sink_vtproto.pb.go:3426-3531 | the same for puts |
| Unmarshal.UnmarshalMerge | api/sink/v1/sink_vtproto.pb.go:3532-3654 | the same for merges |
| Unmarshal.UnmarshalAction | api/sink/v1/sink_vtproto.pb.go:3302-3383 | the oneof cases read into the wrapper there, replace another one, or, on a wrapper holding nil, fail or panic exactly as specified |
| Unmarshal.UnmarshalOperation | api/sink/v1/sink_vtproto.pb.go:3237-3425 | on every input the loop ends in bounds, agrees with the meaning of the bytes, and panics exactly where that does |
| Unmarshal.UnmarshalRequest | api/sink/v1/sink_vtproto.pb.go:3097-3236 | on every byte string and starting message the decoder ends, never leaves the slice, consumes all input on success, and agrees with the meaning of the bytes |
| ReadRoundTrip.RevisionOverRevision | api/sink/v1/sink_vtproto.pb.go:2556-2640 | decoding an encoded revision token into a token: last data wins, unknown bytes append |
| ReadRoundTrip.FailureOverFailure | api/sink/v1/sink_vtproto.pb.go:4460-4581 | decoding an encoded failure into a failure merges field by field |
| ReadRoundTrip.ResultOverResult | api/sink/v1/sink_vtproto.pb.go:2900-3096 | decoding an encoded read result into a result merges numbers, document, revision and failure |
| ReadRoundTrip.ResultsAppend | api/sink/v1/sink_vtproto.pb.go:2843-2876 | encoded results are appended in order, whatever was there |
| ReadRoundTrip.ResponseOverResponse | api/sink/v1/sink_vtproto.pb.go:2814-2899 | decoding an encoded response into any response appends its results and unknown bytes |
| ReadRoundTrip.DecodedResponse | api/sink/v1/sink_vtproto.pb.go:2814-2899 | whatever bytes arrive, a decoded response holds no nil and only whole unknown records, at every level |
| ReadRoundTrip.ResponseRoundTripIff | api/sink/v1/sink_vtproto.pb.go:252-350 | a response decodes from its own bytes if and only if it holds no nil result and its unknown bytes are whole unknown records |
| ReadRoundTrip.IndexWraps | api/sink/v1/sink_vtproto.pb.go:2929-2947 | an operation index of any 64 bits is read modulo 2^32 |
| ReadUnmarshal.UnmarshalRevision | api/sink/v1/sink_vtproto.pb.go:2556-2640 | on every input the loop ends in bounds and agrees with the meaning of the bytes |
| ReadUnmarshal.UnmarshalFailure | api/sink/v1/sink_vtproto.pb.go:4460-4581 | the same for failures |
| ReadUnmarshal.UnmarshalPart | api/sink/v1/sink_vtproto.pb.go:2967-3074 | a document, revision or failure is read into the one there or into a new one |
| ReadUnmarshal.UnmarshalResult | api/sink/v1/sink_vtproto.pb.go:2900-3096 | the same for read results |
| ReadUnmarshal.UnmarshalResponse | api/sink/v1/sink_vtproto.pb.go:2814-2899 | the same for read responses |
| Responses.WireFields | results.go:21-44 | the decoder of results is given each field of the message under its own name |
| Responses.ResponseSurvivesTheWire | results.go:9-23 | the decoder of results sees exactly the results whose bytes were sent, in that order |
| Responses.PiecesAddUp | api/sink/v1/sink_vtproto.pb.go:2814-2899 | the bytes of two responses, joined, are the response with both lists of results |
| Responses.AnyOrderOnTheWire | results.go:9-50 | results accepted in one order are, sent as bytes in any other, decoded to the same values, each at its own index |
| Responses.Receive | results.go:9-50 | from bytes to result slots: succeeds exactly when the bytes decode and the results are acceptable, with indexes and error objects in place |
| PathText.UnescapeEscape | uri/address.go:64-73 | percent-decoding inverts percent-encoding for every octet string |
| PathText.EscapeOctet | uri/address.go:84-87 | letters, digits and the ten marks stand for themselves, every other octet is a percent sign and two digits of 0123456789ABCDEF |
| PathText.EscapeConcat | uri/address.go:84-87 | octets are escaped one by one |
| PathText.UnescapeOctet | uri/address.go:64-67 | a percent sign needs two hexadecimal digits, of either case; anything else stands for itself |
| PathText.EscapeHasNoSlash | uri/address.go:84-88 | an encoded segment never holds the separator |
| PathText.JoinSplit | uri/address.go:61-61 | joining what was split on the separator gives the text back |
| PathText.SplitJoin | uri/address.go:88-88 | splitting joined parts without separators gives the parts back |
| KeyText.Decode64Encode64 | uri/key.go:54-60 | unpadded base64url decoding inverts encoding |
| KeyText.Encode64Decode64 | uri/key.go:76-96 | re-encoding what the strict decoder accepts gives the text without its newlines |
| KeyText.SextetText | uri/key.go:53-60 | the 64 digits of base64url, in characters |
| KeyText.Encode64Groups | uri/key.go:53-60 | three octets are one 24-bit number in four digits; a short last group is filled up with zero bits and not padded |
| KeyText.Decode64Iff | uri/key.go:76-96 | a text decodes to some octets if and only if without its newlines it is their encoding |
| KeyText.NewlinesDropped | uri/key.go:76-78 | what is ignored is exactly carriage return and line feed |
| KeyText.ValidUtf8Iff | uri/address.go:91-96 | valid text is exactly the encodings of sequences of code points without surrogates |
| KeyText.DecimalDigits | uri/key.go:48-52 | digit k from the right is the k-th decimal digit, and there is no leading zero |
| KeyText.FormatIntSign | uri/key.go:48-52 | a minus sign exactly for negative numbers |
| KeyText.ParseIntFormatInt | uri/key.go:48-52 | every int64, the minimum included, is read back from its decimal text, which is nonempty ASCII |
| KeyText.Int64RoundTrip | types.go:171-174 | an int64 is recovered from its eight big-endian bytes |
| KeyText.BytesRoundTrip | uri/key.go:48-52 | any eight bytes are recovered from the int64 they denote |
| Uri.CheckStore | uri/address.go:23-37 | the loop accepts exactly the stores of 1 to 256 lower-case letters, digits and, not first, `-_.` |
| Uri.ParseUri | uri/address.go:41-78 | the parsing loop computes the parser the bijection is proved about, error cases included |
| Uri.NewUri | uri/address.go:80-89 | the encoding loop parses the canonical spelling of its arguments |
| Uri.ParseRebuilds | uri/address.go:41-78 | whatever parses is the canonical spelling of its own valid store and segments, within 16384 bytes |
| Uri.ParseRender | uri/address.go:41-89 | the canonical spelling of any valid store and segments within the limit parses back to them |
| Uri.ParseIff | uri/address.go:41-96 | a text parses to an address if and only if it is the canonical spelling of valid parts that fit |
| Uri.NewIff | uri/address.go:80-96 | New gives back its own store and segments if and only if they are valid and fit |
| Uri.NewOfSlashedStore | uri/address.go:80-89 | the counterexample without a valid store: "a/b" is taken apart |
| Uri.EscapedPathIsPath | uri/address.go:103-104 | the escaped path of a parsed address is the encoding of its segments |
| Uri.ValidStoreIff | uri/address.go:23-37 | stores in characters: 1 to 256 of a-z and 0-9, after the first also - _ . |
| Uri.ValidSegmentIff | uri/address.go:91-96 | segments: the text of some code points, not empty, not a dot segment |
| Uri.RenderSpelling | uri/address.go:80-89 | an address is sink://, the store, and a slash and the escaped text for each segment |
| Uri.ParseSpelling | uri/address.go:41-78 | a text parses to a store and segments if and only if it is that spelling of valid ones in at most 16384 bytes |
| Uri.SlashInSegment | uri/address.go:64-88 | a slash in a segment is written %2F and a space %20; the spelling %2f is refused |
| Keys.ParseFormatted | uri/key.go:41-112 | every key that formats is recovered with its exact type and bytes |
| Keys.KeyIff | uri/key.go:41-112 | a text parses to a key if and only if the key formats to that text |
| Keys.FormatInjective | uri/key.go:41-62 | no two keys of any types share a text |
| Keys.NewlinesAreRefused | uri/key.go:76-78 | of the base64 texts the strict decoder takes, exactly those with CR or LF fail the canonical-form test |
| Keys.FormattedIsSegment | uri/address.go:108-119 | every key's text is a valid URI segment |
| Keys.AppendKeyIff | uri/address.go:108-119 | appending succeeds if and only if the resource parses, the key formats and the whole fits; then the key's text is the one new last segment |
| Keys.RecordIdentity | uri/address.go:108-119 | equal record URIs come from equal resources and equal keys |
| Keys.UriKeyInjective | types.go:165-183 | the client's typed keys map to distinct URI keys |
| Keys.ClientRecordIdentity | types.go:148-159 | two record addresses the client built share a URI only if resource and key are the same |
| Keys.RecordAddressValidates | types.go:138-163 | every address the client builds passes the validation each operation repeats |
| Keys.KeySpelling | uri/key.go:41-54 | the kinds string, int64 and bytes are written with s:, i: and b:, under the exact conditions |
| Keys.OpaqueSpelling | uri/key.go:55-61 | an opaque key is o:, its kind, a colon and its data, both in base64url |
| Keys.OtherKinds | uri/key.go:55-61 | no other kind of key is written |
| Keys.ClientKeyText | types.go:165-183 | the client's keys are written as their own kinds, with their own text, number or bytes |
| Keys.RecordSpelling | types.go:148-159 | a record's URI is the resource, a slash and the escaped text of its key; it exists exactly when both are good and at most 16384 bytes result |
| Keys.NewAddressIff | types.go:138-146 | a record URI is one that parses and has a segment |
| Keys.Int64Octets | uri/key.go:24-29 | an int64's eight octets, most significant first, in two's complement |
| Results.FailureMatchesStatus | results.go:25-47 | an accepted read, write or delete result has a specified status, a failure exactly for the failing ones, and a document only where allowed |
| Results.CheckedIff | results.go:25-47 | a result is accepted as a value if and only if the value has its own status, the document and revision the source keeps for that status, and its failure exactly for the failing statuses |
| Results.AcceptedIff | results.go:70-92 | and accepted at all if and only if status, document and failure are good, in the numbers of the wire |
| Results.Pigeonhole | results.go:138-150 | n distinct indexes below n are all of them |
| Results.Covering | results.go:138-150 | n indexes that cover everything below n are distinct |
| Results.PlacedIsDecoded | results.go:17-49 | an acceptable response has only one placement: every slot filled by exactly one result |
| Results.AcceptedIffPermutation | results.go:9-50 | a response is accepted if and only if its indexes are a permutation of 0..count-1 and each result is well formed |
| Results.DecodedFromWire | results.go:17-49 | each decoded value is that of a result in the response with that index |
| Results.OrderIrrelevant | results.go:17-49 | reordering the results of a response changes nothing |
| Slots.NewResult | results.go:152-169 | the result and its own new error object carry the same index and failure |
| Slots.DecodeResponse | results.go:9-136 | the loop over `seen` accepts exactly the responses the specification accepts, in request order, with one unshared error object per failing slot, indexes in place |
| Slots.Remap | client.go:442-467 | every result's index and its error object's index both move by the offset, each object once; nothing else changes |
| Backoff.Normalize | client.go:199-235 | a policy is accepted if and only if it is normal once its zeros are filled in, and the result is normal |
| Backoff.NormalFormIff | client.go:199-235 | which policies are accepted, and which fields, with 3 attempts, 0.1 s, 1 s, doubling and 20% for zeros, they become |
| Backoff.NextBackoffBounds | client.go:551-561 | a backoff never shrinks and never passes MaxBackoff |
| Backoff.NextBackoffIsCapped | client.go:551-561 | the division guard computes min(MaxBackoff, truncated product) |
| Backoff.BackoffRule | client.go:489-530 | the backoffs of a run: InitialBackoff, then each the truncated multiple of the one before, capped at MaxBackoff |
| Backoff.JitterRule | client.go:563-570 | a wait is the backoff times 1 + jitter * x, x evenly in [-1, 1), truncated |
| Backoff.JitteredBounds | client.go:563-570 | a wait lies between b(1-j), truncated, and b(1+j) |
| Backoff.BackoffGrows | client.go:489-530 | along a run the backoffs never decrease |
| Backoff.WaitBound | client.go:489-530 | every wait of a run lies within its jitter range and below MaxBackoff(1+j) |
| Backoff.TotalWait | client.go:489-530 | the waits of a run add up to at most (MaxAttempts-1) * MaxBackoff * (1+jitter) |
| Backoff.WaitsStayBelowMaxIff | client.go:489-530 | no wait a policy allows passes MaxBackoff if and only if there is one attempt or the largest backoff leaves room for its own jitter |
| Backoff.DefaultPolicyStaysBelowMax | client.go:199-235 | under the default policy every wait is at most 0.24 s, below its MaxBackoff of 1 s |
| Backoff.SixAttemptsCanExceedMax | client.go:563-570 | with six attempts and defaults otherwise the fifth wait can take 1.19 s, so the cap is not on waits |
| Retry.LastAnswerWins | client.go:479-533 | in every successful run each pending operation gets the last value the server's replies to the run's calls hold for it, all earlier ones being retryable failures; others keep their slot and are never asked again |
| Retry.GivesUpOnlyAtTheEnd | client.go:520-526 | a retryable failure is returned only after MaxAttempts calls |
| Retry.RequestsShrink | client.go:490-531 | each request asks for exactly what the server's reply to the previous one left open, in increasing order; only Unavailable calls are survived, and no cancelled wait |
| Retry.EndsWithLastReply | client.go:496-533 | a run ends as its last call says: an RPC error is the server's own and not retryable or the attempts are used up, a protocol error is an undecodable response, a cancellation one of a wait before another attempt, success a decoded response with nothing left to ask |
| Retry.StillPendingMembers | client.go:520-522 | what is asked again are the operations answered with a retryable failure, all of them and no others |
| Retry.StillPendingOrdered | client.go:511-523 | what is asked again keeps increasing index order |
| Retry.AnswersWereSent | client.go:507-519 | every answer counted for an operation is a wire result of a call that asked for it |
| Retry.ValuesFromServer | client.go:508-526 | every value returned successfully is, in the reply to a call of this very run that asked for the operation, the result with that operation's place in the request |
| Retry.NoPlaceholders | client.go:483-533 | no unspecified status is ever returned successfully: each value is what a read result means that the reply to a call of this run holds at the operation's place in that request |
| Retry.ReadRefinement | client.go:479-533 | all of this together against every script, with the MaxAttempts bound and the reason for the end, success or failure |
| Retry.WaitsBounded | client.go:489-530 | a batch waits at most MaxAttempts - 1 times |
| Client.Network.Call | client.go:495-495 | a call is logged and answered by the script |
| Client.Network.Wait | client.go:535-549 | a wait is logged and may be cut short |
| Client.Absorb | client.go:512-523 | decoded answers land at their operations' indexes, error objects included, and exactly the retryable ones remain |
| Client.Pause | client.go:501-504 | one wait of the schedule is made and the next backoff follows |
| Client.RunWaitsBounded | client.go:489-530 | the waits a run adds to the log sum up to at most (MaxAttempts-1) * MaxBackoff * (1+jitter), each within MaxBackoff if the policy's condition holds |
| Client.ScheduledIs | client.go:489-530 | the waits a run makes are exactly the first so many of its jittered backoffs |
| Client.ReadWithRetry | client.go:479-533 | against every script the requests sent, the outcome and the values are those of the specified run, every index is in place, the waits are exactly the policy's, one between calls, and the return after the loop is unreachable |
| Reading.BatchesConserve | client.go:292-303 | without error there are n results and the calls are all batches' calls; with one, exactly the batches before the failing one have results, the error is that batch's own and its calls are the last |
| Reading.BatchInPlace | client.go:293-302 | batch k's results sit at position k * limit and are what its own calls, after all earlier batches' and before the end, produced |
| Reading.RequestsInPlace | client.go:293-297 | the requests at batch k's calls ask for batch k's own addresses, also for the batch that fails |
| Reading.NothingElseSent | client.go:293-303 | there are no requests beside those of the batches up to the last or the failing one |
| Reading.EveryResultIsAnAnswer | client.go:280-303 | the result at position i is the last value the server's replies to the calls of batch i / limit hold for read i % limit of that batch |
| Reading.CallsBounded | client.go:292-303 | at most MaxAttempts calls per batch |
| Reading.AppendBatch | client.go:300-301 | remapping and appending a batch keeps every index, in results and error objects, equal to its position |
| Reading.Read | client.go:280-304 | nothing is sent unless all addresses are valid; otherwise requests, waits, results and error are those of the specified batches, every index is its position, and `start + maxOperations` never overflows |
| Reading.ValidAddressIff | types.go:138-163 | an operation's address must be the spelling of a valid store and at least one valid segment, in at most 16384 bytes |
| Mutation.ChunksArePrefix | client.go:331-332 | the first m batches joined are a prefix of the collection, all of them the whole |
| Mutation.ChunkSizes | client.go:331-332 | every batch is nonempty and within the limit |
| Mutation.OneCallPerBatch | client.go:330-341 | on success one call per batch; on error the calls end with the failing batch and exactly the full batches before it have results |
| Mutation.ChunkIsBatch | client.go:331-333 | the batch sent in call k is the slice of the collection that starts at k * limit |
| Mutation.EveryResultIsItsCallsAnswer | client.go:330-341 | the result at position i is element i % limit of the accepted reply to call i / limit |
| Mutation.ErrorIsLastCalls | client.go:333-336 | an error is what the reply to the last call made, for the first batch without results, amounts to |
| Mutation.SendBatch | client.go:370-382 | a batch makes exactly one call, whatever becomes of it |
| Mutation.Mutate | client.go:330-341 | the calls made are the first batches in order, each once; results, error and indexes as specified; no overflow |
| Writing.CheckWriteOps | client.go:316-329 | the tests before sending accept exactly the valid collections |
| Writing.ValidWriteIff | client.go:316-329 | which collections may be sent, in the numbers of the modes |
| Writing.BuildWrite | client.go:343-369 | the loop with its set of seen digests builds the specified request |
| Writing.RequestSays | wire.go:40-63 | the request field by field: mode, each operation's address, flag, document and mode, and for a merge its digest and no source; each program's source and digest |
| Writing.SourcesSentOnce | client.go:348-369 | no operation carries source; the request carries each declared program's source once and no more |
| Writing.DeclaredOnce | client.go:348-364 | a batch declares every digest it refers to, once, and nothing else |
| Writing.InFirstUseOrder | client.go:351-363 | declarations come in the order of first use |
| Writing.FactoringIsLossless | wire.go:40-63 | without a digest collision in the batch, each operation is read back from the request with its own source |
| Writing.WriteResultsAreSound | client.go:370-382 | each result of a Write is what the result at its place in its own batch's reply means: that result's status, document, revision and failure; an applied operation that asked for its document has it |
| Writing.DeleteResultsAreSound | client.go:415-428 | the same for deletes |
| Writing.WriteAcceptsIff | client.go:378-382 | a decoded write response is taken back if and only if an applied operation lacks the document it asked for; a delete response never |
| Writing.RequestIsValid | wire.go:40-63 | the client never builds a request with nil inside, so the codec's error cannot occur for it |
| Writing.BatchSurvivesTheWire | client.go:343-370 | the bytes written for a batch decode to a request from which every operation is recovered exactly |
| Writing.Write | client.go:311-341 | no call unless the whole collection is valid; otherwise one call per batch until one fails, results at their positions |
| Writing.Delete | client.go:390-430 | the same for deletes |
| Writing.SentAtMostOnce | client.go:311-341 | the operations of all calls joined are a prefix of the caller's list, the whole of it when all batches went out |
| Writing.DeletedAtMostOnce | client.go:390-430 | the same for the addresses of deletes |
| Headers.InsertSorts | native.go:132-132 | inserting a new name keeps a list strictly sorted and adds only that name |
| Headers.SortedUnique | native.go:132-132 | two strictly sorted lists with the same names are equal |
| Headers.LessIff | native.go:132-132 | the order is that of Go's strings: by the first octet that differs, a prefix first |
| Headers.ContentTypeIff | native.go:127-129 | a name folds to Content-Type if and only if it is those letters in either case |
| Headers.GoodHeaderIff | native.go:124-129 | a header is refused exactly if it has no name, no values, or names the content type |
| Headers.OneRepresentation | native.go:122-136 | a header map has only one wire list, whatever order the map is enumerated in |
| Headers.ToHeaders | native.go:122-136 | headers are refused exactly when one is empty or folds to Content-Type; else the list is sorted and says what the map says |
| Scanning.IsAdmissionRejected | native.go:260-272 | a rejection is retryable if and only if the code is ResourceExhausted and some detail names the admission rejection |
| Scanning.AdmissionRejectedIff | native.go:260-272 | the code is 8, the domain sink and the reason SCAN_ADMISSION_REJECTED |
| Scanning.TakePage | native.go:242-257 | a page is accepted if and only if it fits, all documents are valid, and a continuation comes with documents; documents keep their order |
| Scanning.GoodPageIff | native.go:242-257 | the limits of a page in numbers: the asked size, 100 if none, and 65536 bytes of cursor |
| Scanning.GoodScanIff | native.go:202-218 | the limits of a request in numbers: 1000 documents and 65536 bytes of cursor |
| Scanning.ToMessage | native.go:102-138 | a command is accepted exactly when it is good, and the message says what the command says |
| Scanning.OneMessage | native.go:102-138 | a command has only one message |
| Scanning.CheckProjection | query.go:128-141 | a projection is accepted if and only if its paths are valid UTF-8, not blank and all different |
| Scanning.BlankIff | query.go:134-134 | a path is blank if and only if all its code points are white space |
| Scanning.Scan | native.go:199-258 | all attempts for a page send one identical request, projection included, at most MaxAttempts; how many there are and how it ends, success or any error, is what the replies, the waits and the context call for |
| Scanning.OneConclusion | native.go:219-258 | two ends of a page that agree with the same replies, waits and context are the same, calls and result |
| Scanning.PagesBounded | native.go:246-248 | accepted pages that continue one another are at most one more than the documents they hold |
| Scanning.ScanLoop | README.md:468-489 | the log is exactly the calls of the pages in order, each page's calls carrying one request with the previous page's cursor; each page is what the server's reply to its last call delivered, and an error what the calls after the last page lead to; the documents are the pages' in order, with at most one page more than documents |
| DnsRefresh.OwnershipKept | dns_refresh.go:78-119 | every step keeps the build and close log consistent with the loop's own variable |
| DnsRefresh.GenerationsKept | dns_refresh.go:60-69 | every step keeps callbacks and update tokens in the current generation |
| DnsRefresh.TimingKept | dns_refresh.go:93-117 | every step keeps the reasons for which the timer is armed |
| DnsRefresh.TimerChanges | dns_refresh.go:93-117 | only a taken token and a failed build arm the timer, only its firing and the end of the loop disarm it |
| DnsRefresh.ChannelChanges | dns_refresh.go:60-126 | tokens come from accepted callbacks and go to the loop, a hint stays until it is taken, stop is set by Close |
| DnsRefresh.StepKeepsInv | dns_refresh.go:60-126 | the whole invariant is kept by every step of every participant |
| DnsRefresh.Reachable | dns_refresh.go:60-126 | the invariant holds in every state of every run |
| DnsRefresh.OneOwner | dns_refresh.go:78-119 | in every run at most one resolver is open, it is the loop's, and none is closed twice or without having been built |
| DnsRefresh.NeverStranded | dns_refresh.go:101-117 | a loop at its select with no open resolver has its timer armed |
| DnsRefresh.CloseReleasesEverything | dns_refresh.go:121-126 | when Close returns every resolver built has been closed exactly once, and none is built or closed later |
| DnsRefresh.AcceptedWasDelivered | dns_refresh.go:60-69 | the model's record of accepted updates is exactly the history of the run |
| DnsRefresh.NoInterruptedLookup | dns_refresh.go:93-117 | when the timer fires, an open resolver has itself delivered an accepted update; with none open the last build failed |
| DnsRefresh.TokensAreCurrent | dns_refresh.go:93-111 | the token that arms the timer was delivered by the current generation |
| DnsRefresh.NoLostRefresh | dns_refresh.go:60-99 | although sends may be dropped, an accepted update always has its next lookup armed, announced or about to be |
| DnsRefresh.TimerRefreshes | dns_refresh.go:101-117 | from an armed waiting loop: fire, let callbacks end, close the old resolver, build the next, in a bounded number of steps |
| DnsRefresh.RefreshHappens | dns_refresh.go:90-117 | in every run, from every waiting state, at most eight steps more than callbacks lead to the next generation built and alone open, its predecessor closed; without a new callback if the timer is armed or the current resolver has delivered |
| DnsRefresh.RefreshesForever | dns_refresh.go:22-117 | for every n a run from the start ends waiting with generation n open |
| DnsRefresh.ReportsAreNotRefused | dns_refresh.go:60-69 | in every reachable state a resolver that is open or being built can report |
| DnsRefresh.CallbacksNeverBlock | dns_refresh.go:60-69 | every callback in progress can be accepted and rejected, and sends without waiting |
| DnsRefresh.HintsAndCloseAreNotRefused | dns_refresh.go:71-76 | hints and Close are possible at any time after the resolver was returned, and a waiting loop can take a hint |
| DnsRefresh.BuildsMayFail | dns_refresh.go:111-116 | a failed later build leaves a waiting loop with an armed timer and nothing open; a failed first one nothing at all |
| DnsRefresh.CloseCanReturn | dns_refresh.go:121-126 | from every state in which Close waits it can return in a bounded number of steps, none of them a new callback |
| DnsRefresh.NoDeadlock | dns_refresh.go:78-126 | in every run, wherever Close has been called, it can still return |
| DnsRefresh.StepLowersRank | dns_refresh.go:60-126 | once asked to stop, every step but a new callback, a hint or another select case lowers what is left, and those add a fixed amount |
| DnsRefresh.ProgressBounded | dns_refresh.go:60-126 | in every run the steps towards the end of Close are bounded by what was left and by how often callbacks started and the timer case was chosen |
| DnsRefresh.CloseReturnsOnceQuiet | dns_refresh.go:121-126 | in every run in which those other steps end, a bounded number of steps follow, and where the run can go no further Close has returned |

## Left out

Assumptions about code outside the repository:

- `protohelpers` (varint writing, varint size, skipping a field) is not part of the repository; it is modelled
  from the Protocol Buffers Encoding specification ("Base 128 Varints", "Length-Delimited Records") and the
  public form of those helpers.
- gRPC's resolver and Go's timers: a resolver's `Close` waits for its callbacks; a failing `Build` returns no
  resolver, leaves no callback behind, and every `Build` returns; `Reset` and `Stop` leave no stale expiry.
- gRPC's buffer pool: a lent buffer is nobody else's and may hold anything; the pooling threshold is 1 KiB.
- SHA-256, and the JSON, BSON and media type validators, are arbitrary functions; that no two sources of a
  batch share a digest is an explicit hypothesis.
- `sort.Strings` is an insertion into a sorted list; `strings.EqualFold` with "Content-Type" is ASCII folding,
  which is exact for these letters.
- A Go slice of pointers has at most 2^60 elements (8-byte pointers), and a byte slice at most 2^63-1.

What the model does not capture:

- Unmarshal.UnmarshalRequest: which error is reported, and the half-filled message after an error, are not
  stated, only whether decoding succeeds and with what.
- Messages are values: sharing of submessages between messages, nil against empty byte slices, and a typed nil
  wrapper pointer inside the oneof are not modelled. A panic is an outcome of its own (`NilDereference`).
- Or-ing disjoint bits is addition in the varint loops.
- The three response decoders and the three remap functions are one method each, given the per-result test that tells
  them apart; the batch loop of Write and Delete is one method, `Mutation.Mutate`, that calls a function for the
  request; `Writing.BuildWrite` is the loop behind that function.
- Time: waits are logged durations over exact reals (no float64 rounding, no NaN); the context, its deadline
  and random numbers are arbitrary scripts.
- Hints in the DNS loop are consumed without effect: forwarding `ResolveNow` to a live resolver changes nothing
  the theorems speak about. Hosts that are IP literals use the plain builder and never enter the loop.
- Sizes and backwards writers of the response messages, which only a server uses, and the remaining messages of
  the codec, which repeat the field shapes covered here.
- `Execute`, `query.go`, `dataset.go`, `dataset_native.go`, and the
  `*ResultsError` summaries: validation and forwarding that would only add easy members.
- `Dial`, call options, health checks, balancing and transport; `sink.pb.go` and `sink_grpc.pb.go`.
- Server behaviour: storage, merge execution, and what a cursor means.
