/**
 The messages of the read response tree: data, wire bytes, and what one decoded field does to each. A `nil`
 pointer is `None`; an operation index is a uint32, read modulo 2^32.
 */
module ReadMessages {
  import opened Bytes
  import opened Varint
  import opened WireFormat
  import opened Messages

  datatype RevisionFields = RevisionFields(data: seq<Byte>)
  type RevisionToken = Msg<RevisionFields>

  datatype FailureFields = FailureFields(code: Int32, message: seq<Byte>, retryable: bool)
  type Failure = Msg<FailureFields>

  datatype ReadResultFields = ReadResultFields(
    index: UInt32, status: Int32, document: Option<Document>, revision: Option<RevisionToken>, failure: Option<Failure>)
  type ReadResult = Msg<ReadResultFields>

  datatype ReadResponseFields = ReadResponseFields(results: seq<Option<ReadResult>>)
  type ReadResponse = Msg<ReadResponseFields>

  const NEW_REVISION: RevisionToken := Msg(RevisionFields([]), [])
  const NEW_FAILURE: Failure := Msg(FailureFields(0, [], false), [])
  const NEW_RESULT: ReadResult := Msg(ReadResultFields(0, 0, None, None, None), [])
  const NEW_RESPONSE: ReadResponse := Msg(ReadResponseFields([]), [])

  // ---------------------------------------------------------------- fields as written

  function RevisionBytes(m: RevisionToken): seq<Byte> {
    StringBytes(1, m.fields.data) + m.unknown
  }

  function FailureBytes(m: Failure): seq<Byte> {
    VarintBytes(1, SignExtend(m.fields.code)) + StringBytes(2, m.fields.message) + BoolBytes(3, m.fields.retryable) + m.unknown
  }

  function RevisionRecord(r: Option<RevisionToken>): seq<Byte> { if r.None? then [] else LenRecord(4, RevisionBytes(r.value)) }

  function FailureRecord(f: Option<Failure>): seq<Byte> { if f.None? then [] else LenRecord(5, FailureBytes(f.value)) }

  function ResultBytes(m: ReadResult): seq<Byte> {
    VarintBytes(1, m.fields.index) + VarintBytes(2, SignExtend(m.fields.status)) + DocumentRecord(3, m.fields.document) +
    RevisionRecord(m.fields.revision) + FailureRecord(m.fields.failure) + m.unknown
  }

  function ResultRecord(r: Option<ReadResult>): seq<Byte> { LenRecord(1, if r.None? then [] else ResultBytes(r.value)) }

  function ResultsBytes(rs: seq<Option<ReadResult>>): seq<Byte> {
    if rs == [] then [] else ResultRecord(rs[0]) + ResultsBytes(rs[1..])
  }

  function ResponseBytes(m: ReadResponse): seq<Byte> {
    ResultsBytes(m.fields.results) + m.unknown
  }

  // ---------------------------------------------------------------- fields as read

  function RevisionSchema(num: int): Kind { if num == 1 then LenKind else Skipped }
  function FailureSchema(num: int): Kind { if num == 1 || num == 3 then VarintKind else if num == 2 then LenKind else Skipped }
  function ResultSchema(num: int): Kind { if num == 1 || num == 2 then VarintKind else if 3 <= num <= 5 then LenKind else Skipped }
  function ResponseSchema(num: int): Kind { if num == 1 then LenKind else Skipped }

  function ApplyRevision(f: RevisionFields, field: Field): Result<RevisionFields> {
    match field
    case LenField(1, s) => Ok(f.(data := s))
    case _ => Err(WrongWireType)
  }

  function ApplyFailure(f: FailureFields, field: Field): Result<FailureFields> {
    match field
    case VarintField(1, v) => Ok(f.(code := ToInt32(v)))
    case LenField(2, s) => Ok(f.(message := s))
    case VarintField(3, v) => Ok(f.(retryable := v % TWO_64 != 0))
    case _ => Err(WrongWireType)
  }

  function DecodeRevision(m: RevisionToken, data: seq<Byte>): Result<RevisionToken> { Run(RevisionSchema, ApplyRevision, m, data) }
  function DecodeFailure(m: Failure, data: seq<Byte>): Result<Failure> { Run(FailureSchema, ApplyFailure, m, data) }

  function ApplyResult(f: ReadResultFields, field: Field): Result<ReadResultFields> {
    match field
    case VarintField(1, v) => Ok(f.(index := v % TWO_32))
    case VarintField(2, v) => Ok(f.(status := ToInt32(v)))
    case LenField(3, s) =>
      (match DecodeDocument(OrNew(f.document, NEW_DOCUMENT), s)
       case Err(e) => Err(e)
       case Ok(d) => Ok(f.(document := Some(d))))
    case LenField(4, s) =>
      (match DecodeRevision(OrNew(f.revision, NEW_REVISION), s)
       case Err(e) => Err(e)
       case Ok(r) => Ok(f.(revision := Some(r))))
    case LenField(5, s) =>
      (match DecodeFailure(OrNew(f.failure, NEW_FAILURE), s)
       case Err(e) => Err(e)
       case Ok(x) => Ok(f.(failure := Some(x))))
    case _ => Err(WrongWireType)
  }

  function DecodeResult(m: ReadResult, data: seq<Byte>): Result<ReadResult> { Run(ResultSchema, ApplyResult, m, data) }

  function ApplyResponse(f: ReadResponseFields, field: Field): Result<ReadResponseFields> {
    match field
    case LenField(1, s) =>
      (match DecodeResult(NEW_RESULT, s)
       case Err(e) => Err(e)
       case Ok(r) => Ok(f.(results := f.results + [Some(r)])))
    case _ => Err(WrongWireType)
  }

  function DecodeResponse(m: ReadResponse, data: seq<Byte>): Result<ReadResponse> { Run(ResponseSchema, ApplyResponse, m, data) }
}
