/**
 The messages of the write request tree, as generated structs: data, wire bytes, and what one decoded
 field does to each. A `nil` pointer is `None`; a nil and an empty byte slice are the same value here.
 */
module Messages {
  import opened Bytes
  import opened Varint
  import opened WireFormat

  datatype RecordAddressFields = RecordAddressFields(uri: seq<Byte>)
  type RecordAddress = Msg<RecordAddressFields>

  datatype DocumentFields = DocumentFields(encoding: Int32, payload: seq<Byte>)
  type Document = Msg<DocumentFields>

  datatype LuaProgramFields = LuaProgramFields(source: seq<Byte>, sha256: seq<Byte>)
  type LuaProgram = Msg<LuaProgramFields>

  datatype PutFields = PutFields(document: Option<Document>, mode: Int32)
  type PutOperation = Msg<PutFields>

  datatype MergeFields = MergeFields(incoming: Option<Document>, program: Option<LuaProgram>)
  type MergeOperation = Msg<MergeFields>

  /** The `action` oneof: unset, or a wrapper struct whose pointer may itself be nil. */
  datatype Action = NoAction | Put(put: Option<PutOperation>) | Merge(merge: Option<MergeOperation>)

  datatype WriteOperationFields = WriteOperationFields(address: Option<RecordAddress>, returnDocument: bool, action: Action)
  type WriteOperation = Msg<WriteOperationFields>

  datatype WriteRequestFields = WriteRequestFields(
    completionMode: Int32, operations: seq<Option<WriteOperation>>, luaPrograms: seq<Option<LuaProgram>>)
  type WriteRequest = Msg<WriteRequestFields>

  // The zero structs a decoder starts from.
  const NEW_ADDRESS: RecordAddress := Msg(RecordAddressFields([]), [])
  const NEW_DOCUMENT: Document := Msg(DocumentFields(0, []), [])
  const NEW_PROGRAM: LuaProgram := Msg(LuaProgramFields([], []), [])
  const NEW_PUT: PutOperation := Msg(PutFields(None, 0), [])
  const NEW_MERGE: MergeOperation := Msg(MergeFields(None, None), [])
  const NEW_OPERATION: WriteOperation := Msg(WriteOperationFields(None, false, NoAction), [])
  const NEW_REQUEST: WriteRequest := Msg(WriteRequestFields(0, [], []), [])

  // ---------------------------------------------------------------- fields as written

  /** Proto3 scalars are written only when they differ from zero. */
  function VarintBytes(num: nat, v: nat): seq<Byte>
    requires 1 <= num <= 15
  {
    if v == 0 then [] else VarintRecord(num, v)
  }

  function StringBytes(num: nat, s: seq<Byte>): seq<Byte>
    requires 1 <= num <= 15
  {
    if s == [] then [] else LenRecord(num, s)
  }

  function BoolBytes(num: nat, b: bool): seq<Byte>
    requires 1 <= num <= 15
  {
    if b then [Tag(num, WIRE_VARINT), 1] else []
  }

  function AddressBytes(m: RecordAddress): seq<Byte> {
    StringBytes(1, m.fields.uri) + m.unknown
  }

  function DocumentBytes(m: Document): seq<Byte> {
    VarintBytes(1, SignExtend(m.fields.encoding)) + StringBytes(2, m.fields.payload) + m.unknown
  }

  function ProgramBytes(m: LuaProgram): seq<Byte> {
    StringBytes(1, m.fields.source) + StringBytes(2, m.fields.sha256) + m.unknown
  }

  function DocumentRecord(num: nat, d: Option<Document>): seq<Byte>
    requires 1 <= num <= 15
  {
    if d.None? then [] else LenRecord(num, DocumentBytes(d.value))
  }

  function PutBytes(m: PutOperation): seq<Byte> {
    DocumentRecord(1, m.fields.document) + VarintBytes(2, SignExtend(m.fields.mode)) + m.unknown
  }

  function MergeBytes(m: MergeOperation): seq<Byte> {
    DocumentRecord(1, m.fields.incoming) +
    (if m.fields.program.None? then [] else LenRecord(2, ProgramBytes(m.fields.program.value))) + m.unknown
  }

  /** A wrapper holding nil is written as an empty record. */
  function ActionBytes(a: Action): seq<Byte> {
    match a
    case NoAction => []
    case Put(p) => LenRecord(2, if p.None? then [] else PutBytes(p.value))
    case Merge(p) => LenRecord(3, if p.None? then [] else MergeBytes(p.value))
  }

  /** The oneof is written after field 4, so before it in the backwards pass. */
  function OperationBytes(m: WriteOperation): seq<Byte> {
    (if m.fields.address.None? then [] else LenRecord(1, AddressBytes(m.fields.address.value))) +
    BoolBytes(4, m.fields.returnDocument) + ActionBytes(m.fields.action) + m.unknown
  }

  /** A nil element is written as an empty record. */
  function OperationRecord(op: Option<WriteOperation>): seq<Byte> {
    LenRecord(2, if op.None? then [] else OperationBytes(op.value))
  }

  function ProgramRecord(p: Option<LuaProgram>): seq<Byte> {
    LenRecord(3, if p.None? then [] else ProgramBytes(p.value))
  }

  function OperationsBytes(ops: seq<Option<WriteOperation>>): seq<Byte> {
    if ops == [] then [] else OperationRecord(ops[0]) + OperationsBytes(ops[1..])
  }

  function ProgramsBytes(ps: seq<Option<LuaProgram>>): seq<Byte> {
    if ps == [] then [] else ProgramRecord(ps[0]) + ProgramsBytes(ps[1..])
  }

  function RequestBytes(m: WriteRequest): seq<Byte> {
    VarintBytes(1, SignExtend(m.fields.completionMode)) + OperationsBytes(m.fields.operations) +
    ProgramsBytes(m.fields.luaPrograms) + m.unknown
  }

  // ---------------------------------------------------------------- fields as read

  function AddressSchema(num: int): Kind { if num == 1 then LenKind else Skipped }
  function DocumentSchema(num: int): Kind { if num == 1 then VarintKind else if num == 2 then LenKind else Skipped }
  function ProgramSchema(num: int): Kind { if num == 1 || num == 2 then LenKind else Skipped }
  function PutSchema(num: int): Kind { if num == 1 then LenKind else if num == 2 then VarintKind else Skipped }
  function MergeSchema(num: int): Kind { if num == 1 || num == 2 then LenKind else Skipped }
  function OperationSchema(num: int): Kind {
    if 1 <= num <= 3 then LenKind else if num == 4 then VarintKind else Skipped
  }
  function RequestSchema(num: int): Kind {
    if num == 1 then VarintKind else if num == 2 || num == 3 then LenKind else Skipped
  }

  function ApplyAddress(f: RecordAddressFields, field: Field): Result<RecordAddressFields> {
    match field
    case LenField(1, s) => Ok(f.(uri := s))
    case _ => Err(WrongWireType)
  }

  function ApplyDocument(f: DocumentFields, field: Field): Result<DocumentFields> {
    match field
    case VarintField(1, v) => Ok(f.(encoding := ToInt32(v)))
    case LenField(2, s) => Ok(f.(payload := s))
    case _ => Err(WrongWireType)
  }

  function ApplyProgram(f: LuaProgramFields, field: Field): Result<LuaProgramFields> {
    match field
    case LenField(1, s) => Ok(f.(source := s))
    case LenField(2, s) => Ok(f.(sha256 := s))
    case _ => Err(WrongWireType)
  }

  function DecodeAddress(m: RecordAddress, data: seq<Byte>): Result<RecordAddress> {
    Run(AddressSchema, ApplyAddress, m, data)
  }
  function DecodeDocument(m: Document, data: seq<Byte>): Result<Document> {
    Run(DocumentSchema, ApplyDocument, m, data)
  }
  function DecodeProgram(m: LuaProgram, data: seq<Byte>): Result<LuaProgram> {
    Run(ProgramSchema, ApplyProgram, m, data)
  }

  /** A submessage that is already there is read into; a nil one is allocated first. */
  function OrNew<M>(m: Option<M>, zero: M): M { if m.None? then zero else m.value }

  function ApplyPut(f: PutFields, field: Field): Result<PutFields> {
    match field
    case LenField(1, s) =>
      (match DecodeDocument(OrNew(f.document, NEW_DOCUMENT), s)
       case Err(e) => Err(e)
       case Ok(d) => Ok(f.(document := Some(d))))
    case VarintField(2, v) => Ok(f.(mode := ToInt32(v)))
    case _ => Err(WrongWireType)
  }

  function ApplyMerge(f: MergeFields, field: Field): Result<MergeFields> {
    match field
    case LenField(1, s) =>
      (match DecodeDocument(OrNew(f.incoming, NEW_DOCUMENT), s)
       case Err(e) => Err(e)
       case Ok(d) => Ok(f.(incoming := Some(d))))
    case LenField(2, s) =>
      (match DecodeProgram(OrNew(f.program, NEW_PROGRAM), s)
       case Err(e) => Err(e)
       case Ok(p) => Ok(f.(program := Some(p))))
    case _ => Err(WrongWireType)
  }

  function DecodePut(m: PutOperation, data: seq<Byte>): Result<PutOperation> { Run(PutSchema, ApplyPut, m, data) }
  function DecodeMerge(m: MergeOperation, data: seq<Byte>): Result<MergeOperation> { Run(MergeSchema, ApplyMerge, m, data) }

  /**
   The oneof: the same wrapper is read into, another one is replaced. A wrapper holding nil survives only an
   empty record; anything else is an error, or dereferences the nil pointer.
   */
  function ApplyOperation(f: WriteOperationFields, field: Field): Result<WriteOperationFields> {
    match field
    case LenField(1, s) =>
      (match DecodeAddress(OrNew(f.address, NEW_ADDRESS), s)
       case Err(e) => Err(e)
       case Ok(a) => Ok(f.(address := Some(a))))
    case LenField(2, s) =>
      if f.action.Put? && f.action.put.None? then (if s == [] then Ok(f) else Err(NilError(PutSchema, s)))
      else
        (match DecodePut(if f.action.Put? then f.action.put.value else NEW_PUT, s)
         case Err(e) => Err(e)
         case Ok(p) => Ok(f.(action := Put(Some(p)))))
    case LenField(3, s) =>
      if f.action.Merge? && f.action.merge.None? then (if s == [] then Ok(f) else Err(NilError(MergeSchema, s)))
      else
        (match DecodeMerge(if f.action.Merge? then f.action.merge.value else NEW_MERGE, s)
         case Err(e) => Err(e)
         case Ok(p) => Ok(f.(action := Merge(Some(p)))))
    case VarintField(4, v) => Ok(f.(returnDocument := v % TWO_64 != 0))
    case _ => Err(WrongWireType)
  }

  function DecodeOperation(m: WriteOperation, data: seq<Byte>): Result<WriteOperation> {
    Run(OperationSchema, ApplyOperation, m, data)
  }

  function ApplyRequest(f: WriteRequestFields, field: Field): Result<WriteRequestFields> {
    match field
    case VarintField(1, v) => Ok(f.(completionMode := ToInt32(v)))
    case LenField(2, s) =>
      (match DecodeOperation(NEW_OPERATION, s)
       case Err(e) => Err(e)
       case Ok(op) => Ok(f.(operations := f.operations + [Some(op)])))
    case LenField(3, s) =>
      (match DecodeProgram(NEW_PROGRAM, s)
       case Err(e) => Err(e)
       case Ok(p) => Ok(f.(luaPrograms := f.luaPrograms + [Some(p)])))
    case _ => Err(WrongWireType)
  }

  function DecodeRequest(m: WriteRequest, data: seq<Byte>): Result<WriteRequest> {
    Run(RequestSchema, ApplyRequest, m, data)
  }
}
