/**
 What decoding does to encoded messages. `Merge...` is the specification's own account of repeated input
 ("Last One Wins": scalars are replaced, repeated fields are appended, submessages merge), written without
 reference to bytes; the theorems say that the byte-level decoder computes exactly that.
 */
module RoundTrip {
  import opened Bytes
  import opened Varint
  import opened WireFormat
  import opened Messages

  // ---------------------------------------------------------------- merging

  function Last<T(==)>(a: T, b: T, zero: T): T { if b == zero then a else b }

  function MergeAddress(a: RecordAddress, b: RecordAddress): RecordAddress {
    Msg(RecordAddressFields(Last(a.fields.uri, b.fields.uri, [])), a.unknown + b.unknown)
  }

  function MergeDocument(a: Document, b: Document): Document {
    Msg(DocumentFields(Last(a.fields.encoding, b.fields.encoding, 0), Last(a.fields.payload, b.fields.payload, [])),
        a.unknown + b.unknown)
  }

  function MergeProgram(a: LuaProgram, b: LuaProgram): LuaProgram {
    Msg(LuaProgramFields(Last(a.fields.source, b.fields.source, []), Last(a.fields.sha256, b.fields.sha256, [])),
        a.unknown + b.unknown)
  }

  function MergeDocuments(a: Option<Document>, b: Option<Document>): Option<Document> {
    if b.None? then a else Some(MergeDocument(OrNew(a, NEW_DOCUMENT), b.value))
  }

  function MergePut(a: PutOperation, b: PutOperation): PutOperation {
    Msg(PutFields(MergeDocuments(a.fields.document, b.fields.document), Last(a.fields.mode, b.fields.mode, 0)),
        a.unknown + b.unknown)
  }

  function MergeMerge(a: MergeOperation, b: MergeOperation): MergeOperation {
    Msg(MergeFields(
          MergeDocuments(a.fields.incoming, b.fields.incoming),
          if b.fields.program.None? then a.fields.program
          else Some(MergeProgram(OrNew(a.fields.program, NEW_PROGRAM), b.fields.program.value))),
        a.unknown + b.unknown)
  }

  predicate NoNilWrapper(a: Action) { !(a.Put? && a.put.None?) && !(a.Merge? && a.merge.None?) }

  function MergeAction(a: Action, b: Action): Action
    requires NoNilWrapper(a) && NoNilWrapper(b)
  {
    match b
    case NoAction => a
    case Put(p) => Put(Some(MergePut(if a.Put? then a.put.value else NEW_PUT, p.value)))
    case Merge(p) => Merge(Some(MergeMerge(if a.Merge? then a.merge.value else NEW_MERGE, p.value)))
  }

  function MergeWriteOperation(a: WriteOperation, b: WriteOperation): WriteOperation
    requires NoNilWrapper(a.fields.action) && NoNilWrapper(b.fields.action)
  {
    Msg(WriteOperationFields(
          if b.fields.address.None? then a.fields.address
          else Some(MergeAddress(OrNew(a.fields.address, NEW_ADDRESS), b.fields.address.value)),
          a.fields.returnDocument || b.fields.returnDocument,
          MergeAction(a.fields.action, b.fields.action)),
        a.unknown + b.unknown)
  }

  function MergeRequest(a: WriteRequest, b: WriteRequest): WriteRequest {
    Msg(WriteRequestFields(
          Last(a.fields.completionMode, b.fields.completionMode, 0),
          a.fields.operations + b.fields.operations,
          a.fields.luaPrograms + b.fields.luaPrograms),
        a.unknown + b.unknown)
  }

  // ---------------------------------------------------------------- messages that survive the wire

  ghost predicate ValidAddress(m: RecordAddress) { OnlyUnknown(AddressSchema, m.unknown) }
  ghost predicate ValidDocument(m: Document) { OnlyUnknown(DocumentSchema, m.unknown) }
  ghost predicate ValidProgram(m: LuaProgram) { OnlyUnknown(ProgramSchema, m.unknown) }

  ghost predicate ValidPutFields(f: PutFields) { f.document.Some? ==> ValidDocument(f.document.value) }
  ghost predicate ValidPut(m: PutOperation) { OnlyUnknown(PutSchema, m.unknown) && ValidPutFields(m.fields) }

  ghost predicate ValidMergeFields(f: MergeFields) {
    (f.incoming.Some? ==> ValidDocument(f.incoming.value)) && (f.program.Some? ==> ValidProgram(f.program.value))
  }
  ghost predicate ValidMerge(m: MergeOperation) { OnlyUnknown(MergeSchema, m.unknown) && ValidMergeFields(m.fields) }

  ghost predicate ValidAction(a: Action) {
    NoNilWrapper(a) && (a.Put? ==> ValidPut(a.put.value)) && (a.Merge? ==> ValidMerge(a.merge.value))
  }
  ghost predicate ValidOperationFields(f: WriteOperationFields) {
    (f.address.Some? ==> ValidAddress(f.address.value)) && ValidAction(f.action)
  }
  ghost predicate ValidOperation(m: WriteOperation) {
    OnlyUnknown(OperationSchema, m.unknown) && ValidOperationFields(m.fields)
  }

  ghost predicate ValidOperations(ops: seq<Option<WriteOperation>>) {
    forall k | 0 <= k < |ops| :: ops[k].Some? && ValidOperation(ops[k].value)
  }
  ghost predicate ValidPrograms(ps: seq<Option<LuaProgram>>) {
    forall k | 0 <= k < |ps| :: ps[k].Some? && ValidProgram(ps[k].value)
  }
  ghost predicate ValidRequestFields(f: WriteRequestFields) {
    ValidOperations(f.operations) && ValidPrograms(f.luaPrograms)
  }
  /** No nil inside the tree, and any unknown bytes are whole records of unknown fields. */
  ghost predicate ValidRequest(m: WriteRequest) {
    OnlyUnknown(RequestSchema, m.unknown) && ValidRequestFields(m.fields)
  }

  // ---------------------------------------------------------------- decoding the parts of a message

  lemma RunVarintBytes<F>(schema: Schema, apply: (F, Field) -> Result<F>, m: Msg<F>, num: nat, v: nat)
    requires 1 <= num <= 15 && schema(num) == VarintKind && v < TWO_64
    ensures Run(schema, apply, m, VarintBytes(num, v)) == if v == 0 then Ok(m) else Step(apply, m, VarintField(num, v))
  {
    if v != 0 { RunVarint(schema, apply, m, num, v); }
  }

  lemma RunStringBytes<F>(schema: Schema, apply: (F, Field) -> Result<F>, m: Msg<F>, num: nat, s: seq<Byte>)
    requires 1 <= num <= 15 && schema(num) == LenKind && |s| <= MAX_LEN
    ensures Run(schema, apply, m, StringBytes(num, s)) == if s == [] then Ok(m) else Step(apply, m, LenField(num, s))
  {
    if s != [] { RunLen(schema, apply, m, num, s); }
  }

  lemma RunBoolBytes<F>(schema: Schema, apply: (F, Field) -> Result<F>, m: Msg<F>, num: nat, b: bool)
    requires 1 <= num <= 15 && schema(num) == VarintKind
    ensures Run(schema, apply, m, BoolBytes(num, b)) == if b then Step(apply, m, VarintField(num, 1)) else Ok(m)
  {
    if b {
      RunVarint(schema, apply, m, num, 1);
      assert BoolBytes(num, b) == VarintRecord(num, 1);
    }
  }

  lemma RunPair<F>(schema: Schema, apply: (F, Field) -> Result<F>, m: Msg<F>, x: seq<Byte>, m1: Msg<F>, y: seq<Byte>)
    requires Run(schema, apply, m, x) == Ok(m1)
    ensures Run(schema, apply, m, x + y) == Run(schema, apply, m1, y)
  {
    RunConcat(schema, apply, m, x, y);
  }

  /** Known parts first, unknown bytes last. */
  lemma RunThenUnknown<F>(schema: Schema, apply: (F, Field) -> Result<F>, m: Msg<F>, x: seq<Byte>, m1: Msg<F>, u: seq<Byte>)
    requires Run(schema, apply, m, x) == Ok(m1) && OnlyUnknown(schema, u)
    ensures Run(schema, apply, m, x + u) == Ok(m1.(unknown := m1.unknown + u))
  {
    RunConcat(schema, apply, m, x, u);
    RunUnknown(schema, apply, m1, u);
  }

  lemma AddressOverAddress(a: RecordAddress, b: RecordAddress)
    requires ValidAddress(b) && |AddressBytes(b)| <= MAX_LEN
    ensures DecodeAddress(a, AddressBytes(b)) == Ok(MergeAddress(a, b))
  {
    RunStringBytes(AddressSchema, ApplyAddress, a, 1, b.fields.uri);
    var m1 := a.(fields := RecordAddressFields(Last(a.fields.uri, b.fields.uri, [])));
    RunThenUnknown(AddressSchema, ApplyAddress, a, StringBytes(1, b.fields.uri), m1, b.unknown);
  }

  lemma DocumentOverDocument(a: Document, b: Document)
    requires ValidDocument(b) && |DocumentBytes(b)| <= MAX_LEN
    ensures DecodeDocument(a, DocumentBytes(b)) == Ok(MergeDocument(a, b))
  {
    var v := SignExtend(b.fields.encoding);
    var x, y := VarintBytes(1, v), StringBytes(2, b.fields.payload);
    var m1 := a.(fields := a.fields.(encoding := Last(a.fields.encoding, b.fields.encoding, 0)));
    var m2 := m1.(fields := m1.fields.(payload := Last(a.fields.payload, b.fields.payload, [])));
    RunVarintBytes(DocumentSchema, ApplyDocument, a, 1, v);
    RunStringBytes(DocumentSchema, ApplyDocument, m1, 2, b.fields.payload);
    RunPair(DocumentSchema, ApplyDocument, a, x, m1, y);
    RunThenUnknown(DocumentSchema, ApplyDocument, a, x + y, m2, b.unknown);
  }

  lemma ProgramOverProgram(a: LuaProgram, b: LuaProgram)
    requires ValidProgram(b) && |ProgramBytes(b)| <= MAX_LEN
    ensures DecodeProgram(a, ProgramBytes(b)) == Ok(MergeProgram(a, b))
  {
    var x, y := StringBytes(1, b.fields.source), StringBytes(2, b.fields.sha256);
    var m1 := a.(fields := a.fields.(source := Last(a.fields.source, b.fields.source, [])));
    var m2 := m1.(fields := m1.fields.(sha256 := Last(a.fields.sha256, b.fields.sha256, [])));
    RunStringBytes(ProgramSchema, ApplyProgram, a, 1, b.fields.source);
    RunStringBytes(ProgramSchema, ApplyProgram, m1, 2, b.fields.sha256);
    RunPair(ProgramSchema, ApplyProgram, a, x, m1, y);
    RunThenUnknown(ProgramSchema, ApplyProgram, a, x + y, m2, b.unknown);
  }

  lemma PutOverPut(a: PutOperation, b: PutOperation)
    requires ValidPut(b) && |PutBytes(b)| <= MAX_LEN
    ensures DecodePut(a, PutBytes(b)) == Ok(MergePut(a, b))
  {
    var v := SignExtend(b.fields.mode);
    var x, y := DocumentRecord(1, b.fields.document), VarintBytes(2, v);
    var m1 := a.(fields := a.fields.(document := MergeDocuments(a.fields.document, b.fields.document)));
    var m2 := m1.(fields := m1.fields.(mode := Last(a.fields.mode, b.fields.mode, 0)));
    if b.fields.document.Some? {
      DocumentOverDocument(OrNew(a.fields.document, NEW_DOCUMENT), b.fields.document.value);
      RunLen(PutSchema, ApplyPut, a, 1, DocumentBytes(b.fields.document.value));
    }
    RunVarintBytes(PutSchema, ApplyPut, m1, 2, v);
    RunPair(PutSchema, ApplyPut, a, x, m1, y);
    RunThenUnknown(PutSchema, ApplyPut, a, x + y, m2, b.unknown);
  }

  lemma MergeOverMerge(a: MergeOperation, b: MergeOperation)
    requires ValidMerge(b) && |MergeBytes(b)| <= MAX_LEN
    ensures DecodeMerge(a, MergeBytes(b)) == Ok(MergeMerge(a, b))
  {
    var x := DocumentRecord(1, b.fields.incoming);
    var y := if b.fields.program.None? then [] else LenRecord(2, ProgramBytes(b.fields.program.value));
    var m1 := a.(fields := a.fields.(incoming := MergeDocuments(a.fields.incoming, b.fields.incoming)));
    var m2 := m1.(fields := MergeMerge(a, b).fields);
    if b.fields.incoming.Some? {
      DocumentOverDocument(OrNew(a.fields.incoming, NEW_DOCUMENT), b.fields.incoming.value);
      RunLen(MergeSchema, ApplyMerge, a, 1, DocumentBytes(b.fields.incoming.value));
    }
    if b.fields.program.Some? {
      ProgramOverProgram(OrNew(a.fields.program, NEW_PROGRAM), b.fields.program.value);
      RunLen(MergeSchema, ApplyMerge, m1, 2, ProgramBytes(b.fields.program.value));
    }
    RunPair(MergeSchema, ApplyMerge, a, x, m1, y);
    RunThenUnknown(MergeSchema, ApplyMerge, a, x + y, m2, b.unknown);
  }

  lemma ActionOverAction(m: WriteOperation, b: Action)
    requires NoNilWrapper(m.fields.action) && ValidAction(b) && |ActionBytes(b)| <= MAX_LEN
    ensures DecodeOperation(m, ActionBytes(b)) ==
            Ok(m.(fields := m.fields.(action := MergeAction(m.fields.action, b))))
  {
    match b
    case NoAction =>
    case Put(p) =>
      PutOverPut(if m.fields.action.Put? then m.fields.action.put.value else NEW_PUT, p.value);
      RunLen(OperationSchema, ApplyOperation, m, 2, PutBytes(p.value));
    case Merge(p) =>
      MergeOverMerge(if m.fields.action.Merge? then m.fields.action.merge.value else NEW_MERGE, p.value);
      RunLen(OperationSchema, ApplyOperation, m, 3, MergeBytes(p.value));
  }

  lemma OperationOverOperation(a: WriteOperation, b: WriteOperation)
    requires NoNilWrapper(a.fields.action) && ValidOperation(b) && |OperationBytes(b)| <= MAX_LEN
    ensures DecodeOperation(a, OperationBytes(b)) == Ok(MergeWriteOperation(a, b))
  {
    var fb := b.fields;
    var x := if fb.address.None? then [] else LenRecord(1, AddressBytes(fb.address.value));
    var y, z := BoolBytes(4, fb.returnDocument), ActionBytes(fb.action);
    var merged := MergeWriteOperation(a, b).fields;
    var m1 := a.(fields := a.fields.(address := merged.address));
    var m2 := m1.(fields := m1.fields.(returnDocument := merged.returnDocument));
    if fb.address.Some? {
      AddressOverAddress(OrNew(a.fields.address, NEW_ADDRESS), fb.address.value);
      RunLen(OperationSchema, ApplyOperation, a, 1, AddressBytes(fb.address.value));
    }
    RunBoolBytes(OperationSchema, ApplyOperation, m1, 4, fb.returnDocument);
    ActionOverAction(m2, fb.action);
    RunPair(OperationSchema, ApplyOperation, a, x, m1, y);
    RunPair(OperationSchema, ApplyOperation, a, x + y, m2, z);
    RunThenUnknown(OperationSchema, ApplyOperation, a, x + y + z, m2.(fields := merged), b.unknown);
  }

  lemma OperationFromZero(b: WriteOperation)
    requires ValidOperation(b)
    ensures MergeWriteOperation(NEW_OPERATION, b) == b
  {
    assert [] + b.unknown == b.unknown;
    var f := b.fields;
    if f.address.Some? { assert [] + f.address.value.unknown == f.address.value.unknown; }
    match f.action
    case NoAction =>
    case Put(p) => PutFromZero(p.value);
    case Merge(p) => MergeFromZero(p.value);
  }

  lemma DocumentFromZero(b: Document)
    ensures MergeDocument(NEW_DOCUMENT, b) == b
  {
    assert [] + b.unknown == b.unknown;
  }

  lemma ProgramFromZero(b: LuaProgram)
    ensures MergeProgram(NEW_PROGRAM, b) == b
  {
    assert [] + b.unknown == b.unknown;
  }

  lemma PutFromZero(b: PutOperation)
    ensures MergePut(NEW_PUT, b) == b
  {
    assert [] + b.unknown == b.unknown;
    if b.fields.document.Some? { DocumentFromZero(b.fields.document.value); }
  }

  lemma MergeFromZero(b: MergeOperation)
    ensures MergeMerge(NEW_MERGE, b) == b
  {
    assert [] + b.unknown == b.unknown;
    if b.fields.incoming.Some? { DocumentFromZero(b.fields.incoming.value); }
    if b.fields.program.Some? { ProgramFromZero(b.fields.program.value); }
  }

  function WithOperations(m: WriteRequest, ops: seq<Option<WriteOperation>>): WriteRequest {
    m.(fields := m.fields.(operations := m.fields.operations + ops))
  }

  function WithPrograms(m: WriteRequest, ps: seq<Option<LuaProgram>>): WriteRequest {
    m.(fields := m.fields.(luaPrograms := m.fields.luaPrograms + ps))
  }

  lemma OperationAppend(m: WriteRequest, op: Option<WriteOperation>)
    requires op.Some? && ValidOperation(op.value) && |OperationRecord(op)| <= MAX_LEN
    ensures DecodeRequest(m, OperationRecord(op)) == Ok(WithOperations(m, [op]))
  {
    OperationOverOperation(NEW_OPERATION, op.value);
    OperationFromZero(op.value);
    RunLen(RequestSchema, ApplyRequest, m, 2, OperationBytes(op.value));
  }

  lemma ProgramAppend(m: WriteRequest, p: Option<LuaProgram>)
    requires p.Some? && ValidProgram(p.value) && |ProgramRecord(p)| <= MAX_LEN
    ensures DecodeRequest(m, ProgramRecord(p)) == Ok(WithPrograms(m, [p]))
  {
    ProgramOverProgram(NEW_PROGRAM, p.value);
    ProgramFromZero(p.value);
    RunLen(RequestSchema, ApplyRequest, m, 3, ProgramBytes(p.value));
  }

  lemma {:induction false} OperationsAppend(m: WriteRequest, ops: seq<Option<WriteOperation>>)
    requires ValidOperations(ops) && |OperationsBytes(ops)| <= MAX_LEN
    ensures DecodeRequest(m, OperationsBytes(ops)) == Ok(WithOperations(m, ops))
    decreases |ops|
  {
    hide OperationRecord, ValidOperation, ApplyRequest, ReadField, RequestSchema, RequestBytes;
    if ops == [] {
      assert m.fields.operations + ops == m.fields.operations;
    } else {
      var x, y := OperationRecord(ops[0]), OperationsBytes(ops[1..]);
      assert OperationsBytes(ops) == x + y;
      OperationAppend(m, ops[0]);
      var m1 := WithOperations(m, [ops[0]]);
      RunPair(RequestSchema, ApplyRequest, m, x, m1, y);
      OperationsAppend(m1, ops[1..]);
      assert m.fields.operations + [ops[0]] + ops[1..] == m.fields.operations + ops;
    }
  }

  lemma {:induction false} ProgramsAppend(m: WriteRequest, ps: seq<Option<LuaProgram>>)
    requires ValidPrograms(ps) && |ProgramsBytes(ps)| <= MAX_LEN
    ensures DecodeRequest(m, ProgramsBytes(ps)) == Ok(WithPrograms(m, ps))
    decreases |ps|
  {
    hide ProgramRecord, ValidProgram, ApplyRequest, ReadField, RequestSchema, RequestBytes;
    if ps == [] {
      assert m.fields.luaPrograms + ps == m.fields.luaPrograms;
    } else {
      var x, y := ProgramRecord(ps[0]), ProgramsBytes(ps[1..]);
      assert ProgramsBytes(ps) == x + y;
      ProgramAppend(m, ps[0]);
      var m1 := WithPrograms(m, [ps[0]]);
      RunPair(RequestSchema, ApplyRequest, m, x, m1, y);
      ProgramsAppend(m1, ps[1..]);
      assert m.fields.luaPrograms + [ps[0]] + ps[1..] == m.fields.luaPrograms + ps;
    }
  }

  // ---------------------------------------------------------------- the theorems

  /** Decoding an encoded request into any request merges the two. */
  lemma RequestOverRequest(a: WriteRequest, b: WriteRequest)
    requires ValidRequest(b) && |RequestBytes(b)| <= 0x7FFF_FFFF_FFFF_FFFF
    ensures DecodeRequest(a, RequestBytes(b)) == Ok(MergeRequest(a, b))
  {
    var v := SignExtend(b.fields.completionMode);
    var x, y, z := VarintBytes(1, v), OperationsBytes(b.fields.operations), ProgramsBytes(b.fields.luaPrograms);
    var m1 := a.(fields := a.fields.(completionMode := Last(a.fields.completionMode, b.fields.completionMode, 0)));
    var m2 := m1.(fields := m1.fields.(operations := a.fields.operations + b.fields.operations));
    var m3 := m2.(fields := m2.fields.(luaPrograms := a.fields.luaPrograms + b.fields.luaPrograms));
    RunVarintBytes(RequestSchema, ApplyRequest, a, 1, v);
    OperationsAppend(m1, b.fields.operations);
    ProgramsAppend(m2, b.fields.luaPrograms);
    RunPair(RequestSchema, ApplyRequest, a, x, m1, y);
    RunPair(RequestSchema, ApplyRequest, a, x + y, m2, z);
    RunThenUnknown(RequestSchema, ApplyRequest, a, x + y + z, m3, b.unknown);
  }

  /** Round trip: a request decodes from its own bytes. */
  lemma RequestRoundTrip(m: WriteRequest)
    requires ValidRequest(m) && |RequestBytes(m)| <= 0x7FFF_FFFF_FFFF_FFFF
    ensures DecodeRequest(NEW_REQUEST, RequestBytes(m)) == Ok(m)
  {
    RequestOverRequest(NEW_REQUEST, m);
    assert [] + m.unknown == m.unknown;
    assert [] + m.fields.operations == m.fields.operations;
    assert [] + m.fields.luaPrograms == m.fields.luaPrograms;
  }

  /** Decoding a concatenation is decoding the parts, in order, into one message. */
  lemma RequestConcat(m: WriteRequest, a: seq<Byte>, b: seq<Byte>)
    requires DecodeRequest(m, a).Ok?
    ensures DecodeRequest(m, a + b) == DecodeRequest(DecodeRequest(m, a).value, b)
  {
    RunConcat(RequestSchema, ApplyRequest, m, a, b);
  }

  // ---------------------------------------------------------------- everything decoded is valid

  lemma DecodedPut(m: PutOperation, data: seq<Byte>)
    requires ValidPut(m) && DecodePut(m, data).Ok?
    ensures ValidPut(DecodePut(m, data).value)
  {
    forall f: PutFields, field: Field | ValidPutFields(f) && ApplyPut(f, field).Ok?
      ensures ValidPutFields(ApplyPut(f, field).value)
    {
      if field.LenField? && field.num == 1 {
        RunKeepsUnknown(DocumentSchema, ApplyDocument, OrNew(f.document, NEW_DOCUMENT), field.payload);
      }
    }
    RunKeeps(PutSchema, ApplyPut, ValidPutFields, m, data);
    RunKeepsUnknown(PutSchema, ApplyPut, m, data);
  }

  lemma DecodedMerge(m: MergeOperation, data: seq<Byte>)
    requires ValidMerge(m) && DecodeMerge(m, data).Ok?
    ensures ValidMerge(DecodeMerge(m, data).value)
  {
    forall f: MergeFields, field: Field | ValidMergeFields(f) && ApplyMerge(f, field).Ok?
      ensures ValidMergeFields(ApplyMerge(f, field).value)
    {
      if field.LenField? && field.num == 1 {
        RunKeepsUnknown(DocumentSchema, ApplyDocument, OrNew(f.incoming, NEW_DOCUMENT), field.payload);
      } else if field.LenField? && field.num == 2 {
        RunKeepsUnknown(ProgramSchema, ApplyProgram, OrNew(f.program, NEW_PROGRAM), field.payload);
      }
    }
    RunKeeps(MergeSchema, ApplyMerge, ValidMergeFields, m, data);
    RunKeepsUnknown(MergeSchema, ApplyMerge, m, data);
  }

  lemma DecodedOperation(m: WriteOperation, data: seq<Byte>)
    requires ValidOperation(m) && DecodeOperation(m, data).Ok?
    ensures ValidOperation(DecodeOperation(m, data).value)
  {
    forall f: WriteOperationFields, field: Field | ValidOperationFields(f) && ApplyOperation(f, field).Ok?
      ensures ValidOperationFields(ApplyOperation(f, field).value)
    {
      if field.LenField? {
        if field.num == 1 {
          RunKeepsUnknown(AddressSchema, ApplyAddress, OrNew(f.address, NEW_ADDRESS), field.payload);
        } else if field.num == 2 {
          DecodedPut(if f.action.Put? then f.action.put.value else NEW_PUT, field.payload);
        } else if field.num == 3 {
          DecodedMerge(if f.action.Merge? then f.action.merge.value else NEW_MERGE, field.payload);
        }
      }
    }
    RunKeeps(OperationSchema, ApplyOperation, ValidOperationFields, m, data);
    RunKeepsUnknown(OperationSchema, ApplyOperation, m, data);
  }

  /** Whatever bytes arrive, a decoded request has no nil inside it and keeps unknown fields as whole records. */
  lemma DecodedRequest(m: WriteRequest, data: seq<Byte>)
    requires ValidRequest(m) && DecodeRequest(m, data).Ok?
    ensures ValidRequest(DecodeRequest(m, data).value)
  {
    forall f: WriteRequestFields, field: Field | ValidRequestFields(f) && ApplyRequest(f, field).Ok?
      ensures ValidRequestFields(ApplyRequest(f, field).value)
    {
      if field.LenField? && field.num == 2 {
        DecodedOperation(NEW_OPERATION, field.payload);
      } else if field.LenField? && field.num == 3 {
        RunKeepsUnknown(ProgramSchema, ApplyProgram, NEW_PROGRAM, field.payload);
      }
    }
    RunKeeps(RequestSchema, ApplyRequest, ValidRequestFields, m, data);
    RunKeepsUnknown(RequestSchema, ApplyRequest, m, data);
  }

  // ---------------------------------------------------------------- nil is never dereferenced

  lemma PutNeverPanics(m: PutOperation, data: seq<Byte>)
    ensures DecodePut(m, data) != Err(NilDereference)
  {
    forall f: PutFields, field: Field ensures ApplyPut(f, field) != Err(NilDereference) {
      if field.LenField? {
        RunNeverPanics(DocumentSchema, ApplyDocument, _ => true, OrNew(f.document, NEW_DOCUMENT), field.payload);
      }
    }
    RunNeverPanics(PutSchema, ApplyPut, _ => true, m, data);
  }

  lemma MergeNeverPanics(m: MergeOperation, data: seq<Byte>)
    ensures DecodeMerge(m, data) != Err(NilDereference)
  {
    forall f: MergeFields, field: Field ensures ApplyMerge(f, field) != Err(NilDereference) {
      if field.LenField? {
        RunNeverPanics(DocumentSchema, ApplyDocument, _ => true, OrNew(f.incoming, NEW_DOCUMENT), field.payload);
        RunNeverPanics(ProgramSchema, ApplyProgram, _ => true, OrNew(f.program, NEW_PROGRAM), field.payload);
      }
    }
    RunNeverPanics(MergeSchema, ApplyMerge, _ => true, m, data);
  }

  /**
   One field of an operation panics exactly when it is for a wrapper that holds nil and its first record is one
   the decoder would store.
   */
  lemma ActionPanicsIff(f: WriteOperationFields, field: Field)
    ensures ApplyOperation(f, field) == Err(NilDereference) <==>
            && field.LenField? && field.payload != []
            && var schema := if field.num == 2 then PutSchema else MergeSchema;
            && ((field.num == 2 && f.action == Put(None)) || (field.num == 3 && f.action == Merge(None)))
            && (ReadField(schema, field.payload).Ok? || ZeroesFirst(schema, field.payload))
  {
    if field.LenField? {
      hide Run, ReadField, ZeroesFirst, DecodePut, DecodeMerge;
      RunNeverPanics(AddressSchema, ApplyAddress, _ => true, OrNew(f.address, NEW_ADDRESS), field.payload);
      PutNeverPanics(if f.action.Put? && f.action.put.Some? then f.action.put.value else NEW_PUT, field.payload);
      MergeNeverPanics(if f.action.Merge? && f.action.merge.Some? then f.action.merge.value else NEW_MERGE, field.payload);
    }
  }

  lemma OperationNeverPanics(m: WriteOperation, data: seq<Byte>)
    requires NoNilWrapper(m.fields.action)
    ensures DecodeOperation(m, data) != Err(NilDereference)
  {
    var keep := (f: WriteOperationFields) => NoNilWrapper(f.action);
    forall f: WriteOperationFields, field: Field | keep(f) ensures ApplyOperation(f, field) != Err(NilDereference) {
      ActionPanicsIff(f, field);
    }
    forall f: WriteOperationFields, field: Field | keep(f) && ApplyOperation(f, field).Ok? ensures keep(ApplyOperation(f, field).value) {
      hide Run;
    }
    RunNeverPanics(OperationSchema, ApplyOperation, keep, m, data);
  }

  /** Bytes on which a decoder called on nil gets as far as its first store: a write mode, or an empty document. */
  lemma FirstStore()
    ensures ReadField(PutSchema, VarintRecord(2, 1)).Ok? && ReadField(MergeSchema, LenRecord(1, [])).Ok?
  {
    var v, d := VarintRecord(2, 1), LenRecord(1, []);
    ReadTag(2, WIRE_VARINT, Encode(1));
    ReadEncode64(1, []);
    assert Encode(1) + [] == Encode(1);
    assert [Tag(2, WIRE_VARINT)] + Encode(1) == v && v[1..] == Encode(1);
    ReadTag(1, WIRE_LEN, Encode(0) + []);
    ReadLengthOf([]);
    assert [Tag(1, WIRE_LEN)] + (Encode(0) + []) == d && d[1..] == Encode(0) + [];
  }

  /** An operation whose wrapper holds nil, and bytes that make its decoder dereference it. */
  lemma NilPanics(m: WriteOperation) returns (data: seq<Byte>)
    requires !NoNilWrapper(m.fields.action)
    ensures DecodeOperation(m, data) == Err(NilDereference)
    ensures data == if m.fields.action.Put? then LenRecord(2, VarintRecord(2, 1)) else LenRecord(3, LenRecord(1, []))
  {
    hide Run, ReadField;
    FirstStore();
    if m.fields.action.Put? {
      data := LenRecord(2, VarintRecord(2, 1));
      RunLen(OperationSchema, ApplyOperation, m, 2, VarintRecord(2, 1));
    } else {
      data := LenRecord(3, LenRecord(1, []));
      RunLen(OperationSchema, ApplyOperation, m, 3, LenRecord(1, []));
    }
  }

  /** Decoding into an operation is safe, whatever the bytes, exactly when its wrapper does not hold nil. */
  lemma OperationSafeIff(m: WriteOperation)
    ensures (forall data: seq<Byte> :: DecodeOperation(m, data) != Err(NilDereference)) <==> NoNilWrapper(m.fields.action)
  {
    hide DecodeOperation, NoNilWrapper;
    if NoNilWrapper(m.fields.action) {
      forall data: seq<Byte> ensures DecodeOperation(m, data) != Err(NilDereference) {
        OperationNeverPanics(m, data);
      }
    } else {
      var data := NilPanics(m);
    }
  }

  /** Whatever bytes arrive and whatever request they are read into, decoding never dereferences nil. */
  lemma RequestNeverPanics(m: WriteRequest, data: seq<Byte>)
    ensures DecodeRequest(m, data) != Err(NilDereference)
  {
    forall f: WriteRequestFields, field: Field ensures ApplyRequest(f, field) != Err(NilDereference) {
      if field.LenField? {
        OperationNeverPanics(NEW_OPERATION, field.payload);
        RunNeverPanics(ProgramSchema, ApplyProgram, _ => true, NEW_PROGRAM, field.payload);
      }
    }
    RunNeverPanics(RequestSchema, ApplyRequest, _ => true, m, data);
  }

  /**
   Exactly the requests that survive: those with no nil element or oneof wrapper inside and with unknown bytes
   that are whole records of unknown fields.
   */
  lemma RoundTripIff(m: WriteRequest)
    requires |RequestBytes(m)| <= 0x7FFF_FFFF_FFFF_FFFF
    ensures DecodeRequest(NEW_REQUEST, RequestBytes(m)) == Ok(m) <==> ValidRequest(m)
  {
    hide DecodeRequest, RequestBytes, ValidRequestFields;
    if ValidRequest(m) {
      RequestRoundTrip(m);
    } else if DecodeRequest(NEW_REQUEST, RequestBytes(m)) == Ok(m) {
      NewRequestIsValid();
      DecodedRequest(NEW_REQUEST, RequestBytes(m));
      assert false;
    }
  }

  lemma NewRequestIsValid()
    ensures ValidRequest(NEW_REQUEST)
  {
  }

  /** Re-encoding loses nothing: any decodable bytes and their re-encoding decode to the same request. */
  lemma ReencodeStable(data: seq<Byte>)
    requires DecodeRequest(NEW_REQUEST, data).Ok?
    requires |RequestBytes(DecodeRequest(NEW_REQUEST, data).value)| <= 0x7FFF_FFFF_FFFF_FFFF
    ensures DecodeRequest(NEW_REQUEST, RequestBytes(DecodeRequest(NEW_REQUEST, data).value)) == DecodeRequest(NEW_REQUEST, data)
  {
    DecodedRequest(NEW_REQUEST, data);
    RequestRoundTrip(DecodeRequest(NEW_REQUEST, data).value);
  }
}
