/**
 `SizeVT` and `MarshalToSizedBufferVT`: a message is written backwards into the end of a buffer, so that
 every nested length is known when its prefix is written.
 */
module Marshal {
  import opened Bytes
  import opened Varint
  import opened WireFormat
  import opened Messages
  import opened RoundTrip

  // ---------------------------------------------------------------- sizes

  function LenSize(l: nat): nat { 1 + l + SizeOf(l) }
  function StringSize(s: seq<Byte>): nat { if |s| > 0 then LenSize(|s|) else 0 }
  function EnumSize(v: Int32): nat { if v != 0 then 1 + SizeOf(SignExtend(v)) else 0 }

  function AddressSize(m: RecordAddress): nat { StringSize(m.fields.uri) + |m.unknown| }
  function DocumentSize(m: Document): nat { EnumSize(m.fields.encoding) + StringSize(m.fields.payload) + |m.unknown| }
  function ProgramSize(m: LuaProgram): nat { StringSize(m.fields.source) + StringSize(m.fields.sha256) + |m.unknown| }

  function PutSize(m: PutOperation): nat {
    (if m.fields.document.Some? then LenSize(DocumentSize(m.fields.document.value)) else 0) +
    EnumSize(m.fields.mode) + |m.unknown|
  }

  function MergeSize(m: MergeOperation): nat {
    (if m.fields.incoming.Some? then LenSize(DocumentSize(m.fields.incoming.value)) else 0) +
    (if m.fields.program.Some? then LenSize(ProgramSize(m.fields.program.value)) else 0) + |m.unknown|
  }

  /** A wrapper holding nil counts three bytes, though two are written. */
  function ActionSize(a: Action): nat {
    match a
    case NoAction => 0
    case Put(p) => if p.Some? then LenSize(PutSize(p.value)) else 3
    case Merge(p) => if p.Some? then LenSize(MergeSize(p.value)) else 3
  }

  function OperationSize(m: WriteOperation): nat {
    (if m.fields.address.Some? then LenSize(AddressSize(m.fields.address.value)) else 0) +
    ActionSize(m.fields.action) + (if m.fields.returnDocument then 2 else 0) + |m.unknown|
  }

  function ElementSize(op: Option<WriteOperation>): nat { LenSize(if op.None? then 0 else OperationSize(op.value)) }
  function ProgramElementSize(p: Option<LuaProgram>): nat { LenSize(if p.None? then 0 else ProgramSize(p.value)) }

  function OperationsSize(ops: seq<Option<WriteOperation>>): nat {
    if ops == [] then 0 else ElementSize(ops[0]) + OperationsSize(ops[1..])
  }
  function ProgramsSize(ps: seq<Option<LuaProgram>>): nat {
    if ps == [] then 0 else ProgramElementSize(ps[0]) + ProgramsSize(ps[1..])
  }

  function RequestSize(m: WriteRequest): nat {
    EnumSize(m.fields.completionMode) + OperationsSize(m.fields.operations) + ProgramsSize(m.fields.luaPrograms) + |m.unknown|
  }

  /** `SizeVT` of a request: `n` accumulates over both lists. */
  method SizeRequest(m: WriteRequest) returns (n: nat)
    ensures n == RequestSize(m)
  {
    n := 0;
    if m.fields.completionMode != 0 {
      n := n + 1 + SizeOf(SignExtend(m.fields.completionMode));
    }
    for k := 0 to |m.fields.operations|
      invariant n + OperationsSize(m.fields.operations[k..]) == EnumSize(m.fields.completionMode) + OperationsSize(m.fields.operations)
    {
      var e := m.fields.operations[k];
      var l := if e.None? then 0 else OperationSize(e.value);
      n := n + (1 + l + SizeOf(l));
    }
    ghost var base := n;
    for k := 0 to |m.fields.luaPrograms|
      invariant n + ProgramsSize(m.fields.luaPrograms[k..]) == base + ProgramsSize(m.fields.luaPrograms)
    {
      var e := m.fields.luaPrograms[k];
      var l := if e.None? then 0 else ProgramSize(e.value);
      n := n + (1 + l + SizeOf(l));
    }
    n := n + |m.unknown|;
  }

  // ---------------------------------------------------------------- sizes against bytes

  lemma LenSizeIsLength(num: nat, payload: seq<Byte>)
    requires 1 <= num <= 15
    ensures LenSize(|payload|) == |LenRecord(num, payload)|
  {
    SizeOfIsLength(|payload|);
  }

  lemma StringSizeIsLength(num: nat, s: seq<Byte>)
    requires 1 <= num <= 15
    ensures StringSize(s) == |StringBytes(num, s)|
  {
    LenSizeIsLength(num, s);
  }

  lemma EnumSizeIsLength(num: nat, v: Int32)
    requires 1 <= num <= 15
    ensures EnumSize(v) == |VarintBytes(num, SignExtend(v))|
  {
    SizeOfIsLength(SignExtend(v));
  }

  lemma DocumentSizeIsLength(m: Document)
    ensures DocumentSize(m) == |DocumentBytes(m)|
  {
    EnumSizeIsLength(1, m.fields.encoding);
    StringSizeIsLength(2, m.fields.payload);
  }

  lemma ProgramSizeIsLength(m: LuaProgram)
    ensures ProgramSize(m) == |ProgramBytes(m)|
  {
    StringSizeIsLength(1, m.fields.source);
    StringSizeIsLength(2, m.fields.sha256);
  }

  lemma PutSizeIsLength(m: PutOperation)
    ensures PutSize(m) == |PutBytes(m)|
  {
    if m.fields.document.Some? {
      DocumentSizeIsLength(m.fields.document.value);
      LenSizeIsLength(1, DocumentBytes(m.fields.document.value));
    }
    EnumSizeIsLength(2, m.fields.mode);
  }

  lemma MergeSizeIsLength(m: MergeOperation)
    ensures MergeSize(m) == |MergeBytes(m)|
  {
    if m.fields.incoming.Some? {
      DocumentSizeIsLength(m.fields.incoming.value);
      LenSizeIsLength(1, DocumentBytes(m.fields.incoming.value));
    }
    if m.fields.program.Some? {
      ProgramSizeIsLength(m.fields.program.value);
      LenSizeIsLength(2, ProgramBytes(m.fields.program.value));
    }
  }

  lemma ActionSizeIsLength(a: Action)
    ensures ActionSize(a) == |ActionBytes(a)| + if NoNilWrapper(a) then 0 else 1
  {
    match a
    case NoAction =>
    case Put(p) =>
      if p.Some? {
        PutSizeIsLength(p.value);
        LenSizeIsLength(2, PutBytes(p.value));
      }
    case Merge(p) =>
      if p.Some? {
        MergeSizeIsLength(p.value);
        LenSizeIsLength(3, MergeBytes(p.value));
      }
  }

  lemma OperationSizeIsLength(m: WriteOperation)
    ensures OperationSize(m) == |OperationBytes(m)| + if NoNilWrapper(m.fields.action) then 0 else 1
  {
    if m.fields.address.Some? {
      StringSizeIsLength(1, m.fields.address.value.fields.uri);
      LenSizeIsLength(1, AddressBytes(m.fields.address.value));
    }
    ActionSizeIsLength(m.fields.action);
  }

  predicate WellWrapped(op: Option<WriteOperation>) { op.Some? ==> NoNilWrapper(op.value.fields.action) }

  lemma ElementSizeIsLength(op: Option<WriteOperation>)
    ensures ElementSize(op) >= |OperationRecord(op)|
    ensures ElementSize(op) == |OperationRecord(op)| <==> WellWrapped(op)
  {
    if op.Some? {
      OperationSizeIsLength(op.value);
      var n := |OperationBytes(op.value)|;
      LenSizeIsLength(2, OperationBytes(op.value));
      SizeOfIsLength(n + 1);
      SizeOfMonotone(n, n + 1);
    }
  }

  lemma {:induction false} OperationsSizeIsLength(ops: seq<Option<WriteOperation>>)
    ensures OperationsSize(ops) >= |OperationsBytes(ops)|
    ensures OperationsSize(ops) == |OperationsBytes(ops)| <==> forall k | 0 <= k < |ops| :: WellWrapped(ops[k])
  {
    if ops != [] {
      hide WellWrapped, ElementSize, OperationRecord;
      ElementSizeIsLength(ops[0]);
      OperationsSizeIsLength(ops[1..]);
      assert forall k | 1 <= k < |ops| :: ops[k] == ops[1..][k - 1];
    }
  }

  lemma {:induction false} ProgramsSizeIsLength(ps: seq<Option<LuaProgram>>)
    ensures ProgramsSize(ps) == |ProgramsBytes(ps)|
  {
    if ps != [] {
      if ps[0].Some? {
        ProgramSizeIsLength(ps[0].value);
        LenSizeIsLength(3, ProgramBytes(ps[0].value));
      }
      ProgramsSizeIsLength(ps[1..]);
    }
  }

  predicate WellWrappedRequest(m: WriteRequest) {
    forall k | 0 <= k < |m.fields.operations| :: WellWrapped(m.fields.operations[k])
  }

  /** `SizeVT` is exact except when a oneof wrapper holds nil, and then it is too large. */
  lemma RequestSizeIsLength(m: WriteRequest)
    ensures RequestSize(m) >= |RequestBytes(m)|
    ensures RequestSize(m) == |RequestBytes(m)| <==> WellWrappedRequest(m)
  {
    EnumSizeIsLength(1, m.fields.completionMode);
    OperationsSizeIsLength(m.fields.operations);
    ProgramsSizeIsLength(m.fields.luaPrograms);
  }

  // ---------------------------------------------------------------- writing backwards

  /** `s` with `bytes` over it, starting at `lo`. */
  function Splice(s: seq<Byte>, lo: nat, bytes: seq<Byte>): (r: seq<Byte>)
    requires lo + |bytes| <= |s|
    ensures |r| == |s|
  {
    s[..lo] + bytes + s[lo + |bytes|..]
  }

  /** Writing `x` directly before `w` is writing `x + w`. */
  lemma SpliceBefore(s: seq<Byte>, lo: nat, x: seq<Byte>, w: seq<Byte>)
    requires lo + |x| + |w| <= |s|
    ensures Splice(Splice(s, lo + |x|, w), lo, x) == Splice(s, lo, x + w)
  {
  }

  lemma SpliceEmpty(s: seq<Byte>, lo: nat)
    requires lo <= |s|
    ensures Splice(s, lo, []) == s
  {
  }

  /** `i -= len(s); copy(dAtA[i:], s)` */
  method CopyInto(buf: array<Byte>, end: nat, s: seq<Byte>) returns (i: nat)
    requires |s| <= end <= buf.Length
    modifies buf
    ensures i == end - |s| && buf[..] == Splice(old(buf[..]), i, s)
  {
    i := end - |s|;
    for k := 0 to |s|
      invariant buf[..] == Splice(old(buf[..]), i, s[..k])
    {
      buf[i + k] := s[k];
      assert s[..k + 1] == s[..k] + [s[k]];
    }
    assert s[..|s|] == s;
  }

  /** `i = EncodeVarint(dAtA, i, v); i--; dAtA[i] = tag` */
  method TagAndVarintInto(buf: array<Byte>, end: nat, tag: Byte, v: nat) returns (i: nat)
    requires 1 + |Encode(v)| <= end <= buf.Length
    modifies buf
    ensures i == end - 1 - |Encode(v)| && buf[..] == Splice(old(buf[..]), i, [tag] + Encode(v))
  {
    hide Encode;
    i := EncodeInto(buf, end, v);
    assert buf[..] == Splice(old(buf[..]), i, Encode(v));
    i := i - 1;
    buf[i] := tag;
    assert buf[..] == Splice(Splice(old(buf[..]), i + 1, Encode(v)), i, [tag]);
    SpliceBefore(old(buf[..]), i, [tag], Encode(v));
  }

  /**
   `i = EncodeVarint(dAtA, i, size); i--; dAtA[i] = tag` after `size` bytes of payload, and a suffix written
   before it, are in place: together they are one length-delimited record in front of the suffix.
   */
  method LenHeaderInto(buf: array<Byte>, end: nat, num: nat, size: nat,
                       ghost payload: seq<Byte>, ghost suffix: seq<Byte>, ghost before: seq<Byte>) returns (i: nat)
    requires 1 <= num <= 15 && size == |payload|
    requires |LenRecord(num, payload)| <= end + size && end + size + |suffix| <= buf.Length == |before|
    requires buf[..] == Splice(Splice(before, end + size, suffix), end, payload)
    modifies buf
    ensures i == end + size - |LenRecord(num, payload)|
    ensures buf[..] == Splice(before, i, LenRecord(num, payload) + suffix)
  {
    hide Encode, Splice;
    i := TagAndVarintInto(buf, end, Tag(num, WIRE_LEN), size);
    ghost var head := [Tag(num, WIRE_LEN)] + Encode(size);
    SpliceBefore(before, end, payload, suffix);
    SpliceBefore(before, i, head, payload + suffix);
    assert head + (payload + suffix) == LenRecord(num, payload) + suffix;
  }

  method StringInto(buf: array<Byte>, end: nat, num: nat, s: seq<Byte>, ghost suffix: seq<Byte>, ghost before: seq<Byte>)
    returns (i: nat)
    requires 1 <= num <= 15
    requires |StringBytes(num, s)| <= end && end + |suffix| <= buf.Length == |before|
    requires buf[..] == Splice(before, end, suffix)
    modifies buf
    ensures i == end - |StringBytes(num, s)|
    ensures buf[..] == Splice(before, i, StringBytes(num, s) + suffix)
  {
    hide Encode, Splice;
    i := end;
    if |s| > 0 {
      i := CopyInto(buf, i, s);
      i := LenHeaderInto(buf, i, num, |s|, s, suffix, before);
    } else {
      assert [] + suffix == suffix;
    }
  }

  method EnumInto(buf: array<Byte>, end: nat, num: nat, v: Int32, ghost suffix: seq<Byte>, ghost before: seq<Byte>)
    returns (i: nat)
    requires 1 <= num <= 15
    requires |VarintBytes(num, SignExtend(v))| <= end && end + |suffix| <= buf.Length == |before|
    requires buf[..] == Splice(before, end, suffix)
    modifies buf
    ensures i == end - |VarintBytes(num, SignExtend(v))|
    ensures buf[..] == Splice(before, i, VarintBytes(num, SignExtend(v)) + suffix)
  {
    hide Encode, Splice;
    i := end;
    if v != 0 {
      i := TagAndVarintInto(buf, i, Tag(num, WIRE_VARINT), SignExtend(v));
      SpliceBefore(before, i, VarintRecord(num, SignExtend(v)), suffix);
    } else {
      assert [] + suffix == suffix;
    }
  }

  // ---------------------------------------------------------------- MarshalToSizedBufferVT

  method MarshalAddress(m: RecordAddress, buf: array<Byte>, end: nat) returns (n: nat)
    requires |AddressBytes(m)| <= end <= buf.Length
    modifies buf
    ensures n == |AddressBytes(m)| && buf[..] == Splice(old(buf[..]), end - n, AddressBytes(m))
  {
    hide StringBytes, Splice;
    var i := CopyInto(buf, end, m.unknown);
    i := StringInto(buf, i, 1, m.fields.uri, m.unknown, old(buf[..]));
    n := end - i;
  }

  method MarshalDocument(m: Document, buf: array<Byte>, end: nat) returns (n: nat)
    requires |DocumentBytes(m)| <= end <= buf.Length
    modifies buf
    ensures n == |DocumentBytes(m)| && buf[..] == Splice(old(buf[..]), end - n, DocumentBytes(m))
  {
    hide StringBytes, VarintBytes, Splice;
    var i := CopyInto(buf, end, m.unknown);
    i := StringInto(buf, i, 2, m.fields.payload, m.unknown, old(buf[..]));
    ghost var w := StringBytes(2, m.fields.payload) + m.unknown;
    i := EnumInto(buf, i, 1, m.fields.encoding, w, old(buf[..]));
    assert VarintBytes(1, SignExtend(m.fields.encoding)) + w == DocumentBytes(m);
    n := end - i;
  }

  method MarshalProgram(m: LuaProgram, buf: array<Byte>, end: nat) returns (n: nat)
    requires |ProgramBytes(m)| <= end <= buf.Length
    modifies buf
    ensures n == |ProgramBytes(m)| && buf[..] == Splice(old(buf[..]), end - n, ProgramBytes(m))
  {
    hide StringBytes, Splice;
    var i := CopyInto(buf, end, m.unknown);
    i := StringInto(buf, i, 2, m.fields.sha256, m.unknown, old(buf[..]));
    ghost var w := StringBytes(2, m.fields.sha256) + m.unknown;
    i := StringInto(buf, i, 1, m.fields.source, w, old(buf[..]));
    assert StringBytes(1, m.fields.source) + w == ProgramBytes(m);
    n := end - i;
  }

  /** A nested document in front of what is already written. */
  method DocumentInto(buf: array<Byte>, end: nat, num: nat, d: Option<Document>, ghost suffix: seq<Byte>, ghost before: seq<Byte>)
    returns (i: nat)
    requires 1 <= num <= 15
    requires |DocumentRecord(num, d)| <= end && end + |suffix| <= buf.Length == |before|
    requires buf[..] == Splice(before, end, suffix)
    modifies buf
    ensures i == end - |DocumentRecord(num, d)|
    ensures buf[..] == Splice(before, i, DocumentRecord(num, d) + suffix)
  {
    hide DocumentBytes, Encode, Splice;
    i := end;
    if d.Some? {
      var size := MarshalDocument(d.value, buf, i);
      i := LenHeaderInto(buf, i - size, num, size, DocumentBytes(d.value), suffix, before);
    } else {
      assert [] + suffix == suffix;
    }
  }

  method ProgramInto(buf: array<Byte>, end: nat, num: nat, p: LuaProgram, ghost suffix: seq<Byte>, ghost before: seq<Byte>)
    returns (i: nat)
    requires 1 <= num <= 15
    requires |LenRecord(num, ProgramBytes(p))| <= end && end + |suffix| <= buf.Length == |before|
    requires buf[..] == Splice(before, end, suffix)
    modifies buf
    ensures i == end - |LenRecord(num, ProgramBytes(p))|
    ensures buf[..] == Splice(before, i, LenRecord(num, ProgramBytes(p)) + suffix)
  {
    hide ProgramBytes, Encode, Splice;
    var size := MarshalProgram(p, buf, end);
    i := LenHeaderInto(buf, end - size, num, size, ProgramBytes(p), suffix, before);
  }

  method MarshalPut(m: PutOperation, buf: array<Byte>, end: nat) returns (n: nat)
    requires |PutBytes(m)| <= end <= buf.Length
    modifies buf
    ensures n == |PutBytes(m)| && buf[..] == Splice(old(buf[..]), end - n, PutBytes(m))
  {
    hide DocumentRecord, VarintBytes, Splice;
    var i := CopyInto(buf, end, m.unknown);
    i := EnumInto(buf, i, 2, m.fields.mode, m.unknown, old(buf[..]));
    ghost var w := VarintBytes(2, SignExtend(m.fields.mode)) + m.unknown;
    i := DocumentInto(buf, i, 1, m.fields.document, w, old(buf[..]));
    assert DocumentRecord(1, m.fields.document) + w == PutBytes(m);
    n := end - i;
  }

  method MarshalMerge(m: MergeOperation, buf: array<Byte>, end: nat) returns (n: nat)
    requires |MergeBytes(m)| <= end <= buf.Length
    modifies buf
    ensures n == |MergeBytes(m)| && buf[..] == Splice(old(buf[..]), end - n, MergeBytes(m))
  {
    hide DocumentRecord, LenRecord, ProgramBytes, Splice;
    var i := CopyInto(buf, end, m.unknown);
    ghost var w := m.unknown;
    if m.fields.program.Some? {
      i := ProgramInto(buf, i, 2, m.fields.program.value, w, old(buf[..]));
      w := LenRecord(2, ProgramBytes(m.fields.program.value)) + w;
    }
    i := DocumentInto(buf, i, 1, m.fields.incoming, w, old(buf[..]));
    assert DocumentRecord(1, m.fields.incoming) + w == MergeBytes(m);
    n := end - i;
  }

  /** The `WriteOperation_Put` wrapper: an empty record when it holds nil. */
  method PutWrapperInto(buf: array<Byte>, end: nat, p: Option<PutOperation>, ghost suffix: seq<Byte>, ghost before: seq<Byte>)
    returns (i: nat)
    requires |ActionBytes(Put(p))| <= end && end + |suffix| <= buf.Length == |before|
    requires buf[..] == Splice(before, end, suffix)
    modifies buf
    ensures i == end - |ActionBytes(Put(p))|
    ensures buf[..] == Splice(before, i, ActionBytes(Put(p)) + suffix)
  {
    hide PutBytes, Encode, Splice;
    if p.Some? {
      var size := MarshalPut(p.value, buf, end);
      i := LenHeaderInto(buf, end - size, 2, size, PutBytes(p.value), suffix, before);
    } else {
      SpliceEmpty(buf[..], end);
      i := LenHeaderInto(buf, end, 2, 0, [], suffix, before);
    }
  }

  /** The `WriteOperation_Merge` wrapper. */
  method MergeWrapperInto(buf: array<Byte>, end: nat, p: Option<MergeOperation>, ghost suffix: seq<Byte>, ghost before: seq<Byte>)
    returns (i: nat)
    requires |ActionBytes(Merge(p))| <= end && end + |suffix| <= buf.Length == |before|
    requires buf[..] == Splice(before, end, suffix)
    modifies buf
    ensures i == end - |ActionBytes(Merge(p))|
    ensures buf[..] == Splice(before, i, ActionBytes(Merge(p)) + suffix)
  {
    hide MergeBytes, Encode, Splice;
    if p.Some? {
      var size := MarshalMerge(p.value, buf, end);
      i := LenHeaderInto(buf, end - size, 3, size, MergeBytes(p.value), suffix, before);
    } else {
      SpliceEmpty(buf[..], end);
      i := LenHeaderInto(buf, end, 3, 0, [], suffix, before);
    }
  }

  method BoolInto(buf: array<Byte>, end: nat, num: nat, b: bool, ghost suffix: seq<Byte>, ghost before: seq<Byte>)
    returns (i: nat)
    requires 1 <= num <= 15
    requires |BoolBytes(num, b)| <= end && end + |suffix| <= buf.Length == |before|
    requires buf[..] == Splice(before, end, suffix)
    modifies buf
    ensures i == end - |BoolBytes(num, b)|
    ensures buf[..] == Splice(before, i, BoolBytes(num, b) + suffix)
  {
    i := end;
    if b {
      i := i - 1;
      buf[i] := 1;
      i := i - 1;
      buf[i] := Tag(num, WIRE_VARINT);
      assert buf[..] == Splice(Splice(before, end, suffix), i, BoolBytes(num, b));
      SpliceBefore(before, i, BoolBytes(num, b), suffix);
    } else {
      assert [] + suffix == suffix;
    }
  }

  method AddressInto(buf: array<Byte>, end: nat, a: RecordAddress, ghost suffix: seq<Byte>, ghost before: seq<Byte>)
    returns (i: nat)
    requires |LenRecord(1, AddressBytes(a))| <= end && end + |suffix| <= buf.Length == |before|
    requires buf[..] == Splice(before, end, suffix)
    modifies buf
    ensures i == end - |LenRecord(1, AddressBytes(a))|
    ensures buf[..] == Splice(before, i, LenRecord(1, AddressBytes(a)) + suffix)
  {
    hide AddressBytes, Encode, Splice;
    var size := MarshalAddress(a, buf, end);
    i := LenHeaderInto(buf, end - size, 1, size, AddressBytes(a), suffix, before);
  }

  method MarshalOperation(m: WriteOperation, buf: array<Byte>, end: nat) returns (n: nat)
    requires |OperationBytes(m)| <= end <= buf.Length
    modifies buf
    ensures n == |OperationBytes(m)| && buf[..] == Splice(old(buf[..]), end - n, OperationBytes(m))
  {
    hide PutBytes, MergeBytes, AddressBytes, LenRecord, BoolBytes, Splice;
    ghost var before := buf[..];
    var i := CopyInto(buf, end, m.unknown);
    ghost var w := m.unknown;
    match m.fields.action {
    case NoAction =>
    case Put(p) => i := PutWrapperInto(buf, i, p, w, before);
    case Merge(p) => i := MergeWrapperInto(buf, i, p, w, before);
    }
    w := ActionBytes(m.fields.action) + w;
    assert m.fields.action.NoAction? ==> w == m.unknown;
    i := BoolInto(buf, i, 4, m.fields.returnDocument, w, before);
    w := BoolBytes(4, m.fields.returnDocument) + w;
    if m.fields.address.Some? {
      i := AddressInto(buf, i, m.fields.address.value, w, before);
      w := LenRecord(1, AddressBytes(m.fields.address.value)) + w;
    }
    assert w == OperationBytes(m);
    n := end - i;
  }

  lemma OperationsCons(ops: seq<Option<WriteOperation>>, k: nat)
    requires k < |ops|
    ensures OperationsBytes(ops[k..]) == OperationRecord(ops[k]) + OperationsBytes(ops[k + 1..])
  {
    assert ops[k..][1..] == ops[k + 1..];
  }

  lemma ProgramsCons(ps: seq<Option<LuaProgram>>, k: nat)
    requires k < |ps|
    ensures ProgramsBytes(ps[k..]) == ProgramRecord(ps[k]) + ProgramsBytes(ps[k + 1..])
  {
    assert ps[k..][1..] == ps[k + 1..];
  }

  lemma {:induction false} OperationsTail(ops: seq<Option<WriteOperation>>, k: nat)
    requires k <= |ops|
    ensures |OperationsBytes(ops[k..])| <= |OperationsBytes(ops)|
    decreases k
  {
    hide OperationRecord, Splice;
    if k > 0 {
      OperationsCons(ops, k - 1);
      OperationsTail(ops, k - 1);
    } else {
      assert ops[0..] == ops;
    }
  }

  lemma {:induction false} ProgramsTail(ps: seq<Option<LuaProgram>>, k: nat)
    requires k <= |ps|
    ensures |ProgramsBytes(ps[k..])| <= |ProgramsBytes(ps)|
    decreases k
  {
    hide ProgramRecord, Splice;
    if k > 0 {
      ProgramsCons(ps, k - 1);
      ProgramsTail(ps, k - 1);
    } else {
      assert ps[0..] == ps;
    }
  }

  /** The backwards loop over `Operations`. */
  method OperationsInto(buf: array<Byte>, end: nat, ops: seq<Option<WriteOperation>>, ghost suffix: seq<Byte>, ghost before: seq<Byte>)
    returns (i: nat)
    requires |OperationsBytes(ops)| <= end && end + |suffix| <= buf.Length == |before|
    requires buf[..] == Splice(before, end, suffix)
    modifies buf
    ensures i == end - |OperationsBytes(ops)|
    ensures buf[..] == Splice(before, i, OperationsBytes(ops) + suffix)
  {
    hide OperationsBytes, OperationBytes, Encode, Splice;
    i := end;
    var k := |ops|;
    EmptyTails(ops, []);
    assert [] + suffix == suffix;
    while k > 0
      invariant 0 <= k <= |ops|
      invariant i == end - |OperationsBytes(ops[k..])| && i >= 0
      invariant buf[..] == Splice(before, i, OperationsBytes(ops[k..]) + suffix)
    {
      k := k - 1;
      OperationsTail(ops, k);
      OperationsCons(ops, k);
      ghost var w := OperationsBytes(ops[k + 1..]) + suffix;
      ghost var payload := if ops[k].None? then [] else OperationBytes(ops[k].value);
      var size := 0;
      SpliceEmpty(buf[..], i);
      if ops[k].Some? {
        size := MarshalOperation(ops[k].value, buf, i);
      }
      i := LenHeaderInto(buf, i - size, 2, size, payload, w, before);
      assert LenRecord(2, payload) + w == OperationsBytes(ops[k..]) + suffix;
    }
    assert ops[0..] == ops;
  }

  lemma EmptyTails(ops: seq<Option<WriteOperation>>, ps: seq<Option<LuaProgram>>)
    ensures OperationsBytes(ops[|ops|..]) == [] && ProgramsBytes(ps[|ps|..]) == []
  {
  }

  /** The backwards loop over `LuaPrograms`. */
  method ProgramsInto(buf: array<Byte>, end: nat, ps: seq<Option<LuaProgram>>, ghost suffix: seq<Byte>, ghost before: seq<Byte>)
    returns (i: nat)
    requires |ProgramsBytes(ps)| <= end && end + |suffix| <= buf.Length == |before|
    requires buf[..] == Splice(before, end, suffix)
    modifies buf
    ensures i == end - |ProgramsBytes(ps)|
    ensures buf[..] == Splice(before, i, ProgramsBytes(ps) + suffix)
  {
    hide ProgramsBytes, ProgramBytes, Encode, Splice;
    i := end;
    var k := |ps|;
    EmptyTails([], ps);
    assert [] + suffix == suffix;
    while k > 0
      invariant 0 <= k <= |ps|
      invariant i == end - |ProgramsBytes(ps[k..])| && i >= 0
      invariant buf[..] == Splice(before, i, ProgramsBytes(ps[k..]) + suffix)
    {
      k := k - 1;
      ProgramsTail(ps, k);
      ProgramsCons(ps, k);
      ghost var w := ProgramsBytes(ps[k + 1..]) + suffix;
      ghost var payload := if ps[k].None? then [] else ProgramBytes(ps[k].value);
      var size := 0;
      SpliceEmpty(buf[..], i);
      if ps[k].Some? {
        size := MarshalProgram(ps[k].value, buf, i);
      }
      i := LenHeaderInto(buf, i - size, 3, size, payload, w, before);
      assert LenRecord(3, payload) + w == ProgramsBytes(ps[k..]) + suffix;
    }
    assert ps[0..] == ps;
  }

  /** The request's bytes land in the last `n` bytes before `end`; nothing else in the buffer changes. */
  method MarshalRequest(m: WriteRequest, buf: array<Byte>, end: nat) returns (n: nat)
    requires |RequestBytes(m)| <= end <= buf.Length
    modifies buf
    ensures n == |RequestBytes(m)| && buf[..] == Splice(old(buf[..]), end - n, RequestBytes(m))
  {
    hide OperationsBytes, ProgramsBytes, VarintBytes, Splice;
    ghost var before := buf[..];
    var i := CopyInto(buf, end, m.unknown);
    i := ProgramsInto(buf, i, m.fields.luaPrograms, m.unknown, before);
    ghost var w := ProgramsBytes(m.fields.luaPrograms) + m.unknown;
    i := OperationsInto(buf, i, m.fields.operations, w, before);
    w := OperationsBytes(m.fields.operations) + w;
    i := EnumInto(buf, i, 1, m.fields.completionMode, w, before);
    assert VarintBytes(1, SignExtend(m.fields.completionMode)) + w == RequestBytes(m);
    n := end - i;
  }
}
