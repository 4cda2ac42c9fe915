/**
  Runs of operations on one `VString`: whatever the order in which the buffer
  moves between the object and the heap, the string is the sequence of bytes
  that the same operations give on plain sequences.
 */
module VStringRuns {
  import opened Utf8
  import opened VStrings

  datatype Op =
    | Assign(bytes: seq<byte>)
    | AssignSelf
    | Append(bytes: seq<byte>)
    | AppendSelf
    | AppendByte(c: byte)
    | Insert(bytes: seq<byte>, offset: int)
    | InsertSelf(offset: int)
    | InsertByte(c: byte, offset: int)
    | Substring(start: int, end: int)
    | TruncateLength(maxLength: int)
    | TruncateCodePoints(maxCodePoints: int)
    | Preflight(length: int)
    | GetNumCodePoints
    | Orphan

  ghost predicate WellFormed(c: seq<byte>) { exists points: seq<CodePoint> :: c == EncodeAll(points) }

  ghost function Points(c: seq<byte>): (points: seq<CodePoint>)
    requires WellFormed(c)
    ensures c == EncodeAll(points)
  {
    var points: seq<CodePoint> :| c == EncodeAll(points);
    points
  }

  /** Only cutting at a code point asks for well-formed UTF-8. */
  ghost predicate Allowed(c: seq<byte>, op: Op) { op.TruncateCodePoints? ==> WellFormed(c) }

  ghost function Applied(c: seq<byte>, op: Op): seq<byte>
    requires Allowed(c, op)
  {
    match op
    case Assign(bytes) => bytes
    case AssignSelf => c
    case Append(bytes) => c + bytes
    case AppendSelf => c + c
    case AppendByte(b) => c + [b]
    case Insert(bytes, offset) => Inserted(c, bytes, offset)
    case InsertSelf(offset) => Inserted(c, c, offset)
    case InsertByte(b, offset) => Inserted(c, [b], offset)
    case Substring(start, end) => VStrings.Substring(c, start, end)
    case TruncateLength(n) => if 0 <= n < |c| then c[..n] else c
    case TruncateCodePoints(n) => var points := Points(c); if 0 <= n < |points| then EncodeAll(points[..n]) else c
    case Preflight(_) => c
    case GetNumCodePoints => c
    case Orphan => []
  }

  ghost predicate AllAllowed(c: seq<byte>, ops: seq<Op>)
    decreases |ops|
  {
    ops == [] || (Allowed(c, ops[0]) && AllAllowed(Applied(c, ops[0]), ops[1..]))
  }

  ghost function AllApplied(c: seq<byte>, ops: seq<Op>): seq<byte>
    requires AllAllowed(c, ops)
    decreases |ops|
  {
    if ops == [] then c else AllApplied(Applied(c, ops[0]), ops[1..])
  }

  method FromBytes(bytes: seq<byte>, is64Bit: bool) returns (s: VString)
    ensures fresh(s) && s.Valid() && fresh(s.Repr()) && s.Contents() == bytes
  {
    var buffer := new byte[|bytes|](i requires 0 <= i < |bytes| => bytes[i]);
    s := new VString(is64Bit);
    var _ := s.CopyFromBuffer(buffer, 0, |bytes|);
    assert buffer[..] == bytes;
  }

  predicate TakesBytes(op: Op) { op.Assign? || op.Append? || op.Insert? }

  /** The operations that take another string. */
  method StepBytes(v: VString, op: Op)
    requires TakesBytes(op)
    requires v.Valid() && Allowed(v.Contents(), op)
    modifies v, v.internalBuffer, v.heapBuffer
    ensures v.Valid() && fresh(v.Repr() - old(v.Repr()))
    ensures v.Contents() == Applied(old(v.Contents()), op)
  {
    hide Inserted;
    var s := FromBytes(op.bytes, v.internalBuffer.Length == 15);
    if op.Assign? {
      v.Assign(s);
    } else if op.Append? {
      v.Append(s);
    } else {
      v.Insert(s, op.offset);
    }
  }

  method Step(v: VString, op: Op)
    requires v.Valid() && Allowed(v.Contents(), op)
    modifies v, v.internalBuffer, v.heapBuffer
    ensures v.Valid() && fresh(v.Repr() - old(v.Repr()))
    ensures v.Contents() == Applied(old(v.Contents()), op)
  {
    hide Inserted, VStrings.Substring, EncodeAll;
    if TakesBytes(op) {
      StepBytes(v, op);
      return;
    }
    match op
    case AssignSelf => v.Assign(v);
    case AppendSelf => v.Append(v);
    case AppendByte(b) => v.AppendByte(b);
    case InsertSelf(offset) => v.Insert(v, offset);
    case InsertByte(b, offset) => v.InsertByte(b, offset);
    case Substring(start, end) => v.SubstringInPlace(start, end);
    case TruncateLength(n) => v.TruncateLength(n);
    case TruncateCodePoints(n) => v.TruncateCodePoints(n, Points(v.Contents()));
    case Preflight(n) => var _ := v.Preflight(n);
    case GetNumCodePoints => var _ := v.GetNumCodePoints();
    case Orphan => var _ := v.OrphanDataBuffer();
  }

  /** A run keeps the storage sound and refines the run on plain sequences. */
  method Run(v: VString, ops: seq<Op>)
    requires v.Valid() && AllAllowed(v.Contents(), ops)
    modifies v, v.internalBuffer, v.heapBuffer
    ensures v.Valid() && fresh(v.Repr() - old(v.Repr()))
    ensures v.Contents() == AllApplied(old(v.Contents()), ops)
  {
    hide Applied, Allowed;
    var i := 0;
    ghost var start := v.Contents();
    assert ops[0..] == ops;
    while i < |ops|
      invariant 0 <= i <= |ops| && v.Valid() && fresh(v.Repr() - old(v.Repr()))
      invariant AllAllowed(v.Contents(), ops[i..])
      invariant AllApplied(v.Contents(), ops[i..]) == AllApplied(start, ops)
    {
      assert ops[i..][0] == ops[i] && ops[i..][1..] == ops[i + 1..];
      Step(v, ops[i]);
      i := i + 1;
    }
    assert ops[i..] == [];
  }
}
