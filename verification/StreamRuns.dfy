/** Whole runs of an encrypted stream against a plain byte string. */
module StreamRuns {
  import opened Common
  import opened ByteStreams
  import opened LiteStreams

  datatype Op =
    | Read(offset: nat, length: nat)
    | Write(input: Bytes, offset: nat)
    | Resize(length: nat)
    | GetSize

  datatype Answer = Text(text: Bytes) | Done | Length(length: nat) | Failed

  /** What an operation leaves of a byte string: writing behind its end fills the gap with zeros. */
  ghost function After(t: Bytes, op: Op): Bytes {
    match op
    case Write(input, offset) => WriteAt(t, offset, input)
    case Resize(length) => ResizeTo(t, length)
    case _ => t
  }

  /** What an operation answers: reading stops at the end. */
  ghost function AnswerTo(t: Bytes, op: Op): Answer {
    match op
    case Read(offset, length) => Text(ReadAt(t, offset, length))
    case GetSize => Length(|t|)
    case _ => Done
  }

  ghost function Answers(t: Bytes, ops: seq<Op>): seq<Answer>
    decreases |ops|
  {
    if ops == [] then [] else [AnswerTo(t, ops[0])] + Answers(After(t, ops[0]), ops[1..])
  }

  /** The operation stays within the blocks that can be addressed. */
  predicate InRange(op: Op, limit: nat) {
    match op
    case Read(offset, length) => offset + length <= limit
    case Write(input, offset) => offset + |input| <= limit
    case Resize(length) => length <= limit
    case GetSize => true
  }

  lemma StaysShort(t: Bytes, op: Op, limit: nat)
    requires |t| <= limit && InRange(op, limit)
    ensures |After(t, op)| <= limit
  {
  }

  method Step(s: LiteStream, op: Op) returns (a: Answer)
    requires s.Valid() && |s.text| <= s.Limit() && InRange(op, s.Limit())
    modifies s
    ensures s.Valid() && s.text == After(old(s.text), op) && a == AnswerTo(old(s.text), op)
    ensures Drew(old(s.drawn), old(s.used), s.drawn, s.used)
  {
    hide WriteAt, ReadAt, ResizeTo, Drew;
    DrewNone(s.drawn, s.used);
    match op
    case Read(offset, length) =>
      var r := s.Read(offset, length);
      a := if r.Ok? then Text(r.value) else Failed;
    case Write(input, offset) =>
      var r := s.Write(input, offset);
      a := if r.Ok? then Done else Failed;
    case Resize(length) =>
      var r := s.Resize(length);
      a := if r.Ok? then Done else Failed;
    case GetSize =>
      var n := s.Size();
      a := Length(n);
  }

  /** Any run within range gives the answers of a plain byte string, and no two blocks that were sealed on
      the way were sealed under the same draw. */
  method Run(s: LiteStream, ops: seq<Op>) returns (answers: seq<Answer>)
    requires s.Valid() && |s.text| <= s.Limit() && forall i :: 0 <= i < |ops| ==> InRange(ops[i], s.Limit())
    modifies s
    ensures s.Valid() && answers == Answers(old(s.text), ops)
    ensures Drew(old(s.drawn), old(s.used), s.drawn, s.used)
    ensures forall i, j :: 0 <= i < j < |s.used| ==> s.used[i] != s.used[j]
    decreases |ops|
  {
    hide Drew;
    DrewNone(s.drawn, s.used);
    if ops == [] {
      return [];
    }
    StaysShort(s.text, ops[0], s.Limit());
    var a := Step(s, ops[0]);
    ghost var d1, u1 := s.drawn, s.used;
    var more := Run(s, ops[1..]);
    DrewMore(old(s.drawn), old(s.used), d1, u1, s.drawn, s.used);
    answers := [a] + more;
  }
}
