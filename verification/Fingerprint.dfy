/** Event identity: packages/shared/src/fingerprint.ts and the closed set of event types. */
module Fingerprint {
  import opened Text

  datatype EventType =
    | SessionStarted | SessionEnded | MessageUser | MessageAssistant
    | ToolCallStarted | ToolCallCompleted | ToolCallFailed
    | FileRead | FileModified | FileReferenced | ContextLoaded
    | UsageReported | CostEstimated

  function TypeName(t: EventType): string {
    match t
    case SessionStarted => "session.started"
    case SessionEnded => "session.ended"
    case MessageUser => "message.user"
    case MessageAssistant => "message.assistant"
    case ToolCallStarted => "tool.call.started"
    case ToolCallCompleted => "tool.call.completed"
    case ToolCallFailed => "tool.call.failed"
    case FileRead => "file.read"
    case FileModified => "file.modified"
    case FileReferenced => "file.referenced"
    case ContextLoaded => "context.loaded"
    case UsageReported => "usage.reported"
    case CostEstimated => "cost.estimated"
  }

  const ALL_TYPES: seq<EventType> := [
    SessionStarted, SessionEnded, MessageUser, MessageAssistant, ToolCallStarted, ToolCallCompleted,
    ToolCallFailed, FileRead, FileModified, FileReferenced, ContextLoaded, UsageReported, CostEstimated]

  /** The type a name stands for, told by the name's length and one of its characters. */
  function TypeNamed(s: string): EventType {
    match |s|
    case 9 => FileRead
    case 12 => MessageUser
    case 13 => if s[0] == 's' then SessionEnded else FileModified
    case 14 => if s[0] == 'u' then UsageReported else if s[2] == 'n' then ContextLoaded else CostEstimated
    case 15 => if s[0] == 's' then SessionStarted else FileReferenced
    case 16 => ToolCallFailed
    case 17 => if s[0] == 'm' then MessageAssistant else ToolCallStarted
    case _ => ToolCallCompleted
  }

  lemma NameOfType(t: EventType)
    ensures TypeNamed(TypeName(t)) == t && '|' !in TypeName(t)
  {
    match t
    case SessionStarted =>
    case SessionEnded =>
    case MessageUser =>
    case MessageAssistant =>
    case ToolCallStarted =>
    case ToolCallCompleted =>
    case ToolCallFailed =>
    case FileRead =>
    case FileModified =>
    case FileReferenced =>
    case ContextLoaded =>
    case UsageReported =>
    case CostEstimated =>
  }

  /** No type holds a bar, and no two share a name. */
  lemma TypeNames(a: EventType, b: EventType)
    ensures '|' !in TypeName(a)
    ensures TypeName(a) == TypeName(b) ==> a == b
  {
    NameOfType(a);
    NameOfType(b);
  }

  /** What the hash covers: connector, raw record id, event index and event type joined by `|`. */
  function Preimage(connector: string, rawId: string, index: nat, t: EventType): string {
    Join([connector, rawId, Decimal(index), TypeName(t)], "|")
  }

  lemma PreimageShape(connector: string, rawId: string, index: nat, t: EventType)
    ensures Preimage(connector, rawId, index, t) == connector + "|" + rawId + "|" + Decimal(index) + "|" + TypeName(t)
  {
    var parts := [connector, rawId, Decimal(index), TypeName(t)];
    assert parts[1..] == [rawId, Decimal(index), TypeName(t)];
    assert parts[1..][1..] == [Decimal(index), TypeName(t)];
    assert parts[1..][1..][1..] == [TypeName(t)];
    calc {
      Join(parts, "|");
      connector + "|" + Join(parts[1..], "|");
      connector + "|" + (rawId + "|" + Join(parts[1..][1..], "|"));
      connector + "|" + (rawId + "|" + (Decimal(index) + "|" + TypeName(t)));
    }
  }

  /** Index and type can always be read back; connector and raw id only up to where they meet. */
  lemma PreimageCut(c1: string, r1: string, i1: nat, t1: EventType, c2: string, r2: string, i2: nat, t2: EventType)
    requires Preimage(c1, r1, i1, t1) == Preimage(c2, r2, i2, t2)
    ensures i1 == i2 && t1 == t2 && c1 + "|" + r1 == c2 + "|" + r2
  {
    PreimageShape(c1, r1, i1, t1);
    PreimageShape(c2, r2, i2, t2);
    TypeNames(t1, t2);
    TypeNames(t2, t1);
    CutLast(c1 + "|" + r1 + "|" + Decimal(i1), TypeName(t1), c2 + "|" + r2 + "|" + Decimal(i2), TypeName(t2), '|');
    CutLast(c1 + "|" + r1, Decimal(i1), c2 + "|" + r2, Decimal(i2), '|');
    DecimalInjective(i1, i2);
  }

  /** The pre-image names the event when the connector ids hold no `|`. */
  lemma PreimageInjective(c1: string, r1: string, i1: nat, t1: EventType, c2: string, r2: string, i2: nat, t2: EventType)
    requires '|' !in c1 && '|' !in c2
    requires Preimage(c1, r1, i1, t1) == Preimage(c2, r2, i2, t2)
    ensures c1 == c2 && r1 == r2 && i1 == i2 && t1 == t2
  {
    PreimageCut(c1, r1, i1, t1, c2, r2, i2, t2);
    CutFirst(c1, r1, c2, r2, '|');
  }

  /** `b` continues `a` with a `|`. */
  predicate Extends(a: string, b: string) { a + "|" <= b }

  datatype EventId = EventId(rawId: string, index: nat, eventType: EventType)

  function PreimageOf(connector: string, e: EventId): string {
    Preimage(connector, e.rawId, e.index, e.eventType)
  }

  ghost predicate Collide(c1: string, c2: string) {
    exists e1, e2 :: PreimageOf(c1, e1) == PreimageOf(c2, e2)
  }

  /** Exactly when two different connectors can produce one fingerprint pre-image. */
  lemma CollideExactly(c1: string, c2: string)
    requires c1 != c2
    ensures Collide(c1, c2) <==> Extends(c1, c2) || Extends(c2, c1)
  {
    if Collide(c1, c2) { CollideExtends(c1, c2); }
    if Extends(c1, c2) { CollideWitness(c1, c2); }
    if Extends(c2, c1) { CollideWitness(c2, c1); }
  }

  lemma CollideExtends(c1: string, c2: string)
    requires c1 != c2 && Collide(c1, c2)
    ensures Extends(c1, c2) || Extends(c2, c1)
  {
    var e1, e2 :| PreimageOf(c1, e1) == PreimageOf(c2, e2);
    PreimageCut(c1, e1.rawId, e1.index, e1.eventType, c2, e2.rawId, e2.index, e2.eventType);
    MeetExtends(c1, e1.rawId, c2, e2.rawId);
  }

  lemma MeetExtends(c1: string, r1: string, c2: string, r2: string)
    requires c1 != c2 && c1 + "|" + r1 == c2 + "|" + r2
    ensures Extends(c1, c2) || Extends(c2, c1)
  {
    var s := c1 + "|" + r1;
    assert c1 == s[..|c1|] && c2 == s[..|c2|];
    assert c1 + "|" == s[..|c1| + 1] && c2 + "|" == s[..|c2| + 1];
    assert |c1| != |c2|;
  }

  lemma CollideWitness(a: string, b: string)
    requires Extends(a, b)
    ensures Collide(a, b) && Collide(b, a)
  {
    var z := b[|a| + 1..];
    assert b == a + "|" + z;
    PreimageShape(a, z + "|x", 0, FileRead);
    PreimageShape(b, "x", 0, FileRead);
    assert a + "|" + (z + "|x") + "|" + Decimal(0) + "|" + TypeName(FileRead)
        == b + "|" + "x" + "|" + Decimal(0) + "|" + TypeName(FileRead);
    assert PreimageOf(a, EventId(z + "|x", 0, FileRead)) == PreimageOf(b, EventId("x", 0, FileRead));
  }

  /** A raw id `session:line` names its session and line, whatever the session id holds. */
  lemma RawIdInjective(s1: string, i1: nat, s2: string, i2: nat)
    requires s1 + ":" + Decimal(i1) == s2 + ":" + Decimal(i2)
    ensures s1 == s2 && i1 == i2
  {
    CutLast(s1, Decimal(i1), s2, Decimal(i2), ':');
    DecimalInjective(i1, i2);
  }
}
