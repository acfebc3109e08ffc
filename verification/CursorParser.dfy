/** The parser of apps/collector/src/connectors/cursor.ts. */
module CursorParser {
  import opened Wrappers
  import opened Text
  import opened Fingerprint

  const CURSOR := "cursor"

  datatype Role = UserBubble | AssistantBubble | OtherBubble

  /** A parsed bubble: `usage` holds (input, output) tokens, `tool` whether the tool call failed. */
  datatype Bubble = Bubble(role: Role, usage: Option<(int, int)>, tool: Option<bool>)
  datatype BubbleRow = BubbleRow(key: string, value: string)

  /** A parsed composer: its own id when it carries one, and whether it names a real model. */
  datatype Composer = Composer(composerId: Option<string>, realModel: bool)

  /** JSON.parse of the two blob kinds; None is a parse error. */
  datatype Json = Json(composer: string -> Option<Composer>, bubble: string -> Option<Bubble>)

  datatype Record = Record(id: string, payload: string)
  datatype Parsed = Parsed(records: seq<Record>, events: seq<EventId>, skipped: nat)

  /** `parts.length >= 3 ? parts.slice(2).join(":") : undefined`. */
  function BubbleIdFromKey(key: string): Option<string> {
    var parts := Split(key, ":");
    if |parts| >= 3 then Some(Join(parts[2..], ":")) else None
  }

  function ComposerIdFromBubbles(rows: seq<BubbleRow>): Option<string> {
    if rows == [] then None
    else
      var parts := Split(rows[0].key, ":");
      if |parts| >= 2 && parts[1] != "" then Some(parts[1]) else ComposerIdFromBubbles(rows[1..])
  }

  function UsageEvents(id: string, b: Bubble, realModel: bool): seq<EventId> {
    if b.role.AssistantBubble? && b.usage.Some? && (b.usage.value.0 > 0 || b.usage.value.1 > 0) then
      [EventId(id, 1, UsageReported)] + (if realModel then [EventId(id, 2, CostEstimated)] else [])
    else []
  }

  function BubbleEvents(id: string, b: Bubble, realModel: bool): seq<EventId> {
    (match b.role
     case UserBubble => [EventId(id, 0, MessageUser)]
     case AssistantBubble => [EventId(id, 0, MessageAssistant)]
     case OtherBubble => [])
    + UsageEvents(id, b, realModel)
    + (match b.tool
       case None => []
       case Some(failed) =>
         [EventId(id, 3, ToolCallStarted), EventId(id, 3, if failed then ToolCallFailed else ToolCallCompleted)])
  }

  /** The bubble a row holds, unless its key or value is malformed. */
  function RowBubble(json: Json, row: BubbleRow): Option<(string, Bubble)> {
    match BubbleIdFromKey(row.key)
    case None => None
    case Some(id) =>
      if id == "" then None
      else match json.bubble(row.value) case None => None case Some(b) => Some((id, b))
  }

  function ParseRows(json: Json, rows: seq<BubbleRow>, realModel: bool): Parsed
    decreases |rows|
  {
    if rows == [] then Parsed([], [], 0)
    else
      var init := ParseRows(json, rows[..|rows| - 1], realModel);
      var row := rows[|rows| - 1];
      match RowBubble(json, row)
      case None => init.(skipped := init.skipped + 1)
      case Some((id, b)) =>
        init.(records := init.records + [Record(id, row.value)],
              events := init.events + BubbleEvents(id, b, realModel))
  }

  function ComposerId(c: Composer, rows: seq<BubbleRow>): string {
    match c.composerId
    case Some(id) => id
    case None =>
      match ComposerIdFromBubbles(rows) case Some(id) => id case None => "unknown-composer"
  }

  /** The composer envelope, one record and its events per bubble, and the session's two ends. */
  function ParseComposer(json: Json, value: string, rows: seq<BubbleRow>): Parsed {
    match json.composer(value)
    case None => Parsed([], [], 1)
    case Some(c) =>
      var envelope := ComposerId(c, rows) + ":composer";
      var body := ParseRows(json, rows, c.realModel);
      Parsed([Record(envelope, value)] + body.records,
             [EventId(envelope, 0, SessionStarted)] + body.events + [EventId(envelope, 0, SessionEnded)],
             body.skipped)
  }

  method ParseComposerLoop(json: Json, value: string, rows: seq<BubbleRow>) returns (p: Parsed)
    ensures p == ParseComposer(json, value, rows)
  {
    var c := json.composer(value);
    if c.None? { return Parsed([], [], 1); }
    var envelope := ComposerId(c.value, rows) + ":composer";
    var records := [Record(envelope, value)];
    var events := [EventId(envelope, 0, SessionStarted)];
    var skipped := 0;
    for i := 0 to |rows|
      invariant Around(envelope, value, ParseRows(json, rows[..i], c.value.realModel)) == Parsed(records, events, skipped)
    {
      AroundSnoc(envelope, value, json, rows, i, c.value.realModel);
      var row := RowBubble(json, rows[i]);
      if row.None? {
        skipped := skipped + 1;
      } else {
        records := records + [Record(row.value.0, rows[i].value)];
        events := events + BubbleEvents(row.value.0, row.value.1, c.value.realModel);
      }
    }
    assert rows[..|rows|] == rows;
    events := events + [EventId(envelope, 0, SessionEnded)];
    p := Parsed(records, events, skipped);
  }

  /** The parse so far: envelope and session start, then what the rows gave. */
  ghost function Around(envelope: string, value: string, body: Parsed): Parsed {
    Parsed([Record(envelope, value)] + body.records, [EventId(envelope, 0, SessionStarted)] + body.events, body.skipped)
  }

  lemma AroundSnoc(envelope: string, value: string, json: Json, rows: seq<BubbleRow>, i: nat, realModel: bool)
    requires i < |rows|
    ensures var a := Around(envelope, value, ParseRows(json, rows[..i], realModel));
      Around(envelope, value, ParseRows(json, rows[..i + 1], realModel))
      == match RowBubble(json, rows[i])
         case None => a.(skipped := a.skipped + 1)
         case Some((id, b)) =>
           Parsed(a.records + [Record(id, rows[i].value)], a.events + BubbleEvents(id, b, realModel), a.skipped)
  {
    RowsSnoc(json, rows, i, realModel);
  }

  lemma RowsSnoc(json: Json, rows: seq<BubbleRow>, i: nat, realModel: bool)
    requires i < |rows|
    ensures var p := ParseRows(json, rows[..i], realModel);
      ParseRows(json, rows[..i + 1], realModel)
      == match RowBubble(json, rows[i])
         case None => p.(skipped := p.skipped + 1)
         case Some((id, b)) =>
           p.(records := p.records + [Record(id, rows[i].value)], events := p.events + BubbleEvents(id, b, realModel))
  {
    assert rows[..i + 1][..i] == rows[..i] && rows[..i + 1][i] == rows[i];
  }

  // ----- identity within one parse -----

  ghost predicate Distinct<T>(xs: seq<T>) {
    forall i, j :: 0 <= i < j < |xs| ==> xs[i] != xs[j]
  }

  /** The bubble ids of the rows that parse are pairwise distinct, and none is the envelope's id. */
  ghost predicate CleanRows(json: Json, rows: seq<BubbleRow>, envelope: string) {
    && (forall i, j :: 0 <= i < j < |rows| && RowBubble(json, rows[i]).Some? && RowBubble(json, rows[j]).Some? ==>
          RowBubble(json, rows[i]).value.0 != RowBubble(json, rows[j]).value.0)
    && (forall i :: 0 <= i < |rows| && RowBubble(json, rows[i]).Some? ==> RowBubble(json, rows[i]).value.0 != envelope)
  }

  ghost predicate HasBubble(json: Json, rows: seq<BubbleRow>, id: string) {
    exists i :: 0 <= i < |rows| && RowBubble(json, rows[i]).Some? && RowBubble(json, rows[i]).value.0 == id
  }

  lemma {:induction false} RowsFrom(json: Json, rows: seq<BubbleRow>, realModel: bool)
    ensures var p := ParseRows(json, rows, realModel);
      && (forall r | r in p.records :: HasBubble(json, rows, r.id))
      && (forall e | e in p.events :: HasBubble(json, rows, e.rawId))
    decreases |rows|
  {
    if rows != [] {
      var n := |rows| - 1;
      RowsFrom(json, rows[..n], realModel);
      BubblesGrow(json, rows, n);
      var p := ParseRows(json, rows[..n], realModel);
      match RowBubble(json, rows[n])
      case None =>
      case Some((id, b)) =>
        assert HasBubble(json, rows, id);
        BubbleEventsDistinct(id, b, realModel);
        assert ParseRows(json, rows, realModel).events == p.events + BubbleEvents(id, b, realModel);
    }
  }

  lemma BubblesGrow(json: Json, rows: seq<BubbleRow>, n: nat)
    requires n <= |rows|
    ensures forall id | HasBubble(json, rows[..n], id) :: HasBubble(json, rows, id)
  {
    forall id | HasBubble(json, rows[..n], id) ensures HasBubble(json, rows, id) {
      var i :| 0 <= i < n && RowBubble(json, rows[..n][i]).Some? && RowBubble(json, rows[..n][i]).value.0 == id;
      assert rows[i] == rows[..n][i];
    }
  }

  lemma BubbleEventsDistinct(id: string, b: Bubble, realModel: bool)
    ensures Distinct(BubbleEvents(id, b, realModel))
    ensures forall e | e in BubbleEvents(id, b, realModel) :: e.rawId == id
  {}

  lemma DistinctAppend<T>(xs: seq<T>, ys: seq<T>)
    requires Distinct(xs) && Distinct(ys) && forall x | x in xs :: x !in ys
    ensures Distinct(xs + ys)
  {
    forall i, j | 0 <= i < j < |xs + ys| ensures (xs + ys)[i] != (xs + ys)[j] {
      if i < |xs| <= j { assert xs[i] in xs && ys[j - |xs|] in ys; }
    }
  }

  /** What one parse of the bubbles keeps apart: events, record ids, and the envelope's id. */
  ghost predicate Apart(p: Parsed, envelope: string) {
    && Distinct(p.events)
    && (forall i, j :: 0 <= i < j < |p.records| ==> p.records[i].id != p.records[j].id)
    && (forall r | r in p.records :: r.id != envelope)
    && (forall e | e in p.events :: e.rawId != envelope)
  }

  lemma {:induction false} RowsDistinct(json: Json, rows: seq<BubbleRow>, realModel: bool, envelope: string)
    requires CleanRows(json, rows, envelope)
    ensures Apart(ParseRows(json, rows, realModel), envelope)
    decreases |rows|
  {
    if rows != [] {
      var n := |rows| - 1;
      assert forall i :: 0 <= i < n ==> rows[..n][i] == rows[i];
      RowsDistinct(json, rows[..n], realModel, envelope);
      RowsFrom(json, rows[..n], realModel);
      match RowBubble(json, rows[n])
      case None =>
      case Some((id, b)) =>
        assert !HasBubble(json, rows[..n], id);
        BubbleApart(ParseRows(json, rows[..n], realModel), Record(id, rows[n].value), b, realModel, envelope);
    }
  }

  lemma BubbleApart(p: Parsed, r: Record, b: Bubble, realModel: bool, envelope: string)
    requires Apart(p, envelope) && r.id != envelope
    requires (forall x | x in p.records :: x.id != r.id) && (forall e | e in p.events :: e.rawId != r.id)
    ensures Apart(p.(records := p.records + [r], events := p.events + BubbleEvents(r.id, b, realModel)), envelope)
  {
    BubbleEventsDistinct(r.id, b, realModel);
    DistinctAppend(p.events, BubbleEvents(r.id, b, realModel));
  }

  /** Record ids, and the fingerprint pre-images of the events, are pairwise distinct within one parse. */
  lemma ComposerDistinct(json: Json, value: string, rows: seq<BubbleRow>, c: Composer)
    requires json.composer(value) == Some(c) && CleanRows(json, rows, ComposerId(c, rows) + ":composer")
    ensures var p := ParseComposer(json, value, rows);
      && (forall i, j :: 0 <= i < j < |p.records| ==> p.records[i].id != p.records[j].id)
      && (forall i, j :: 0 <= i < j < |p.events| ==> PreimageOf(CURSOR, p.events[i]) != PreimageOf(CURSOR, p.events[j]))
  {
    var envelope := ComposerId(c, rows) + ":composer";
    RowsDistinct(json, rows, c.realModel, envelope);
    var body := ParseRows(json, rows, c.realModel);
    DistinctAppend([EventId(envelope, 0, SessionStarted)], body.events);
    DistinctAppend([EventId(envelope, 0, SessionStarted)] + body.events, [EventId(envelope, 0, SessionEnded)]);
    var p := ParseComposer(json, value, rows);
    forall i, j | 0 <= i < j < |p.events| ensures PreimageOf(CURSOR, p.events[i]) != PreimageOf(CURSOR, p.events[j]) {
      var a, b := p.events[i], p.events[j];
      if PreimageOf(CURSOR, a) == PreimageOf(CURSOR, b) {
        PreimageInjective(CURSOR, a.rawId, a.index, a.eventType, CURSOR, b.rawId, b.index, b.eventType);
      }
    }
  }
}
