/** What one Cursor parse records and which events it gives, told from the rows themselves. */
module CursorFacts {
  import opened Wrappers
  import opened Text
  import opened Fingerprint
  import opened CursorParser

  // ----- keys -----

  /** The key is `kind:composer:id`, where only the id may hold further colons. */
  ghost predicate KeyOf(key: string, composer: string, id: string) {
    exists kind :: ':' !in kind && ':' !in composer && key == kind + ":" + composer + ":" + id
  }

  lemma SplitTwo(kind: string, composer: string, id: string)
    requires ':' !in kind && ':' !in composer
    ensures Split(kind + ":" + composer + ":" + id, ":") == [kind, composer] + Split(id, ":")
    ensures Join(Split(id, ":"), ":") == id
  {
    ClearOfChar(kind, ':');
    ClearOfChar(composer, ':');
    SplitStep(composer, ":", id);
    SplitStep(kind, ":", composer + ":" + id);
    assert kind + ":" + composer + ":" + id == kind + ":" + (composer + ":" + id);
    JoinSplit(id);
  }

  lemma {:induction false} JoinSplit(s: string)
    ensures Join(Split(s, ":"), ":") == s
    decreases |s|
  {
    var i := IndexOf(s, ":");
    if i >= 0 {
      JoinSplit(s[i + 1..]);
      assert s[i..i + 1] == ":";
      assert s == s[..i] + ":" + s[i + 1..];
      var rest := Split(s[i + 1..], ":");
      assert ([s[..i]] + rest)[1..] == rest;
    }
  }

  /** A part before the first colon holds none. */
  predicate NoColons(parts: seq<string>) { forall i :: 0 <= i < |parts| ==> ':' !in parts[i] }

  lemma {:induction false} PartsClear(s: string)
    ensures NoColons(Split(s, ":"))
    decreases |s|
  {
    var i := IndexOf(s, ":");
    NoneBefore(s, if i >= 0 then i else |s|);
    if i >= 0 {
      PartsClear(s[i + 1..]);
      var rest := Split(s[i + 1..], ":");
      assert NoColons([s[..i]] + rest);
    } else {
      assert s[..|s|] == s;
    }
  }

  lemma NoneBefore(s: string, n: nat)
    requires n <= |s| && (IndexOf(s, ":") < 0 || IndexOf(s, ":") == n)
    ensures ':' !in s[..n]
  {
    forall k | 0 <= k < n ensures s[k] != ':' {
      assert s[k..k + 1] == [s[k]];
      assert !At(s, k, ":");
    }
  }

  /** The bubble id is what follows the second colon. */
  lemma KeyExactly(key: string, id: string)
    ensures BubbleIdFromKey(key) == Some(id) <==> exists composer :: KeyOf(key, composer, id)
  {
    if composer :| KeyOf(key, composer, id) {
      var kind :| ':' !in kind && ':' !in composer && key == kind + ":" + composer + ":" + id;
      SplitTwo(kind, composer, id);
      assert Split(key, ":")[2..] == Split(id, ":");
    }
    if BubbleIdFromKey(key) == Some(id) { KeyFound(key, id); }
  }

  lemma KeyFound(key: string, id: string)
    requires BubbleIdFromKey(key) == Some(id)
    ensures exists composer :: KeyOf(key, composer, id)
  {
    var parts := Split(key, ":");
    JoinSplit(key);
    PartsClear(key);
    JoinTwo(parts);
    assert KeyOf(key, parts[1], id);
  }

  lemma JoinTwo(parts: seq<string>)
    requires |parts| >= 3
    ensures Join(parts, ":") == parts[0] + ":" + parts[1] + ":" + Join(parts[2..], ":")
  {
    assert parts[1..][1..] == parts[2..];
    assert Join(parts, ":") == parts[0] + ":" + (parts[1] + ":" + Join(parts[2..], ":"));
  }

  // ----- the events of one bubble -----

  /** Who spoke; usage and cost, of an assistant's bubble with tokens; a tool call's start and its one outcome. */
  ghost predicate Given(id: string, b: Bubble, realModel: bool, e: EventId) {
    var counted := b.role == AssistantBubble && b.usage.Some? && (b.usage.value.0 > 0 || b.usage.value.1 > 0);
    e.rawId == id &&
    match e.eventType
    case MessageUser => e.index == 0 && b.role == UserBubble
    case MessageAssistant => e.index == 0 && b.role == AssistantBubble
    case UsageReported => e.index == 1 && counted
    case CostEstimated => e.index == 2 && counted && realModel
    case ToolCallStarted => e.index == 3 && b.tool.Some?
    case ToolCallFailed => e.index == 3 && b.tool == Some(true)
    case ToolCallCompleted => e.index == 3 && b.tool == Some(false)
    case _ => false
  }

  /** Exactly those, each once, in the order of their indices; only a call's start shares its index, with its outcome after it. */
  ghost predicate EventsOf(id: string, b: Bubble, realModel: bool, es: seq<EventId>) {
    && (forall e :: e in es <==> Given(id, b, realModel, e))
    && (forall i, j :: 0 <= i < j < |es| ==>
          es[i] != es[j] && (es[i].index < es[j].index || (es[i].index == es[j].index && es[i].eventType == ToolCallStarted)))
  }

  /** The list holds what is given in these indices, each once and in order. */
  ghost predicate Lists(id: string, b: Bubble, realModel: bool, from: nat, upto: nat, es: seq<EventId>) {
    && (forall e :: e in es <==> Given(id, b, realModel, e) && from <= e.index < upto)
    && (forall i, j :: 0 <= i < j < |es| ==>
          es[i] != es[j] && (es[i].index < es[j].index || (es[i].index == es[j].index && es[i].eventType == ToolCallStarted)))
  }

  lemma VoiceExactly(id: string, b: Bubble, realModel: bool)
    ensures Lists(id, b, realModel, 0, 1, match b.role
                                          case UserBubble => [EventId(id, 0, MessageUser)]
                                          case AssistantBubble => [EventId(id, 0, MessageAssistant)]
                                          case OtherBubble => [])
  {}

  lemma UsageExactly(id: string, b: Bubble, realModel: bool)
    ensures Lists(id, b, realModel, 1, 3, UsageEvents(id, b, realModel))
  {
    var usage, cost := EventId(id, 1, UsageReported), EventId(id, 2, CostEstimated);
    assert forall e :: e in [usage] + [cost] <==> e == usage || e == cost;
    assert [usage] + [] == [usage];
  }

  lemma ToolExactly(id: string, b: Bubble, realModel: bool)
    ensures Lists(id, b, realModel, 3, 4,
                  match b.tool
                  case None => []
                  case Some(failed) =>
                    [EventId(id, 3, ToolCallStarted), EventId(id, 3, if failed then ToolCallFailed else ToolCallCompleted)])
  {}

  lemma ListsJoin(id: string, b: Bubble, realModel: bool, from: nat, mid: nat, upto: nat, es: seq<EventId>, fs: seq<EventId>)
    requires from <= mid <= upto && Lists(id, b, realModel, from, mid, es) && Lists(id, b, realModel, mid, upto, fs)
    ensures Lists(id, b, realModel, from, upto, es + fs)
  {
    var all := es + fs;
    forall i, j | 0 <= i < j < |all|
      ensures all[i] != all[j] && (all[i].index < all[j].index || (all[i].index == all[j].index && all[i].eventType == ToolCallStarted))
    {
      if i < |es| <= j { assert es[i] in es && fs[j - |es|] in fs; }
    }
  }

  lemma BubbleExactly(id: string, b: Bubble, realModel: bool)
    ensures EventsOf(id, b, realModel, BubbleEvents(id, b, realModel))
  {
    VoiceExactly(id, b, realModel);
    UsageExactly(id, b, realModel);
    ToolExactly(id, b, realModel);
    var voice := match b.role
                 case UserBubble => [EventId(id, 0, MessageUser)]
                 case AssistantBubble => [EventId(id, 0, MessageAssistant)]
                 case OtherBubble => [];
    ListsJoin(id, b, realModel, 0, 1, 3, voice, UsageEvents(id, b, realModel));
    ToolJoined(id, b, realModel, voice + UsageEvents(id, b, realModel));
  }

  lemma ToolJoined(id: string, b: Bubble, realModel: bool, es: seq<EventId>)
    requires Lists(id, b, realModel, 0, 3, es)
    ensures EventsOf(id, b, realModel, es + match b.tool
                                            case None => []
                                            case Some(failed) =>
                                              [EventId(id, 3, ToolCallStarted),
                                               EventId(id, 3, if failed then ToolCallFailed else ToolCallCompleted)])
  {
    var tool := match b.tool
                case None => []
                case Some(failed) =>
                  [EventId(id, 3, ToolCallStarted), EventId(id, 3, if failed then ToolCallFailed else ToolCallCompleted)];
    ToolExactly(id, b, realModel);
    ListsJoin(id, b, realModel, 0, 3, 4, es, tool);
  }

  // ----- one composer -----

  /** The row holds bubble `b` under `id`. */
  ghost predicate Holds(json: Json, row: BubbleRow, id: string, b: Bubble) {
    id != "" && (exists composer :: KeyOf(row.key, composer, id)) && json.bubble(row.value) == Some(b)
  }

  lemma RowExactly(json: Json, row: BubbleRow, id: string, b: Bubble)
    ensures RowBubble(json, row) == Some((id, b)) <==> Holds(json, row, id, b)
  {
    KeyExactly(row.key, id);
  }

  ghost predicate Readable(json: Json, row: BubbleRow) { exists id, b :: Holds(json, row, id, b) }

  lemma RowReadable(json: Json, row: BubbleRow)
    ensures RowBubble(json, row).Some? <==> Readable(json, row)
  {
    forall id, b ensures RowBubble(json, row) == Some((id, b)) <==> Holds(json, row, id, b) { RowExactly(json, row, id, b); }
    if RowBubble(json, row).Some? {
      assert Holds(json, row, RowBubble(json, row).value.0, RowBubble(json, row).value.1);
    }
  }

  function Flat(groups: seq<seq<EventId>>): seq<EventId> {
    if groups == [] then [] else Flat(groups[..|groups| - 1]) + groups[|groups| - 1]
  }

  /** What row `row` gives: its record, with the very text of the row, and its events. */
  ghost predicate Gives(json: Json, row: BubbleRow, realModel: bool, r: Record, es: seq<EventId>) {
    exists id, b :: Holds(json, row, id, b) && r == Record(id, row.value) && EventsOf(id, b, realModel, es)
  }

  /** `at` are the readable rows in order; each gives one record and one group of events; the others are skipped. */
  ghost predicate FromRows(json: Json, rows: seq<BubbleRow>, realModel: bool, p: Parsed, at: seq<nat>, groups: seq<seq<EventId>>) {
    && |at| == |p.records| == |groups| && p.events == Flat(groups) && p.skipped + |at| == |rows|
    && (forall j, k :: 0 <= j < k < |at| ==> at[j] < at[k])
    && (forall k :: 0 <= k < |at| ==> at[k] < |rows| && Gives(json, rows[at[k]], realModel, p.records[k], groups[k]))
    && (forall i :: 0 <= i < |rows| ==> (i in at <==> Readable(json, rows[i])))
  }

  lemma {:induction false} RowsExactly(json: Json, rows: seq<BubbleRow>, realModel: bool)
    returns (at: seq<nat>, groups: seq<seq<EventId>>)
    ensures FromRows(json, rows, realModel, ParseRows(json, rows, realModel), at, groups)
    decreases |rows|
  {
    if rows == [] {
      at, groups := [], [];
    } else {
      var n := |rows| - 1;
      var at', groups' := RowsExactly(json, rows[..n], realModel);
      RowReadable(json, rows[n]);
      var p := ParseRows(json, rows[..n], realModel);
      match RowBubble(json, rows[n])
      case None =>
        at, groups := at', groups';
        RowSkipped(json, rows, realModel, p, at, groups);
      case Some((id, b)) =>
        RowExactly(json, rows[n], id, b);
        BubbleExactly(id, b, realModel);
        at, groups := at' + [n], groups' + [BubbleEvents(id, b, realModel)];
        RowTaken(json, rows, realModel, p, at', groups', Record(id, rows[n].value), BubbleEvents(id, b, realModel));
    }
  }

  lemma RowSkipped(json: Json, rows: seq<BubbleRow>, realModel: bool, p: Parsed, at: seq<nat>, groups: seq<seq<EventId>>)
    requires rows != [] && FromRows(json, rows[..|rows| - 1], realModel, p, at, groups) && !Readable(json, rows[|rows| - 1])
    ensures FromRows(json, rows, realModel, p.(skipped := p.skipped + 1), at, groups)
  {
    assert forall i :: 0 <= i < |rows| - 1 ==> rows[..|rows| - 1][i] == rows[i];
  }

  lemma RowTaken(json: Json, rows: seq<BubbleRow>, realModel: bool, p: Parsed, at: seq<nat>, groups: seq<seq<EventId>>,
                 r: Record, es: seq<EventId>)
    requires rows != [] && FromRows(json, rows[..|rows| - 1], realModel, p, at, groups)
    requires Readable(json, rows[|rows| - 1]) && Gives(json, rows[|rows| - 1], realModel, r, es)
    ensures FromRows(json, rows, realModel, p.(records := p.records + [r], events := p.events + es), at + [|rows| - 1], groups + [es])
  {
    var n := |rows| - 1;
    var at' := at + [n];
    assert forall i :: 0 <= i < n ==> rows[..n][i] == rows[i];
    assert (groups + [es])[..|groups|] == groups;
    assert forall i :: i in at' <==> i in at || i == n;
  }

  /** The composer's own id, else the first one a row's key names, else a fixed one. */
  ghost predicate Names(c: Composer, rows: seq<BubbleRow>, id: string) {
    if c.composerId.Some? then id == c.composerId.value
    else if exists i :: 0 <= i < |rows| && NamesComposer(rows[i]) then
      exists i :: 0 <= i < |rows| && NamesComposer(rows[i]) && id == Split(rows[i].key, ":")[1]
                  && forall j :: 0 <= j < i ==> !NamesComposer(rows[j])
    else id == "unknown-composer"
  }

  predicate NamesComposer(row: BubbleRow) { var parts := Split(row.key, ":"); |parts| >= 2 && parts[1] != "" }

  lemma {:induction false} FirstNamed(rows: seq<BubbleRow>)
    ensures match ComposerIdFromBubbles(rows)
            case None => forall i :: 0 <= i < |rows| ==> !NamesComposer(rows[i])
            case Some(id) => exists i :: 0 <= i < |rows| && NamesComposer(rows[i]) && id == Split(rows[i].key, ":")[1]
                                         && forall j :: 0 <= j < i ==> !NamesComposer(rows[j])
  {
    if rows != [] && !NamesComposer(rows[0]) {
      FirstNamed(rows[1..]);
      assert forall i :: 1 <= i < |rows| ==> rows[i] == rows[1..][i - 1];
      if ComposerIdFromBubbles(rows[1..]).Some? {
        var id := ComposerIdFromBubbles(rows[1..]).value;
        var i :| 0 <= i < |rows[1..]| && NamesComposer(rows[1..][i]) && id == Split(rows[1..][i].key, ":")[1]
                 && forall j :: 0 <= j < i ==> !NamesComposer(rows[1..][j]);
        assert NamesComposer(rows[i + 1]) && forall j :: 0 <= j < i + 1 ==> !NamesComposer(rows[j]);
      }
    }
  }

  /** A composer that does not parse gives nothing and counts as one skipped line. */
  lemma UnreadableComposer(json: Json, value: string, rows: seq<BubbleRow>)
    ensures ParseComposer(json, value, rows) == Parsed([], [], 1) <==> json.composer(value).None?
  {}

  /**
   One composer: the envelope record holds the composer's own text, then come the records of the readable
   rows, in order, each with its row's own text; the session's start and end enclose the rows' events.
   */
  lemma ComposerExactly(json: Json, value: string, rows: seq<BubbleRow>, c: Composer)
    returns (id: string, body: Parsed, at: seq<nat>, groups: seq<seq<EventId>>)
    requires json.composer(value) == Some(c)
    ensures Names(c, rows, id) && FromRows(json, rows, c.realModel, body, at, groups)
    ensures ParseComposer(json, value, rows)
         == Parsed([Record(id + ":composer", value)] + body.records,
                   [EventId(id + ":composer", 0, SessionStarted)] + body.events + [EventId(id + ":composer", 0, SessionEnded)],
                   body.skipped)
  {
    FirstNamed(rows);
    id, body := ComposerId(c, rows), ParseRows(json, rows, c.realModel);
    at, groups := RowsExactly(json, rows, c.realModel);
  }
}
