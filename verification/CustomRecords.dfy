/** Which lines of a text become records, and what the records hold, read off the lines themselves. */
module CustomRecords {
  import opened Wrappers
  import opened Text
  import opened Fingerprint
  import opened CustomConnector

  /** The line is not blank, it reads, and the type it names, or else the declaration's, is `t`. */
  ghost predicate Maps(def: Def, line: string, t: EventType) {
    && Trim(line) != ""
    && def.read(line).Some?
    && var own := def.read(line).value.eventType;
       if own.Some? then own.value == TypeName(t) else def.eventType == Some(TypeName(t))
  }

  ghost predicate Mapped(def: Def, line: string) { exists t :: Maps(def, line, t) }

  function SessionOf(def: Def, line: string): string {
    match def.read(line)
    case None => "unknown-session"
    case Some(f) => match f.sessionId case None => "unknown-session" case Some(id) => id
  }

  /** The record and the event of line `i`: session and number, and the line itself. */
  ghost predicate OfLine(def: Def, line: string, i: nat, r: Record, e: EventRow) {
    && r == Record(SessionOf(def, line) + ":" + Decimal(i), SessionOf(def, line), line)
    && Maps(def, line, e.eventType)
    && e.rawId == r.id && e.preimage == def.id + "|" + r.id + "|0|" + TypeName(e.eventType)
  }

  lemma {:induction false} TypeOfExact(name: string, among: seq<EventType>)
    ensures match TypeOf(name, among)
            case Some(t) => t in among && TypeName(t) == name
            case None => forall t | t in among :: TypeName(t) != name
  {
    if among != [] { TypeOfExact(name, among[1..]); }
  }

  lemma AllTypes(t: EventType)
    ensures t in ALL_TYPES
  {
    var all := ALL_TYPES;
    assert all[0] == SessionStarted && all[1] == SessionEnded && all[2] == MessageUser && all[3] == MessageAssistant;
    assert all[4] == ToolCallStarted && all[5] == ToolCallCompleted && all[6] == ToolCallFailed && all[7] == FileRead;
    assert all[8] == FileModified && all[9] == FileReferenced && all[10] == ContextLoaded && all[11] == UsageReported;
    assert all[12] == CostEstimated;
  }

  lemma TypeFound(name: string, t: EventType)
    ensures TypeOf(name, ALL_TYPES) == Some(t) <==> name == TypeName(t)
  {
    TypeOfExact(name, ALL_TYPES);
    AllTypes(t);
    var found := TypeOf(name, ALL_TYPES);
    if found.Some? { TypeNames(found.value, t); }
  }

  /** A line of its own: one record if it maps to a type, else none, and skipped if it is not blank. */
  ghost predicate OneLine(def: Def, line: string, i: nat, p: Parsed) {
    if Mapped(def, line) then |p.records| == 1 == |p.events| && p.skipped == 0 && OfLine(def, line, i, p.records[0], p.events[0])
    else p.records == [] && p.events == [] && p.skipped == if Trim(line) == "" then 0 else 1
  }

  lemma LineExact(def: Def, line: string, i: nat)
    ensures OneLine(def, line, i, ParseLine(def, line, i))
  {
    if t :| Maps(def, line, t) {
      LineMapped(def, line, i, t);
    } else if Trim(line) != "" && def.read(line).Some? {
      var resolved := ResolveEventType(def.read(line).value.eventType, def);
      if resolved.Some? { Resolves(def, line, resolved.value); }
    }
  }

  lemma LineMapped(def: Def, line: string, i: nat, t: EventType)
    requires Maps(def, line, t)
    ensures OneLine(def, line, i, ParseLine(def, line, i))
  {
    var own := def.read(line).value.eventType;
    TypeFound(if own.Some? then own.value else def.eventType.value, t);
    var rawId := RawId(def.read(line).value.sessionId, i);
    assert ResolveEventType(own, def) == Some(t);
    LinePreimage(def.id, rawId, t);
  }

  lemma LinePreimage(id: string, rawId: string, t: EventType)
    ensures Preimage(id, rawId, 0, t) == id + "|" + rawId + "|0|" + TypeName(t)
  {
    PreimageShape(id, rawId, 0, t);
    assert Decimal(0) == "0";
  }

  lemma Resolves(def: Def, line: string, t: EventType)
    requires Trim(line) != "" && def.read(line).Some? && ResolveEventType(def.read(line).value.eventType, def) == Some(t)
    ensures Maps(def, line, t)
  {
    var own := def.read(line).value.eventType;
    TypeFound(if own.Some? then own.value else def.eventType.value, t);
  }

  ghost function OfLines(def: Def, lines: seq<string>): (Record, EventRow, nat) -> bool {
    (r, e, i: nat) => i < |lines| && OfLine(def, lines[i], i, r, e)
  }

  ghost function MappedIn(def: Def, lines: seq<string>): nat -> bool {
    (i: nat) => i < |lines| && Mapped(def, lines[i])
  }

  /** `at[k]`, from `i` up to `n`, is the line that record and event `k` come from; exactly the lines in `yes` have one. */
  ghost predicate Placed(ok: (Record, EventRow, nat) -> bool, yes: nat -> bool, i: nat, n: nat, p: Parsed, at: seq<nat>) {
    && |at| == |p.records| == |p.events|
    && (forall j, k :: 0 <= j < k < |at| ==> at[j] < at[k])
    && (forall k :: 0 <= k < |at| ==> i <= at[k] < n && ok(p.records[k], p.events[k], at[k]))
    && (forall j: nat :: i <= j < n ==> (j in at <==> yes(j)))
  }

  lemma {:induction false} ParseFrom(def: Def, lines: seq<string>, i: nat) returns (at: seq<nat>)
    requires i <= |lines|
    ensures Placed(OfLines(def, lines), MappedIn(def, lines), i, |lines|, OverLines(LineParser(def), lines[i..], i), at)
    decreases |lines| - i
  {
    if i == |lines| {
      at := [];
    } else {
      var rest := ParseFrom(def, lines, i + 1);
      assert lines[i..][0] == lines[i] && lines[i..][1..] == lines[i + 1..];
      LineExact(def, lines[i], i);
      var p, q := ParseLine(def, lines[i], i), OverLines(LineParser(def), lines[i + 1..], i + 1);
      if Mapped(def, lines[i]) {
        at := PlacedCons(OfLines(def, lines), MappedIn(def, lines), i, |lines|, p, q, rest);
      } else {
        at := PlacedSkip(OfLines(def, lines), MappedIn(def, lines), i, |lines|, p, q, rest);
      }
    }
  }

  lemma PlacedCons(ok: (Record, EventRow, nat) -> bool, yes: nat -> bool, i: nat, n: nat, p: Parsed, q: Parsed, rest: seq<nat>)
    returns (at: seq<nat>)
    requires i < n && Placed(ok, yes, i + 1, n, q, rest)
    requires yes(i) && |p.records| == 1 == |p.events| && ok(p.records[0], p.events[0], i)
    ensures Placed(ok, yes, i, n, Both(p, q), at)
  {
    at := [i] + rest;
    assert Both(p, q).records == [p.records[0]] + q.records && Both(p, q).events == [p.events[0]] + q.events;
    forall j: nat | i <= j < n ensures j in at <==> yes(j) {
      assert j in at <==> j == i || j in rest;
      if j == i { assert at[0] == i; }
    }
  }

  lemma PlacedSkip(ok: (Record, EventRow, nat) -> bool, yes: nat -> bool, i: nat, n: nat, p: Parsed, q: Parsed, rest: seq<nat>)
    returns (at: seq<nat>)
    requires i < n && Placed(ok, yes, i + 1, n, q, rest) && !yes(i) && p.records == [] && p.events == []
    ensures Placed(ok, yes, i, n, Both(p, q), at)
  {
    at := rest;
    assert Both(p, q).records == q.records && Both(p, q).events == q.events;
  }

  /**
   For every text: line `i` has a record exactly when it is not blank, reads, and names a known type or
   leaves that to the declaration; the record holds line `i` itself and its session, the event that type;
   and records and events come in the order of the lines.
   */
  lemma RecordsExactly(def: Def, text: string) returns (at: seq<nat>)
    ensures var (lines, p) := (SplitLines(text), ParseText(def, text));
      && |at| == |p.records| == |p.events|
      && (forall j, k :: 0 <= j < k < |at| ==> at[j] < at[k])
      && (forall k :: 0 <= k < |at| ==> at[k] < |lines| && OfLine(def, lines[at[k]], at[k], p.records[k], p.events[k]))
      && (forall i :: 0 <= i < |lines| ==> (i in at <==> Mapped(def, lines[i])))
  {
    var lines := SplitLines(text);
    assert lines[0..] == lines;
    at := ParseFrom(def, lines, 0);
  }

  // ----- the lines of a text -----

  /** The lines are what newlines separate, each without the one carriage return before its newline. */
  ghost predicate LinesOf(text: string, raw: seq<string>, lines: seq<string>) {
    && raw != [] && |lines| == |raw| && Join(raw, "\n") == text
    && (forall i :: 0 <= i < |raw| ==> '\n' !in raw[i])
    && (forall i :: 0 <= i < |raw| ==> lines[i] == if i < |raw| - 1 then StripCR(raw[i]) else raw[i])
  }

  lemma {:induction false} LinesOfText(text: string)
    ensures LinesOf(text, Split(text, "\n"), SplitLines(text))
    decreases |text|
  {
    var i := IndexOf(text, "\n");
    if i < 0 {
      NoNewline(text);
    } else {
      LinesOfText(text[i + 1..]);
      HeadClear(text, i);
      assert text[i..i + 1] == "\n";
      assert text == text[..i] + "\n" + text[i + 1..];
      LinesOfCons(text[..i], text[i + 1..], Split(text[i + 1..], "\n"), SplitLines(text[i + 1..]));
    }
  }

  lemma LinesOfCons(head: string, rest: string, raw: seq<string>, lines: seq<string>)
    requires '\n' !in head && LinesOf(rest, raw, lines)
    ensures LinesOf(head + "\n" + rest, [head] + raw, [StripCR(head)] + lines)
  {
    var all := [head] + raw;
    assert all[1..] == raw;
    assert forall i :: 1 <= i < |all| ==> all[i] == raw[i - 1] && ([StripCR(head)] + lines)[i] == lines[i - 1];
  }

  lemma NoNewline(text: string)
    requires IndexOf(text, "\n") < 0
    ensures '\n' !in text
  {
    forall k | 0 <= k < |text| ensures text[k] != '\n' {
      assert text[k..k + 1] == [text[k]];
      assert !At(text, k, "\n");
    }
  }

  lemma HeadClear(text: string, i: nat)
    requires IndexOf(text, "\n") == i
    ensures '\n' !in text[..i]
  {
    forall k | 0 <= k < i ensures text[k] != '\n' {
      assert text[k..k + 1] == [text[k]];
      assert !At(text, k, "\n");
    }
  }
}
