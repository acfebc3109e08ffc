/** The line parser of config-only connectors (apps/collector/src/connectors/custom-connector.ts). */
module CustomConnector {
  import opened Wrappers
  import opened Text
  import opened Fingerprint

  /** What a declaration's field sources read from one line; the connector keeps `line` verbatim. */
  datatype Fields = Fields(sessionId: Option<string>, eventType: Option<string>)

  /** `read` is the compiled field reader: None for a line that does not parse or match. */
  datatype Def = Def(id: string, eventType: Option<string>, read: string -> Option<Fields>)

  datatype Record = Record(id: string, sessionId: string, line: string)
  datatype EventRow = EventRow(preimage: string, rawId: string, eventType: EventType)
  datatype Parsed = Parsed(records: seq<Record>, events: seq<EventRow>, skipped: nat)

  /** `text.split(/\r?\n/)`. */
  function SplitLines(text: string): (lines: seq<string>)
    ensures lines != []
    decreases |text|
  {
    var i := IndexOf(text, "\n");
    if i < 0 then [text] else [StripCR(text[..i])] + SplitLines(text[i + 1..])
  }

  function TypeOf(name: string, among: seq<EventType>): Option<EventType> {
    if among == [] then None
    else if TypeName(among[0]) == name then Some(among[0])
    else TypeOf(name, among[1..])
  }

  /** The line's own type wins over the constant, even when it is empty or unknown. */
  function ResolveEventType(raw: Option<string>, def: Def): Option<EventType> {
    var t := if raw.Some? then raw else def.eventType;
    match t
    case None => None
    case Some(name) => TypeOf(name, ALL_TYPES)
  }

  function RawId(sessionId: Option<string>, i: nat): string {
    (if sessionId.Some? then sessionId.value else "unknown-session") + ":" + Decimal(i)
  }

  predicate Blank(line: string) { Trim(line) == "" }

  function ParseLine(def: Def, line: string, i: nat): Parsed {
    if Blank(line) then Parsed([], [], 0)
    else
      match def.read(line)
      case None => Parsed([], [], 1)
      case Some(f) =>
        match ResolveEventType(f.eventType, def)
        case None => Parsed([], [], 1)
        case Some(t) =>
          var rawId := RawId(f.sessionId, i);
          Parsed([Record(rawId, if f.sessionId.Some? then f.sessionId.value else "unknown-session", line)],
                 [EventRow(Preimage(def.id, rawId, 0, t), rawId, t)], 0)
  }

  function Both(p: Parsed, q: Parsed): Parsed {
    Parsed(p.records + q.records, p.events + q.events, p.skipped + q.skipped)
  }

  /** Lines numbered from `i` on, each given to `f`, results put together in order. */
  function OverLines(f: (string, nat) -> Parsed, lines: seq<string>, i: nat): Parsed
    decreases |lines|
  {
    if lines == [] then Parsed([], [], 0)
    else Both(f(lines[0], i), OverLines(f, lines[1..], i + 1))
  }

  function LineParser(def: Def): (string, nat) -> Parsed {
    (line: string, i: nat) => ParseLine(def, line, i)
  }

  function ParseText(def: Def, text: string): Parsed {
    OverLines(LineParser(def), SplitLines(text), 0)
  }

  lemma BothAssoc(p: Parsed, q: Parsed, r: Parsed)
    ensures Both(p, Both(q, r)) == Both(Both(p, q), r)
  {}

  lemma BothNone(p: Parsed)
    ensures Both(p, Parsed([], [], 0)) == p
  {}

  lemma {:induction false} OverAppend(f: (string, nat) -> Parsed, a: seq<string>, b: seq<string>, i: nat)
    ensures OverLines(f, a + b, i) == Both(OverLines(f, a, i), OverLines(f, b, i + |a|))
    decreases |a|
  {
    if a == [] {
      assert a + b == b;
    } else {
      assert (a + b)[0] == a[0] && (a + b)[1..] == a[1..] + b;
      OverAppend(f, a[1..], b, i + 1);
      BothAssoc(f(a[0], i), OverLines(f, a[1..], i + 1), OverLines(f, b, i + |a|));
    }
  }

  lemma OverSnoc(f: (string, nat) -> Parsed, a: seq<string>, line: string, i: nat)
    ensures OverLines(f, a + [line], i) == Both(OverLines(f, a, i), f(line, i + |a|))
  {
    OverAppend(f, a, [line], i);
    assert [line][1..] == [];
    BothNone(f(line, i + |a|));
  }

  /** The `forEach` callback. */
  method ParseOneLine(def: Def, line: string, i: nat) returns (p: Parsed)
    ensures p == ParseLine(def, line, i)
  {
    p := Parsed([], [], 0);
    if !Blank(line) {
      match def.read(line) {
        case None => p := p.(skipped := 1);
        case Some(f) =>
          var t := ResolveEventType(f.eventType, def);
          if t.None? {
            p := p.(skipped := 1);
          } else {
            var sessionId := if f.sessionId.Some? then f.sessionId.value else "unknown-session";
            var rawId := RawId(f.sessionId, i);
            p := Parsed([Record(rawId, sessionId, line)],
                        [EventRow(Preimage(def.id, rawId, 0, t.value), rawId, t.value)], 0);
          }
      }
    }
  }

  /** The `forEach` over the lines, pushing records and events and counting the skipped lines. */
  method Parse(def: Def, text: string) returns (p: Parsed)
    ensures p == ParseText(def, text)
  {
    p := Parsed([], [], 0);
    var lines := SplitLines(text);
    for i := 0 to |lines|
      invariant p == OverLines(LineParser(def), lines[..i], 0)
    {
      assert lines[..i + 1] == lines[..i] + [lines[i]];
      OverSnoc(LineParser(def), lines[..i], lines[i], 0);
      var one := ParseOneLine(def, lines[i], i);
      p := Both(p, one);
    }
    assert lines[..|lines|] == lines;
  }

  // ----- identity -----

  /** Record and event `k` come from one line at or after `i`, and `ok` of that line's number. */
  ghost predicate Numbered(ok: (Record, EventRow, nat) -> bool, rs: seq<Record>, es: seq<EventRow>, at: seq<nat>, i: nat) {
    && |rs| == |es| == |at|
    && (forall k :: 0 <= k < |at| ==> at[k] >= i)
    && (forall j, k :: 0 <= j < k < |at| ==> at[j] < at[k])
    && (forall k :: 0 <= k < |at| ==> ok(rs[k], es[k], at[k]))
  }

  /** The ids a line gives: its session and its number, and the fingerprint of both. */
  function FromLine(def: Def): (Record, EventRow, nat) -> bool {
    (r: Record, e: EventRow, i: nat) =>
      && r.id == r.sessionId + ":" + Decimal(i)
      && e.rawId == r.id
      && e.preimage == Preimage(def.id, r.id, 0, e.eventType)
  }

  lemma NumberedCons(ok: (Record, EventRow, nat) -> bool, r: Record, e: EventRow, i: nat,
                     rs: seq<Record>, es: seq<EventRow>, at: seq<nat>)
    requires ok(r, e, i) && Numbered(ok, rs, es, at, i + 1)
    ensures Numbered(ok, [r] + rs, [e] + es, [i] + at, i)
  {}

  lemma LineShape(def: Def, line: string, i: nat)
    ensures var p := LineParser(def)(line, i);
      || (p.records == [] && p.events == [])
      || (|p.records| == 1 == |p.events| && FromLine(def)(p.records[0], p.events[0], i))
  {}

  lemma {:induction false} ParseNumbered(def: Def, lines: seq<string>, i: nat) returns (at: seq<nat>)
    ensures var p := OverLines(LineParser(def), lines, i); Numbered(FromLine(def), p.records, p.events, at, i)
    decreases |lines|
  {
    if lines == [] {
      at := [];
    } else {
      var rest := ParseNumbered(def, lines[1..], i + 1);
      LineShape(def, lines[0], i);
      at := NumberedStep(FromLine(def), LineParser(def)(lines[0], i), OverLines(LineParser(def), lines[1..], i + 1), rest, i);
    }
  }

  lemma NumberedStep(ok: (Record, EventRow, nat) -> bool, p: Parsed, q: Parsed, rest: seq<nat>, i: nat)
    returns (at: seq<nat>)
    requires (p.records == [] && p.events == []) || (|p.records| == 1 == |p.events| && ok(p.records[0], p.events[0], i))
    requires Numbered(ok, q.records, q.events, rest, i + 1)
    ensures Numbered(ok, Both(p, q).records, Both(p, q).events, at, i)
  {
    if p.records == [] {
      assert Both(p, q).records == q.records && Both(p, q).events == q.events;
      at := rest;
    } else {
      NumberedCons(ok, p.records[0], p.events[0], i, q.records, q.events, rest);
      assert p.records == [p.records[0]] && p.events == [p.events[0]];
      at := [i] + rest;
    }
  }

  /** Ids within one parse are pairwise distinct, and so are the fingerprint pre-images. */
  lemma IdsDistinct(def: Def, text: string)
    ensures var p := ParseText(def, text);
      && |p.records| == |p.events|
      && (forall j, k :: 0 <= j < k < |p.records| ==> p.records[j].id != p.records[k].id)
      && (forall j, k :: 0 <= j < k < |p.events| ==> p.events[j].preimage != p.events[k].preimage)
  {
    var p := ParseText(def, text);
    var at := ParseNumbered(def, SplitLines(text), 0);
    assert forall k :: 0 <= k < |at| ==> FromLine(def)(p.records[k], p.events[k], at[k]);
    forall j, k | 0 <= j < k < |p.records| ensures p.records[j].id != p.records[k].id {
      if p.records[j].id == p.records[k].id {
        RawIdInjective(p.records[j].sessionId, at[j], p.records[k].sessionId, at[k]);
      }
    }
    forall j, k | 0 <= j < k < |p.events| ensures p.events[j].preimage != p.events[k].preimage {
      if p.events[j].preimage == p.events[k].preimage {
        SameConnector(def.id, p.records[j].id, p.events[j].eventType, p.records[k].id, p.events[k].eventType);
      }
    }
  }

  lemma SameConnector(c: string, r1: string, t1: EventType, r2: string, t2: EventType)
    requires Preimage(c, r1, 0, t1) == Preimage(c, r2, 0, t2)
    ensures r1 == r2 && t1 == t2
  {
    PreimageCut(c, r1, 0, t1, c, r2, 0, t2);
    assert r1 == (c + "|" + r1)[|c| + 1..] && r2 == (c + "|" + r2)[|c| + 1..];
  }

  function BlankCount(lines: seq<string>): nat {
    if lines == [] then 0 else (if Blank(lines[0]) then 1 else 0) + BlankCount(lines[1..])
  }

  /** Every line is accounted for: recorded once, skipped once, or blank. */
  lemma {:induction false} LinesAccounted(def: Def, lines: seq<string>, i: nat)
    ensures var p := OverLines(LineParser(def), lines, i);
      |p.records| == |p.events| && |p.records| + p.skipped + BlankCount(lines) == |lines|
    decreases |lines|
  {
    if lines != [] { LinesAccounted(def, lines[1..], i + 1); }
  }

  // ----- stability across ticks -----

  lemma {:induction false} SplitLinesAppend(a: string, b: string)
    requires a == "" || a[|a| - 1] == '\n'
    ensures var la := SplitLines(a);
      la[|la| - 1] == "" && SplitLines(a + b) == la[..|la| - 1] + SplitLines(b)
    decreases |a|
  {
    if a == "" {
      assert a + b == b;
    } else {
      var i := IndexOf(a, "\n");
      assert At(a, |a| - 1, "\n") by { assert a[|a| - 1..|a|] == "\n"; }
      var head, tail := a[..i], a[i + 1..];
      assert a == head + "\n" + tail;
      ClearHead(a, i);
      assert a + b == head + "\n" + (tail + b);
      SplitLinesStep(head, tail);
      SplitLinesStep(head, tail + b);
      SplitLinesAppend(tail, b);
      LastShift(StripCR(head), SplitLines(tail), SplitLines(b));
    }
  }

  lemma SplitLinesStep(head: string, rest: string)
    requires Clear(head, "\n")
    ensures SplitLines(head + "\n" + rest) == [StripCR(head)] + SplitLines(rest)
  {
    IndexOfAfterClear(head, "\n", rest);
    var s := head + "\n" + rest;
    assert s[..|head|] == head && s[|head| + 1..] == rest;
  }

  lemma LastShift(x: string, ys: seq<string>, zs: seq<string>)
    requires ys != []
    ensures var xs := [x] + ys;
      xs[|xs| - 1] == ys[|ys| - 1] && xs[..|xs| - 1] + zs == [x] + (ys[..|ys| - 1] + zs)
  {}

  lemma ClearHead(a: string, i: nat)
    requires i == IndexOf(a, "\n")
    ensures Clear(a[..i], "\n")
  {
    forall k | 0 <= k < i ensures a[k] != '\n' {
      assert a[k..k + 1] == [a[k]];
      assert !At(a, k, "\n");
    }
    ClearOfChar(a[..i], '\n');
  }

  /** Later text only adds: the records and events of a complete-line prefix are a prefix. */
  lemma ParsePrefix(def: Def, text: string, more: string)
    requires text == "" || text[|text| - 1] == '\n'
    ensures var (p, q) := (ParseText(def, text), ParseText(def, text + more));
      p.records <= q.records && p.events <= q.events && p.skipped <= q.skipped
  {
    SplitLinesAppend(text, more);
    var la := SplitLines(text);
    assert la == la[..|la| - 1] + [""];
    var last := la[|la| - 1..];
    assert last == [""] && la == la[..|la| - 1] + last;
    EmptyLine(def, |la| - 1);
    LinesPrefix(LineParser(def), la[..|la| - 1], last, SplitLines(more));
  }

  lemma LinesPrefix(f: (string, nat) -> Parsed, a: seq<string>, last: seq<string>, b: seq<string>)
    requires OverLines(f, last, |a|) == Parsed([], [], 0)
    ensures var (p, q) := (OverLines(f, a + last, 0), OverLines(f, a + b, 0));
      p.records <= q.records && p.events <= q.events && p.skipped <= q.skipped
  {
    NothingMore(f, a, last, 0);
    OverAppend(f, a, b, 0);
    BothPrefix(OverLines(f, a, 0), OverLines(f, b, |a|));
  }

  lemma NothingMore(f: (string, nat) -> Parsed, a: seq<string>, last: seq<string>, i: nat)
    requires OverLines(f, last, i + |a|) == Parsed([], [], 0)
    ensures OverLines(f, a + last, i) == OverLines(f, a, i)
  {
    OverAppend(f, a, last, i);
    BothNone(OverLines(f, a, i));
  }

  lemma EmptyLine(def: Def, i: nat)
    ensures OverLines(LineParser(def), [""], i) == Parsed([], [], 0)
  {
    assert [""][1..] == [];
    assert ParseLine(def, "", i) == Parsed([], [], 0) by { assert TrimStart("") == "" && TrimEnd("") == ""; }
    BothNone(Parsed([], [], 0));
  }

  lemma BothPrefix(p: Parsed, q: Parsed)
    ensures p.records <= Both(p, q).records && p.events <= Both(p, q).events && p.skipped <= Both(p, q).skipped
  {}
}
