/** Tail capture: the commit order of apps/collector/src/watcher/file-watcher.ts over the durable queue. */
module Watching {
  import opened Wrappers
  import opened Text
  import opened Utf8
  import opened Fingerprint
  import opened Tailer
  import opened CustomConnector
  import opened CustomRecords
  import opened QueueTable
  import opened Delivery
  import opened Capturing

  /** `record` and `event` render to the wire, with the time of the parse. */
  datatype Source = Source(def: Def, record: (Record, nat) -> string, event: (EventRow, nat) -> string)

  function ItemsOf(sha: string -> string, src: Source, p: Parsed, at: nat): seq<Item> {
    seq(|p.records|, i requires 0 <= i < |p.records| =>
      (Key(Raw, src.def.id + ":" + p.records[i].id), src.record(p.records[i], at)))
    + seq(|p.events|, i requires 0 <= i < |p.events| =>
      (Key(Event, sha(p.events[i].preimage)), src.event(p.events[i], at)))
  }

  /** One watched append-only file, its saved cursor (0 when none), and the queue it feeds. */
  datatype Watch = Watch(file: seq<Byte>, cursor: nat, sys: Sys)

  /** A tick may throw: `upTo` is how many items were enqueued before it did. */
  datatype WatchStep =
    | Append(bytes: seq<Byte>)
    | Tick(at: nat, upTo: Option<nat>)
    | Queue(step: Step)

  /** `captureFile`: enqueue everything, and only then save the cursor. */
  function TickOnce(sha: string -> string, src: Source, w: Watch, at: nat, upTo: Option<nat>): Watch {
    var r := Grown(w.file, w.cursor);
    if w.sys.crashed || !r.grew then w
    else
      var items := ItemsOf(sha, src, ParseText(src.def, r.text), at);
      match upTo
      case Some(n) => w.(sys := Enqueued(sha, w.sys, items[..if n < |items| then n else |items|]))
      case None => w.(sys := Enqueued(sha, w.sys, items), cursor := r.newOffset)
  }

  function NextWatch(sha: string -> string, src: Source, w: Watch, step: WatchStep): Watch {
    match step
    case Append(bytes) => w.(file := w.file + bytes)
    case Tick(at, upTo) => TickOnce(sha, src, w, at, upTo)
    case Queue(st) => w.(sys := Next(sha, w.sys, st))
  }

  function RunWatch(sha: string -> string, src: Source, w: Watch, steps: seq<WatchStep>): Watch
    decreases |steps|
  {
    if steps == [] then w else RunWatch(sha, src, NextWatch(sha, src, w, steps[0]), steps[1..])
  }

  const Fresh := Watch([], 0, Init)

  /** The key of every record and event of the text before the cursor is known to the queue. */
  ghost predicate Covered(sha: string -> string, src: Source, file: seq<Byte>, cursor: nat, s: Sys)
    requires cursor <= |file|
  {
    var p := ParseText(src.def, Decode(file[..cursor]));
    && (forall i :: 0 <= i < |p.records| ==> Known(s, Key(Raw, src.def.id + ":" + p.records[i].id)))
    && (forall i :: 0 <= i < |p.events| ==> Known(s, Key(Event, sha(p.events[i].preimage))))
  }

  ghost predicate WatchInv(sha: string -> string, src: Source, w: Watch) {
    Inv(w.sys) && LineEnd(w.file, w.cursor) && Covered(sha, src, w.file, w.cursor, w.sys)
  }

  lemma CoveredStays(sha: string -> string, src: Source, file: seq<Byte>, cursor: nat, a: Sys, b: Sys)
    requires cursor <= |file| && Covered(sha, src, file, cursor, a) && a.latest.Keys <= b.latest.Keys
    ensures Covered(sha, src, file, cursor, b)
  {}

  lemma TickKeeps(sha: string -> string, src: Source, w: Watch, at: nat, upTo: Option<nat>)
    requires WatchInv(sha, src, w)
    ensures WatchInv(sha, src, TickOnce(sha, src, w, at, upTo))
    ensures upTo.None? && !w.sys.crashed ==> TickOnce(sha, src, w, at, upTo).cursor == Complete(w.file)
  {
    GrownExact(w.file, w.cursor);
    var r := Grown(w.file, w.cursor);
    if !w.sys.crashed && r.grew {
      var p := ParseText(src.def, r.text);
      var items := ItemsOf(sha, src, p, at);
      var w' := TickOnce(sha, src, w, at, upTo);
      match upTo
      case Some(n) =>
        EnqueuedKnown(sha, w.sys, items[..if n < |items| then n else |items|]);
        CoveredStays(sha, src, w.file, w.cursor, w.sys, w'.sys);
      case None =>
        EnqueuedKnown(sha, w.sys, items);
        ItemsKnown(sha, src, p, at, w'.sys);
    }
  }

  lemma ItemsKnown(sha: string -> string, src: Source, p: Parsed, at: nat, s: Sys)
    requires forall i :: 0 <= i < |ItemsOf(sha, src, p, at)| ==> Known(s, ItemsOf(sha, src, p, at)[i].0)
    ensures forall i :: 0 <= i < |p.records| ==> Known(s, Key(Raw, src.def.id + ":" + p.records[i].id))
    ensures forall i :: 0 <= i < |p.events| ==> Known(s, Key(Event, sha(p.events[i].preimage)))
  {
    var items := ItemsOf(sha, src, p, at);
    forall i | 0 <= i < |p.records| ensures Known(s, Key(Raw, src.def.id + ":" + p.records[i].id)) {
      assert items[i].0 == Key(Raw, src.def.id + ":" + p.records[i].id);
    }
    forall i | 0 <= i < |p.events| ensures Known(s, Key(Event, sha(p.events[i].preimage))) {
      assert items[|p.records| + i].0 == Key(Event, sha(p.events[i].preimage));
    }
  }

  lemma NextKeeps(sha: string -> string, src: Source, w: Watch, step: WatchStep)
    requires WatchInv(sha, src, w)
    ensures WatchInv(sha, src, NextWatch(sha, src, w, step))
  {
    match step
    case Append(bytes) => assert (w.file + bytes)[..w.cursor] == w.file[..w.cursor];
    case Tick(at, upTo) => TickKeeps(sha, src, w, at, upTo);
    case Queue(st) =>
      StepKeeps(sha, w.sys, st);
      LatestGrows(sha, w.sys, st);
      CoveredStays(sha, src, w.file, w.cursor, w.sys, Next(sha, w.sys, st));
  }

  lemma {:induction false} RunWatchKeeps(sha: string -> string, src: Source, w: Watch, steps: seq<WatchStep>)
    requires WatchInv(sha, src, w)
    ensures WatchInv(sha, src, RunWatch(sha, src, w, steps))
    decreases |steps|
  {
    if steps != [] {
      NextKeeps(sha, src, w, steps[0]);
      RunWatchKeeps(sha, src, NextWatch(sha, src, w, steps[0]), steps[1..]);
    }
  }

  lemma NothingParsed(def: Def)
    ensures ParseText(def, Decode([])) == Parsed([], [], 0)
  {
    assert Decode([]) == "" && SplitLines("") == [""];
    EmptyLine(def, 0);
  }

  /**
   Tail capture composes. In every run of appends, ticks that may throw at any item, and queue steps
   with crashes: the cursor is a line end, and the key of every record and event of the text before
   it has a row in the queue or a payload the archive accepted.
   */
  lemma TailComposes(sha: string -> string, src: Source, steps: seq<WatchStep>)
    ensures var w := RunWatch(sha, src, Fresh, steps);
      && LineEnd(w.file, w.cursor)
      && var p := ParseText(src.def, Decode(w.file[..w.cursor]));
         && (forall i :: 0 <= i < |p.records| ==>
               RowOf(w.sys.table.rows, Key(Raw, src.def.id + ":" + p.records[i].id)).Some?
               || Key(Raw, src.def.id + ":" + p.records[i].id) in w.sys.accepted)
         && (forall i :: 0 <= i < |p.events| ==>
               RowOf(w.sys.table.rows, Key(Event, sha(p.events[i].preimage))).Some?
               || Key(Event, sha(p.events[i].preimage)) in w.sys.accepted)
  {
    NothingParsed(src.def);
    RunWatchKeeps(sha, src, Fresh, steps);
    var w := RunWatch(sha, src, Fresh, steps);
    forall k | Known(w.sys, k) ensures RowOf(w.sys.table.rows, k).Some? || k in w.sys.accepted {
      KnownIsSafe(w.sys, k);
    }
  }

  /** A tick that does not throw leaves the cursor at the end of the last complete line. */
  lemma TickCatchesUp(sha: string -> string, src: Source, steps: seq<WatchStep>, at: nat)
    requires !RunWatch(sha, src, Fresh, steps).sys.crashed
    ensures var w := RunWatch(sha, src, Fresh, steps);
      TickOnce(sha, src, w, at, None).cursor == Complete(w.file)
  {
    TailComposes(sha, src, steps);
    GrownExact(RunWatch(sha, src, Fresh, steps).file, RunWatch(sha, src, Fresh, steps).cursor);
  }

  /** Two emissions of one growing file: the earlier records and events are a prefix of the later. */
  lemma EmissionsGrow(def: Def, file: seq<Byte>, more: seq<Byte>)
    ensures var p := ParseText(def, Decode(file[..Complete(file)]));
            var q := ParseText(def, Decode((file + more)[..Complete(file + more)]));
      p.records <= q.records && p.events <= q.events
  {
    var n, m := Complete(file), Complete(file + more);
    var f := file + more;
    assert n <= m by {
      if n > 0 { assert f[n - 1] == NL; }
    }
    assert f[..m] == file[..n] + f[n..m];
    DecodeAtNewline(file[..n], f[n..m]);
    ParsePrefix(def, Decode(file[..n]), Decode(f[n..m]));
    assert Decode([]) == "";
  }

  // ----- what a tick stores -----

  lemma RecordItems(sha: string -> string, src: Source, text: string, at: nat)
    ensures var p := ParseText(src.def, text);
      var items := ItemsOf(sha, src, p, at);
      && |items| == |p.records| + |p.events|
      && (forall i :: 0 <= i < |p.records| ==> items[i] == (Key(Raw, src.def.id + ":" + p.records[i].id), src.record(p.records[i], at)))
      && (forall i :: 0 <= i < |p.events| ==> items[|p.records| + i] == (Key(Event, sha(p.events[i].preimage)), src.event(p.events[i], at)))
      && (Injective(sha) ==> DistinctKeys(items))
  {
    var p := ParseText(src.def, text);
    var items := ItemsOf(sha, src, p, at);
    IdsDistinct(src.def, text);
    if Injective(sha) {
      forall i, j | 0 <= i < j < |items| ensures items[i].0 != items[j].0 {
        if j < |p.records| {
          RawKeys(src.def.id, p.records[i].id, p.records[j].id);
        } else if i >= |p.records| {
          assert p.events[i - |p.records|].preimage != p.events[j - |p.records|].preimage;
        }
      }
    }
  }

  lemma RawKeys(id: string, a: string, b: string)
    requires a != b
    ensures id + ":" + a != id + ":" + b
  {
    assert (id + ":" + a)[|id| + 1..] == a && (id + ":" + b)[|id| + 1..] == b;
  }

  /** The key of the record of line `i`. */
  function LineKey(def: Def, line: string, i: nat): Key {
    Key(Raw, def.id + ":" + (SessionOf(def, line) + ":" + Decimal(i)))
  }

  /**
   The newest content under the key of line `i` of the text is the record of that very line, and
   under the key of its one event, that event.
   */
  ghost predicate LineStored(sha: string -> string, src: Source, text: string, s: Sys, at: nat, i: nat)
    requires i < |SplitLines(text)|
  {
    var line := SplitLines(text)[i];
    var k := LineKey(src.def, line, i);
    && k in s.latest
    && s.latest[k] == src.record(Record(SessionOf(src.def, line) + ":" + Decimal(i), SessionOf(src.def, line), line), at)
    && exists t :: Maps(src.def, line, t) && EventStored(sha, src, s, at, SessionOf(src.def, line) + ":" + Decimal(i), t)
  }

  ghost predicate EventStored(sha: string -> string, src: Source, s: Sys, at: nat, rawId: string, t: EventType) {
    var preimage := src.def.id + "|" + rawId + "|0|" + TypeName(t);
    var k := Key(Event, sha(preimage));
    k in s.latest && s.latest[k] == src.event(EventRow(preimage, rawId, t), at)
  }

  /** The parse of a text has a record and an event of each line that maps. */
  lemma LineParsed(def: Def, text: string, i: nat) returns (k: nat, rawId: string, t: EventType)
    requires i < |SplitLines(text)| && Mapped(def, SplitLines(text)[i])
    ensures Maps(def, SplitLines(text)[i], t) && rawId == SessionOf(def, SplitLines(text)[i]) + ":" + Decimal(i)
    ensures var p := ParseText(def, text);
      && k < |p.records| == |p.events|
      && p.records[k] == Record(rawId, SessionOf(def, SplitLines(text)[i]), SplitLines(text)[i])
      && p.events[k] == EventRow(def.id + "|" + rawId + "|0|" + TypeName(t), rawId, t)
  {
    var from := RecordsExactly(def, text);
    k :| 0 <= k < |from| && from[k] == i;
    var e := ParseText(def, text).events[k];
    rawId, t := e.rawId, e.eventType;
  }

  /** What enqueuing the items of a text stores for line `i`. */
  lemma ItemsStore(sha: string -> string, src: Source, s: Sys, text: string, at: nat, i: nat)
    requires Injective(sha) && !s.crashed && i < |SplitLines(text)| && Mapped(src.def, SplitLines(text)[i])
    ensures LineStored(sha, src, text, Enqueued(sha, s, ItemsOf(sha, src, ParseText(src.def, text), at)), at, i)
  {
    var p := ParseText(src.def, text);
    var items := ItemsOf(sha, src, p, at);
    var k, rawId, t := LineParsed(src.def, text, i);
    RecordItems(sha, src, text, at);
    EnqueuedLatest(sha, s, items, items[k].0);
    EnqueuedLatest(sha, s, items, items[|p.records| + k].0);
    assert EventStored(sha, src, Enqueued(sha, s, items), at, rawId, t);
  }

  /**
   In every run, a tick that finds the file grown and does not throw stores the lines themselves: each
   line that is not blank, reads and names a known type, under its own key, with its own text.
   */
  lemma TailStores(sha: string -> string, src: Source, steps: seq<WatchStep>, at: nat, i: nat)
    requires Injective(sha)
    requires var w := RunWatch(sha, src, Fresh, steps);
      && !w.sys.crashed && Complete(w.file) > w.cursor
      && var lines := SplitLines(Decode(w.file[..Complete(w.file)])); i < |lines| && Mapped(src.def, lines[i])
    ensures var w := RunWatch(sha, src, Fresh, steps);
      LineStored(sha, src, Decode(w.file[..Complete(w.file)]), TickOnce(sha, src, w, at, None).sys, at, i)
  {
    NothingParsed(src.def);
    RunWatchKeeps(sha, src, Fresh, steps);
    var w := RunWatch(sha, src, Fresh, steps);
    GrownExact(w.file, w.cursor);
    ItemsStore(sha, src, w.sys, Decode(w.file[..Complete(w.file)]), at, i);
  }
}
