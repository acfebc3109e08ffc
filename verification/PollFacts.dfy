/** What a committed sweep stores: the texts and events of the composer it swept. */
module PollFacts {
  import opened Wrappers
  import opened Text
  import opened Fingerprint
  import opened CursorParser
  import opened CursorFacts
  import opened QueueTable
  import opened Delivery
  import opened Capturing
  import opened Polling

  /** The items of one parse have keys of their own. */
  lemma ItemsDistinct(sha: string -> string, src: Source, w: Work, c: Composer)
    requires Injective(sha) && src.json.composer(w.content) == Some(c)
    requires CleanRows(src.json, w.bubbles, ComposerId(c, w.bubbles) + ":composer")
    ensures DistinctKeys(ItemsOf(sha, src, w))
  {
    var p, items := ParseComposer(src.json, w.content, w.bubbles), ItemsOf(sha, src, w);
    ComposerDistinct(src.json, w.content, w.bubbles, c);
    forall i, j | 0 <= i < j < |items| ensures items[i].0 != items[j].0 {
      if j < |p.records| {
        SamePrefix(CURSOR + ":", p.records[i].id, p.records[j].id);
      } else if i >= |p.records| {
        assert PreimageOf(CURSOR, p.events[i - |p.records|]) != PreimageOf(CURSOR, p.events[j - |p.records|]);
      }
    }
  }

  lemma SamePrefix(p: string, a: string, b: string)
    requires a != b
    ensures p + a != p + b
  {
    assert (p + a)[|p|..] == a && (p + b)[|p|..] == b;
  }

  /** The newest content under a record's key, and under an event's. */
  ghost predicate RecordStored(src: Source, s: Sys, w: Work, r: Record) {
    var k := Key(Raw, "cursor:" + r.id);
    k in s.latest && s.latest[k] == src.record(w, r)
  }

  ghost predicate EventStored(sha: string -> string, src: Source, s: Sys, w: Work, e: EventId) {
    var k := Key(Event, sha(PreimageOf("cursor", e)));
    k in s.latest && s.latest[k] == src.event(w, e)
  }

  lemma ItemAt(sha: string -> string, src: Source, w: Work, i: nat)
    ensures var (p, items) := (ParseComposer(src.json, w.content, w.bubbles), ItemsOf(sha, src, w));
      && |items| == |p.records| + |p.events|
      && (i < |p.records| ==> items[i] == (Key(Raw, "cursor:" + p.records[i].id), src.record(w, p.records[i])))
      && (i < |p.events| ==> items[|p.records| + i] == (Key(Event, sha(PreimageOf("cursor", p.events[i]))), src.event(w, p.events[i])))
  {
    assert CURSOR + ":" == "cursor:";
  }

  lemma SweepItems(sha: string -> string, src: Source, s: Sys, w: Work)
    requires !s.crashed && DistinctKeys(ItemsOf(sha, src, w))
    ensures forall r | r in ParseComposer(src.json, w.content, w.bubbles).records ::
      RecordStored(src, Enqueued(sha, s, ItemsOf(sha, src, w)), w, r)
    ensures forall e | e in ParseComposer(src.json, w.content, w.bubbles).events ::
      EventStored(sha, src, Enqueued(sha, s, ItemsOf(sha, src, w)), w, e)
  {
    var p, items := ParseComposer(src.json, w.content, w.bubbles), ItemsOf(sha, src, w);
    forall r | r in p.records ensures RecordStored(src, Enqueued(sha, s, items), w, r) {
      var i :| 0 <= i < |p.records| && p.records[i] == r;
      ItemAt(sha, src, w, i);
      EnqueuedLatest(sha, s, items, Key(Raw, "cursor:" + r.id));
    }
    forall e | e in p.events ensures EventStored(sha, src, Enqueued(sha, s, items), w, e) {
      var i :| 0 <= i < |p.events| && p.events[i] == e;
      ItemAt(sha, src, w, i);
      EnqueuedLatest(sha, s, items, Key(Event, sha(PreimageOf("cursor", e))));
    }
  }

  /**
   A sweep that commits stores the composer's own text under its envelope, each readable row's own text
   under its bubble's id, and each of the bubble's events under that event's fingerprint.
   */
  lemma SweepStores(sha: string -> string, src: Source, p: Poll, w: Work, c: Composer, i: nat, id: string, b: Bubble)
    requires Injective(sha) && !p.sys.crashed && Gate(p.state, sha, w) && src.json.composer(w.content) == Some(c)
    requires CleanRows(src.json, w.bubbles, ComposerId(c, w.bubbles) + ":composer")
    requires i < |w.bubbles| && Holds(src.json, w.bubbles[i], id, b)
    ensures var s := NextPoll(sha, src, p, Sweep(w, None)).sys;
      && (exists name :: Names(c, w.bubbles, name) && RecordStored(src, s, w, Record(name + ":composer", w.content)))
      && RecordStored(src, s, w, Record(id, w.bubbles[i].value))
      && (forall e | Given(id, b, c.realModel, e) :: EventStored(sha, src, s, w, e))
  {
    ItemsDistinct(sha, src, w, c);
    SweepItems(sha, src, p.sys, w);
    var name := ParseHolds(src.json, w.content, w.bubbles, c, i, id, b);
    var all := ParseComposer(src.json, w.content, w.bubbles);
    var s1 := Enqueued(sha, p.sys, ItemsOf(sha, src, w));
    assert RecordStored(src, s1, w, Record(name + ":composer", w.content));
    assert RecordStored(src, s1, w, Record(id, w.bubbles[i].value));
    assert forall e | Given(id, b, c.realModel, e) :: EventStored(sha, src, s1, w, e);
    assert NextPoll(sha, src, p, Sweep(w, None)).sys == s1;
  }

  /** What the parse holds of the composer and of one of its rows. */
  lemma ParseHolds(json: Json, content: string, bubbles: seq<BubbleRow>, c: Composer, i: nat, id: string, b: Bubble)
    returns (name: string)
    requires json.composer(content) == Some(c) && i < |bubbles| && Holds(json, bubbles[i], id, b)
    ensures Names(c, bubbles, name)
    ensures var all := ParseComposer(json, content, bubbles);
      && Record(name + ":composer", content) in all.records && Record(id, bubbles[i].value) in all.records
      && forall e | Given(id, b, c.realModel, e) :: e in all.events
  {
    var body, at, groups;
    name, body, at, groups := ComposerExactly(json, content, bubbles, c);
    var all := ParseComposer(json, content, bubbles);
    assert all.records[0] == Record(name + ":composer", content);
    var k := BodyHolds(json, bubbles, c.realModel, body, at, groups, i, id, b);
    assert all.records[k + 1] == body.records[k];
  }

  lemma BodyHolds(json: Json, bubbles: seq<BubbleRow>, realModel: bool, body: CursorParser.Parsed, at: seq<nat>, groups: seq<seq<EventId>>,
                  i: nat, id: string, b: Bubble) returns (k: nat)
    requires FromRows(json, bubbles, realModel, body, at, groups) && i < |bubbles| && Holds(json, bubbles[i], id, b)
    ensures k < |body.records| && body.records[k] == Record(id, bubbles[i].value)
    ensures forall e | Given(id, b, realModel, e) :: e in body.events
  {
    RowReadable(json, bubbles[i]);
    k :| 0 <= k < |at| && at[k] == i;
    assert Gives(json, bubbles[at[k]], realModel, body.records[k], groups[k]);
    RowHolds(json, bubbles[i], realModel, id, b, body.records[k], groups[k]);
    forall e | Given(id, b, realModel, e) ensures e in body.events { InFlat(groups, k, e); }
  }

  /** A row holds one bubble. */
  lemma RowHolds(json: Json, row: BubbleRow, realModel: bool, id: string, b: Bubble, r: Record, es: seq<EventId>)
    requires Holds(json, row, id, b) && Gives(json, row, realModel, r, es)
    ensures r == Record(id, row.value) && EventsOf(id, b, realModel, es)
  {
    var id', b' :| Holds(json, row, id', b') && r == Record(id', row.value) && EventsOf(id', b', realModel, es);
    RowExactly(json, row, id, b);
    RowExactly(json, row, id', b');
  }

  lemma {:induction false} InFlat(groups: seq<seq<EventId>>, k: nat, e: EventId)
    requires k < |groups| && e in groups[k]
    ensures e in Flat(groups)
    decreases |groups|
  {
    var n := |groups| - 1;
    if k < n { InFlat(groups[..n], k, e); }
  }

  // ----- what a whole pass hands over -----

  /** The items of the due units, in order, up to the throw if the pass throws. */
  function HandedOver(poll: map<Unit, string>, sha: string -> string, src: Source, works: seq<Work>, fault: Fault): seq<Item>
    decreases |works|
  {
    if works == [] then []
    else
      var n := |works| - 1;
      HandedOver(poll, sha, src, works[..n], fault)
      + if !Gate(poll, sha, works[n]) || Stopped(poll, sha, works[..n], fault) then []
        else Reached(ItemsOf(sha, src, works[n]), UpTo(fault, n))
  }

  /** The fault is at one of these units, and that one is due. */
  predicate Stopped(poll: map<Unit, string>, sha: string -> string, works: seq<Work>, fault: Fault) {
    fault.Some? && fault.value.0 < |works| && Gate(poll, sha, works[fault.value.0])
  }

  lemma {:induction false} EnqueueAllAppend(t: Table, sha: string -> string, a: seq<Item>, b: seq<Item>)
    ensures EnqueueAll(t, sha, a + b) == EnqueueAll(EnqueueAll(t, sha, a), sha, b)
    decreases |a|
  {
    if a == [] {
      assert a + b == b;
    } else {
      assert (a + b)[0] == a[0] && (a + b)[1..] == a[1..] + b;
      EnqueueAllAppend(Enqueue(t, sha, a[0].0, a[0].1).0, sha, a[1..], b);
    }
  }

  /** After a pass over composers with distinct keys the queue is the one before with these items enqueued. */
  lemma {:induction false} PassTable(p: Pass, sha: string -> string, src: Source, works: seq<Work>, fault: Fault)
    requires !p.threw && forall i, j :: 0 <= i < j < |works| ==> works[i].key != works[j].key
    ensures PassOver(p, sha, src, works, fault).table == EnqueueAll(p.table, sha, HandedOver(p.poll, sha, src, works, fault))
    decreases |works|
  {
    if works != [] {
      var n := |works| - 1;
      PassTable(p, sha, src, works[..n], fault);
      PassExact(p, sha, src, works[..n], fault);
      assert fault.Some? && fault.value.0 < n ==> works[..n][fault.value.0] == works[fault.value.0];
      NextUnit(p, PassOver(p, sha, src, works[..n], fault), sha, src, works, fault, HandedOver(p.poll, sha, src, works[..n], fault));
    }
  }

  lemma NextUnit(p: Pass, q: Pass, sha: string -> string, src: Source, works: seq<Work>, fault: Fault, given: seq<Item>)
    requires works != [] && forall i, j :: 0 <= i < j < |works| ==> works[i].key != works[j].key
    requires Outcome(p, q, sha, works[..|works| - 1], Through(p, sha, works[..|works| - 1], fault))
    requires q.table == EnqueueAll(p.table, sha, given)
    ensures var n := |works| - 1;
      var more := if !Gate(p.poll, sha, works[n]) || Stopped(p.poll, sha, works[..n], fault) then []
                  else Reached(ItemsOf(sha, src, works[n]), UpTo(fault, n));
      (if q.threw then q else OneUnit(q, sha, src, works[n], UpTo(fault, n))).table == EnqueueAll(p.table, sha, given + more)
  {
    var n := |works| - 1;
    assert given + [] == given;
    if !q.threw {
      assert works[..n][..n] == works[..n];
      MarkedSame(p.poll, q.poll, sha, works, n);
      SameGate(p.poll, q.poll, sha, works);
      EnqueueAllAppend(p.table, sha, given, Reached(ItemsOf(sha, src, works[n]), UpTo(fault, n)));
    }
  }
}
