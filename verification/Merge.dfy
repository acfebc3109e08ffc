/**
 The connector registry: assembly (apps/collector/src/connectors/registry.ts) and the signed catalog
 overlay (packages/shared/src/connector-catalog.ts).
 */
module ConnectorCatalog {
  import opened Wrappers

  /** One fidelity field's value; the merge never looks inside. */
  type Value = string

  /** `watchGlobs`: the connector's own code, or a closure over the catalog's list. */
  datatype Globs = Code(ref: nat) | Fixed(globs: seq<string>)

  /** `rest` stands for every field the catalog cannot reach: parser, discovery and the like. */
  datatype Connector = Connector(id: string, captureMode: Option<string>, fidelity: map<string, Value>, globs: Globs, rest: nat)

  datatype Def = Def(id: string, body: string)

  /** A fidelity overlay may carry keys whose value is undefined (None). */
  datatype Entry = Entry(id: string, enabled: Option<bool>, captureMode: Option<string>,
                         fidelity: Option<map<string, Option<Value>>>, watchGlobs: Option<seq<string>>, def: Option<Def>)

  datatype Compiled = Good(connector: Connector) | Bad(reason: string)
  datatype Drop = Drop(id: string, reason: string)
  datatype Merged = Merged(connectors: seq<Connector>, dropped: seq<Drop>)

  const DISABLED := "disabled by connector catalog"
  const NO_DEF := "catalog entry has no built-in connector and no custom def"

  function StripUndefined(o: map<string, Option<Value>>): (out: map<string, Value>)
    ensures forall k :: k in out <==> k in o && o[k].Some?
    ensures forall k | k in out :: o[k] == Some(out[k])
  {
    map k | k in o && o[k].Some? :: o[k].value
  }

  method StripUndefinedLoop(o: map<string, Option<Value>>) returns (out: map<string, Value>)
    ensures out == StripUndefined(o)
  {
    out := map[];
    var todo := o.Keys;
    while todo != {}
      invariant todo <= o.Keys
      invariant forall k :: k in out <==> k in o && k !in todo && o[k].Some?
      invariant forall k | k in out :: o[k] == Some(out[k])
      decreases todo
    {
      var k :| k in todo;
      if o[k].Some? { out := out[k := o[k].value]; }
      todo := todo - {k};
    }
  }

  /** Provided fields win; everything else is the base's. */
  function ApplyOverlay(base: Connector, e: Entry): Connector {
    base.(captureMode := if e.captureMode.Some? then e.captureMode else base.captureMode,
          fidelity := if e.fidelity.Some? then base.fidelity + StripUndefined(e.fidelity.value) else base.fidelity,
          globs := if e.watchGlobs.Some? then Fixed(e.watchGlobs.value) else base.globs)
  }

  /** `new Map(entries.map(e => [e.id, e])).get(id)`: a later entry replaces an earlier one. */
  function ById(entries: seq<Entry>, id: string): (r: Option<Entry>)
    ensures r.Some? ==> r.value in entries && r.value.id == id
    ensures r.None? ==> forall e | e in entries :: e.id != id
  {
    if entries == [] then None
    else
      var later := ById(entries[1..], id);
      if later.Some? then later else if entries[0].id == id then Some(entries[0]) else None
  }

  function KeptOne(base: Connector, entries: seq<Entry>): seq<Connector> {
    match ById(entries, base.id)
    case None => [base]
    case Some(e) => if e.enabled == Some(false) then [] else [ApplyOverlay(base, e)]
  }

  function Kept(registry: seq<Connector>, entries: seq<Entry>): seq<Connector> {
    if registry == [] then [] else KeptOne(registry[0], entries) + Kept(registry[1..], entries)
  }

  function Disabled(registry: seq<Connector>, entries: seq<Entry>): seq<Drop> {
    if registry == [] then []
    else DisabledOne(registry[0], entries) + Disabled(registry[1..], entries)
  }

  /** What one entry adds when its id is not taken yet. */
  function AddOne(e: Entry, seen: set<string>, compile: Def -> Compiled): Merged {
    if e.id in seen || e.enabled == Some(false) then Merged([], [])
    else if e.def.None? then Merged([], [Drop(e.id, NO_DEF)])
    else
      match compile(e.def.value)
      case Bad(reason) => Merged([], [Drop(e.id, reason)])
      case Good(c) => Merged([ApplyOverlay(c, e)], [])
  }

  function SeenAfter(e: Entry, seen: set<string>, compile: Def -> Compiled): set<string> {
    if AddOne(e, seen, compile).connectors == [] then seen else seen + {e.id}
  }

  function Added(entries: seq<Entry>, seen: set<string>, compile: Def -> Compiled): Merged
    decreases |entries|
  {
    if entries == [] then Merged([], [])
    else
      var one := AddOne(entries[0], seen, compile);
      var rest := Added(entries[1..], SeenAfter(entries[0], seen, compile), compile);
      Merged(one.connectors + rest.connectors, one.dropped + rest.dropped)
  }

  function IdsOf(cs: seq<Connector>): set<string> { set c | c in cs :: c.id }

  function Merge(registry: seq<Connector>, catalog: Option<seq<Entry>>, compile: Def -> Compiled): Merged {
    match catalog
    case None => Merged(registry, [])
    case Some(entries) =>
      var added := Added(entries, IdsOf(registry), compile);
      Merged(Kept(registry, entries) + added.connectors, Disabled(registry, entries) + added.dropped)
  }

  function DisabledOne(base: Connector, entries: seq<Entry>): seq<Drop> {
    if KeptOne(base, entries) == [] then [Drop(base.id, DISABLED)] else []
  }

  lemma {:induction false} KeptAppend(a: seq<Connector>, b: seq<Connector>, entries: seq<Entry>)
    ensures Kept(a + b, entries) == Kept(a, entries) + Kept(b, entries)
    decreases |a|
  {
    if a == [] {
      assert a + b == b;
    } else {
      assert (a + b)[0] == a[0] && (a + b)[1..] == a[1..] + b;
      KeptAppend(a[1..], b, entries);
    }
  }

  lemma {:induction false} DisabledAppend(a: seq<Connector>, b: seq<Connector>, entries: seq<Entry>)
    ensures Disabled(a + b, entries) == Disabled(a, entries) + Disabled(b, entries)
    decreases |a|
  {
    if a == [] {
      assert a + b == b;
    } else {
      assert (a + b)[0] == a[0] && (a + b)[1..] == a[1..] + b;
      DisabledAppend(a[1..], b, entries);
    }
  }

  lemma KeptSnoc(registry: seq<Connector>, entries: seq<Entry>, i: nat)
    requires i < |registry|
    ensures Kept(registry[..i + 1], entries) == Kept(registry[..i], entries) + KeptOne(registry[i], entries)
    ensures Disabled(registry[..i + 1], entries) == Disabled(registry[..i], entries) + DisabledOne(registry[i], entries)
  {
    var one := [registry[i]];
    assert registry[..i + 1] == registry[..i] + one;
    KeptAppend(registry[..i], one, entries);
    DisabledAppend(registry[..i], one, entries);
    assert one[1..] == [];
    assert Kept(one, entries) == KeptOne(registry[i], entries);
    assert Disabled(one, entries) == DisabledOne(registry[i], entries);
  }

  function Both(a: Merged, b: Merged): Merged {
    Merged(a.connectors + b.connectors, a.dropped + b.dropped)
  }

  /** What was added so far and what entry `i` adds, before what the entries after it still add. */
  lemma AddedStep(sofar: Merged, entries: seq<Entry>, i: nat, seen: set<string>, compile: Def -> Compiled)
    requires i < |entries|
    ensures Both(sofar, Added(entries[i..], seen, compile))
         == Both(Both(sofar, AddOne(entries[i], seen, compile)),
                 Added(entries[i + 1..], SeenAfter(entries[i], seen, compile), compile))
  {
    assert entries[i..][0] == entries[i] && entries[i..][1..] == entries[i + 1..];
  }

  /** Phase one: overlay onto the registry in order. */
  method OverlayRegistry(registry: seq<Connector>, entries: seq<Entry>) returns (connectors: seq<Connector>, dropped: seq<Drop>)
    ensures connectors == Kept(registry, entries) && dropped == Disabled(registry, entries)
  {
    connectors, dropped := [], [];
    for i := 0 to |registry|
      invariant connectors == Kept(registry[..i], entries) && dropped == Disabled(registry[..i], entries)
    {
      KeptSnoc(registry, entries, i);
      var entry := ById(entries, registry[i].id);
      if entry.None? {
        connectors := connectors + [registry[i]];
      } else if entry.value.enabled == Some(false) {
        dropped := dropped + [Drop(registry[i].id, DISABLED)];
      } else {
        connectors := connectors + [ApplyOverlay(registry[i], entry.value)];
      }
    }
    assert registry[..|registry|] == registry;
  }

  /** Phase two: append what the entries with a free id define. */
  method AddEntries(entries: seq<Entry>, taken: set<string>, compile: Def -> Compiled)
    returns (connectors: seq<Connector>, dropped: seq<Drop>)
    ensures Merged(connectors, dropped) == Added(entries, taken, compile)
  {
    connectors, dropped := [], [];
    var seen := taken;
    assert entries[0..] == entries;
    for i := 0 to |entries|
      invariant Both(Merged(connectors, dropped), Added(entries[i..], seen, compile)) == Added(entries, taken, compile)
    {
      AddedStep(Merged(connectors, dropped), entries, i, seen, compile);
      var e := entries[i];
      ghost var next := Both(Merged(connectors, dropped), AddOne(e, seen, compile));
      ghost var seen' := SeenAfter(e, seen, compile);
      if e.id !in seen && e.enabled != Some(false) {
        if e.def.None? {
          dropped := dropped + [Drop(e.id, NO_DEF)];
        } else {
          match compile(e.def.value) {
            case Bad(reason) => dropped := dropped + [Drop(e.id, reason)];
            case Good(c) =>
              seen := seen + {e.id};
              connectors := connectors + [ApplyOverlay(c, e)];
          }
        }
      }
      assert Merged(connectors, dropped) == next && seen == seen';
    }
  }

  method MergeConnectorCatalog(registry: seq<Connector>, catalog: Option<seq<Entry>>, compile: Def -> Compiled)
    returns (r: Merged)
    ensures r == Merge(registry, catalog, compile)
  {
    if catalog.None? { return Merged(registry, []); }
    var connectors, dropped := OverlayRegistry(registry, catalog.value);
    var added, refused := AddEntries(catalog.value, IdsOf(registry), compile);
    r := Merged(connectors + added, dropped + refused);
  }

  // ----- conservation -----

  ghost predicate DistinctIds(cs: seq<Connector>) {
    forall i, j :: 0 <= i < j < |cs| ==> cs[i].id != cs[j].id
  }

  /** Same connector but for what the catalog may overlay, and that only where its entry provides it. */
  ghost predicate OverlayOf(base: Connector, out: Connector, e: Option<Entry>) {
    && out.id == base.id && out.rest == base.rest
    && (e.None? ==> out == base)
    && (e.Some? ==>
          && (e.value.captureMode.None? ==> out.captureMode == base.captureMode)
          && (e.value.captureMode.Some? ==> out.captureMode == e.value.captureMode)
          && (e.value.watchGlobs.None? ==> out.globs == base.globs)
          && (e.value.watchGlobs.Some? ==> out.globs == Fixed(e.value.watchGlobs.value))
          && (forall k :: Provided(e.value, k) ==> k in out.fidelity && Some(out.fidelity[k]) == e.value.fidelity.value[k])
          && (forall k :: !Provided(e.value, k) ==>
                (k in out.fidelity <==> k in base.fidelity) && (k in base.fidelity ==> out.fidelity[k] == base.fidelity[k])))
  }

  ghost predicate Provided(e: Entry, k: string) {
    e.fidelity.Some? && k in e.fidelity.value && e.fidelity.value[k].Some?
  }

  lemma OverlayKeeps(base: Connector, e: Entry)
    ensures OverlayOf(base, ApplyOverlay(base, e), Some(e))
  {}

  /**
   Every registry connector goes, in order, either to the output with only its provided fields
   overlaid, or, exactly when its entry disables it, to the dropped list.
   */
  lemma {:induction false} Conserved(registry: seq<Connector>, entries: seq<Entry>)
    ensures |Kept(registry, entries)| + |Disabled(registry, entries)| == |registry|
    ensures Split(registry, entries, Kept(registry, entries), Disabled(registry, entries))
  {
    if registry != [] {
      Conserved(registry[1..], entries);
      var e := ById(entries, registry[0].id);
      if e.Some? { OverlayKeeps(registry[0], e.value); }
      if KeptOne(registry[0], entries) == [] {
        assert Disabled(registry, entries)[1..] == Disabled(registry[1..], entries);
        assert Kept(registry, entries) == Kept(registry[1..], entries);
      } else {
        assert Kept(registry, entries)[1..] == Kept(registry[1..], entries);
        assert Disabled(registry, entries) == Disabled(registry[1..], entries);
      }
    }
  }

  /** `registry` dealt out in order between `out` and `drops`. */
  ghost predicate Split(registry: seq<Connector>, entries: seq<Entry>, out: seq<Connector>, drops: seq<Drop>)
    decreases |registry|
  {
    if registry == [] then out == [] && drops == []
    else
      var e := ById(entries, registry[0].id);
      if e.Some? && e.value.enabled == Some(false) then
        drops != [] && drops[0] == Drop(registry[0].id, "disabled by connector catalog") && Split(registry[1..], entries, out, drops[1..])
      else
        out != [] && OverlayOf(registry[0], out[0], e) && Split(registry[1..], entries, out[1..], drops)
  }

  // ----- distinct ids -----

  /** The factory names a connector after its def; an entry should carry the same id. */
  ghost predicate NamedByEntry(entries: seq<Entry>, compile: Def -> Compiled) {
    forall e | e in entries && e.def.Some? && compile(e.def.value).Good? ::
      compile(e.def.value).connector.id == e.id
  }

  lemma {:induction false} KeptIds(registry: seq<Connector>, entries: seq<Entry>)
    requires DistinctIds(registry)
    ensures DistinctIds(Kept(registry, entries)) && IdsOf(Kept(registry, entries)) <= IdsOf(registry)
    decreases |registry|
  {
    if registry != [] {
      KeptIds(registry[1..], entries);
      assert registry == [registry[0]] + registry[1..];
      var one, rest := KeptOne(registry[0], entries), Kept(registry[1..], entries);
      assert forall c | c in one :: c.id == registry[0].id;
      assert forall c | c in rest :: c.id in IdsOf(rest);
      assert forall c | c in registry[1..] :: c.id != registry[0].id;
    }
  }

  lemma {:induction false} AddedIds(entries: seq<Entry>, seen: set<string>, compile: Def -> Compiled)
    requires NamedByEntry(entries, compile)
    ensures var cs := Added(entries, seen, compile).connectors;
      DistinctIds(cs) && IdsOf(cs) !! seen
    decreases |entries|
  {
    if entries != [] {
      assert forall e | e in entries[1..] :: e in entries;
      var e := entries[0];
      var one := AddOne(e, seen, compile).connectors;
      var seen' := SeenAfter(e, seen, compile);
      AddedIds(entries[1..], seen', compile);
      var rest := Added(entries[1..], seen', compile).connectors;
      assert forall c | c in rest :: c.id in IdsOf(rest);
      if one != [] { assert one[0].id == e.id && one == [one[0]]; }
    }
  }

  /** Output ids are distinct when registry ids are and every def carries its entry's id. */
  lemma OutputDistinct(registry: seq<Connector>, catalog: Option<seq<Entry>>, compile: Def -> Compiled)
    requires DistinctIds(registry) && (catalog.Some? ==> NamedByEntry(catalog.value, compile))
    ensures DistinctIds(Merge(registry, catalog, compile).connectors)
  {
    if catalog.Some? {
      KeptIds(registry, catalog.value);
      AddedIds(catalog.value, IdsOf(registry), compile);
      var a, b := Kept(registry, catalog.value), Added(catalog.value, IdsOf(registry), compile).connectors;
      assert forall c | c in a :: c.id in IdsOf(a);
      assert forall c | c in b :: c.id in IdsOf(b);
    }
  }

  /** An entry that becomes a connector when `seen` holds the ids already taken. */
  predicate Takes(e: Entry, seen: set<string>, compile: Def -> Compiled) {
    e.id !in seen && e.enabled != Some(false) && e.def.Some? && compile(e.def.value).Good?
  }

  /** The entries that become connectors, in order: an id is taken by the first of them that compiles. */
  function Takers(entries: seq<Entry>, seen: set<string>, compile: Def -> Compiled): seq<Entry>
    decreases |entries|
  {
    if entries == [] then []
    else if Takes(entries[0], seen, compile) then [entries[0]] + Takers(entries[1..], seen + {entries[0].id}, compile)
    else Takers(entries[1..], seen, compile)
  }

  /** The id of the connector an entry's def compiles to. */
  function CompiledId(e: Entry, compile: Def -> Compiled): string {
    if e.def.Some? && compile(e.def.value).Good? then compile(e.def.value).connector.id else ""
  }

  lemma {:induction false} TakersAdded(entries: seq<Entry>, seen: set<string>, compile: Def -> Compiled)
    ensures var t := Takers(entries, seen, compile);
      var cs := Added(entries, seen, compile).connectors;
      |cs| == |t| && forall i :: 0 <= i < |t| ==> cs[i].id == CompiledId(t[i], compile)
    decreases |entries|
  {
    if entries != [] {
      var e := entries[0];
      TakersAdded(entries[1..], SeenAfter(e, seen, compile), compile);
      var rest := Added(entries[1..], SeenAfter(e, seen, compile), compile).connectors;
      if Takes(e, seen, compile) {
        assert AddOne(e, seen, compile).connectors == [ApplyOverlay(compile(e.def.value).connector, e)];
        assert Added(entries, seen, compile).connectors[1..] == rest;
      } else {
        assert Added(entries, seen, compile).connectors == rest;
      }
    }
  }

  /** The ids of the registry connectors no entry disables. */
  ghost predicate KeptId(registry: seq<Connector>, entries: seq<Entry>, id: string) {
    exists c :: c in registry && c.id == id && KeptOne(c, entries) != []
  }

  lemma {:induction false} KeptIdExact(registry: seq<Connector>, entries: seq<Entry>, id: string)
    ensures id in IdsOf(Kept(registry, entries)) <==> KeptId(registry, entries, id)
  {
    if registry != [] {
      KeptIdExact(registry[1..], entries, id);
      var one, rest := KeptOne(registry[0], entries), Kept(registry[1..], entries);
      assert registry == [registry[0]] + registry[1..];
      assert forall c | c in one :: c.id == registry[0].id;
      assert one != [] ==> one[0] in Kept(registry, entries);
    }
  }

  /**
   Exactly when output ids are distinct: the definitions of the entries that become connectors compile
   to pairwise distinct ids, none of them the id of a registry connector that is kept.
   */
  lemma OutputDistinctExactly(registry: seq<Connector>, entries: seq<Entry>, compile: Def -> Compiled)
    requires DistinctIds(registry)
    ensures var t := Takers(entries, IdsOf(registry), compile);
      DistinctIds(Merge(registry, Some(entries), compile).connectors) <==>
        && (forall i, j :: 0 <= i < j < |t| ==> CompiledId(t[i], compile) != CompiledId(t[j], compile))
        && (forall i :: 0 <= i < |t| ==> !KeptId(registry, entries, CompiledId(t[i], compile)))
  {
    var t := Takers(entries, IdsOf(registry), compile);
    var a, b := Kept(registry, entries), Added(entries, IdsOf(registry), compile).connectors;
    KeptIds(registry, entries);
    TakersAdded(entries, IdsOf(registry), compile);
    forall i | 0 <= i < |t|
      ensures KeptId(registry, entries, CompiledId(t[i], compile)) <==> exists c :: c in a && c.id == b[i].id
    {
      KeptIdExact(registry, entries, CompiledId(t[i], compile));
    }
    DistinctConcat(a, b);
  }

  lemma DistinctConcat(a: seq<Connector>, b: seq<Connector>)
    requires DistinctIds(a)
    ensures DistinctIds(a + b) <==> DistinctIds(b) && forall i :: 0 <= i < |b| ==> !(exists c :: c in a && c.id == b[i].id)
  {
    var s := a + b;
    if DistinctIds(s) {
      forall i, j | 0 <= i < j < |b| ensures b[i].id != b[j].id { assert s[|a| + i] == b[i] && s[|a| + j] == b[j]; }
      forall i, c | 0 <= i < |b| && c in a ensures c.id != b[i].id {
        var k :| 0 <= k < |a| && a[k] == c;
        assert s[k] == c && s[|a| + i] == b[i];
      }
    }
  }

  /** A def that names another connector than its entry puts one id into the output twice. */
  lemma MisnamedDefCollides(base: Connector, entryId: string, def: Def, compile: Def -> Compiled)
    requires entryId != base.id && compile(def) == Good(base)
    ensures var e := Entry(entryId, None, None, None, None, Some(def));
      Merge([base], Some([e]), compile).connectors == [base, base]
  {
    var e := Entry(entryId, None, None, None, None, Some(def));
    assert ById([e], base.id) == None by { assert [e][1..] == []; }
    assert Kept([base], [e]) == [base] by { assert [base][1..] == []; }
    assert IdsOf([base]) == {base.id};
    assert Added([e], {base.id}, compile).connectors == [base] by { assert [e][1..] == []; }
  }

  // ----- merging again changes nothing -----

  ghost predicate UniqueEntries(entries: seq<Entry>) {
    forall i, j :: 0 <= i < j < |entries| ==> entries[i].id != entries[j].id
  }

  lemma {:induction false} ByIdUnique(entries: seq<Entry>, e: Entry)
    requires UniqueEntries(entries) && e in entries
    ensures ById(entries, e.id) == Some(e)
  {
    if entries[0] != e {
      assert e in entries[1..];
      ByIdUnique(entries[1..], e);
    } else {
      assert forall x | x in entries[1..] :: x.id != e.id;
    }
  }

  lemma OverlayTwice(base: Connector, e: Entry)
    ensures ApplyOverlay(ApplyOverlay(base, e), e) == ApplyOverlay(base, e)
  {}

  /** Kept connectors are kept as they are. */
  lemma {:induction false} KeptTwice(registry: seq<Connector>, entries: seq<Entry>)
    ensures Kept(Kept(registry, entries), entries) == Kept(registry, entries)
  {
    if registry != [] {
      KeptTwice(registry[1..], entries);
      var one := KeptOne(registry[0], entries);
      KeptAppend(one, Kept(registry[1..], entries), entries);
      var e := ById(entries, registry[0].id);
      if one != [] {
        if e.Some? { OverlayTwice(registry[0], e.value); }
        assert KeptOne(one[0], entries) == one;
        assert Kept(one, entries) == KeptOne(one[0], entries) by { assert one[1..] == []; }
      }
    }
  }

  /** Connectors the catalog added are kept as they are by the same catalog. */
  lemma {:induction false} AddedKept(part: seq<Entry>, seen: set<string>, entries: seq<Entry>, compile: Def -> Compiled)
    requires UniqueEntries(entries) && NamedByEntry(entries, compile) && forall e | e in part :: e in entries
    ensures Kept(Added(part, seen, compile).connectors, entries) == Added(part, seen, compile).connectors
    decreases |part|
  {
    if part != [] {
      var e := part[0];
      assert forall x | x in part[1..] :: x in part;
      var one := AddOne(e, seen, compile).connectors;
      var rest := Added(part[1..], SeenAfter(e, seen, compile), compile).connectors;
      AddedKept(part[1..], SeenAfter(e, seen, compile), entries, compile);
      KeptAppend(one, rest, entries);
      if one != [] {
        ByIdUnique(entries, e);
        OverlayTwice(compile(e.def.value).connector, e);
        assert Kept(one, entries) == KeptOne(one[0], entries) by { assert one[1..] == []; }
      }
    }
  }

  /** An entry that could add nothing, or whose connector is present, adds nothing the second time. */
  lemma {:induction false} AddedOnce(part: seq<Entry>, seen: set<string>, again: set<string>, compile: Def -> Compiled)
    requires forall e | e in part && AddOne(e, {}, compile).connectors != [] :: e.id in again
    ensures Added(part, again, compile).connectors == []
    decreases |part|
  {
    if part != [] {
      assert part[0] in part && forall x | x in part[1..] :: x in part;
      AddedOnce(part[1..], seen, again, compile);
    }
  }

  /** Every entry able to add a connector finds its id in the output, or in the registry. */
  lemma {:induction false} AddableSeen(part: seq<Entry>, seen: set<string>, entries: seq<Entry>, compile: Def -> Compiled)
    requires NamedByEntry(entries, compile) && forall e | e in part :: e in entries
    ensures forall e | e in part && AddOne(e, {}, compile).connectors != [] ::
      e.id in seen || e.id in IdsOf(Added(part, seen, compile).connectors)
    decreases |part|
  {
    if part != [] {
      var e := part[0];
      assert part == [e] + part[1..];
      var seen' := SeenAfter(e, seen, compile);
      AddableSeen(part[1..], seen', entries, compile);
      var one, rest := AddOne(e, seen, compile).connectors, Added(part[1..], seen', compile).connectors;
      assert forall c :: c in one + rest <==> c in one || c in rest;
      if one != [] { assert one[0] in one + rest && one[0].id == e.id; }
    }
  }

  lemma {:induction false} KeptPresent(registry: seq<Connector>, entries: seq<Entry>, e: Entry)
    requires UniqueEntries(entries) && e in entries && e.enabled != Some(false) && e.id in IdsOf(registry)
    ensures e.id in IdsOf(Kept(registry, entries))
  {
    var c := registry[0];
    assert registry == [c] + registry[1..];
    var one, rest := KeptOne(c, entries), Kept(registry[1..], entries);
    assert forall x :: x in one + rest <==> x in one || x in rest;
    if c.id == e.id {
      ByIdUnique(entries, e);
      assert one[0] in one + rest;
    } else {
      assert e.id in IdsOf(registry[1..]);
      KeptPresent(registry[1..], entries, e);
      var x :| x in rest && x.id == e.id;
      assert x in one + rest;
    }
  }

  /** Merging the same catalog into its own output changes nothing. */
  lemma MergeIdempotent(registry: seq<Connector>, entries: seq<Entry>, compile: Def -> Compiled)
    requires UniqueEntries(entries) && NamedByEntry(entries, compile)
    ensures var once := Merge(registry, Some(entries), compile).connectors;
      Merge(once, Some(entries), compile).connectors == once
  {
    var seen := IdsOf(registry);
    var kept, added := Kept(registry, entries), Added(entries, seen, compile).connectors;
    var once := kept + added;
    KeptAppend(kept, added, entries);
    KeptTwice(registry, entries);
    AddedKept(entries, seen, entries, compile);
    AddableSeen(entries, seen, entries, compile);
    forall e | e in entries && AddOne(e, {}, compile).connectors != [] ensures e.id in IdsOf(once) {
      if e.id in IdsOf(added) {
        var c :| c in added && c.id == e.id;
        assert c in once;
      } else {
        KeptPresent(registry, entries, e);
        var c :| c in kept && c.id == e.id;
        assert c in once;
      }
    }
    AddedOnce(entries, seen, IdsOf(once), compile);
  }

  /** An entry adds nothing to what is there: its id is taken, or it is switched off. */
  ghost predicate Moot(registry: seq<Connector>, e: Entry) { e.id in IdsOf(registry) || e.enabled == Some(false) }

  /** The entry that speaks for a connector leaves it as it is. */
  ghost predicate Untouched(c: Connector, entries: seq<Entry>) { KeptOne(c, entries) == [c] }

  /**
   Exactly when a merge leaves the registry as it is and drops nothing: there is no catalog, or every
   entry is moot and every connector is left as it is by the entry that speaks for it.
   */
  lemma UnchangedExactly(registry: seq<Connector>, catalog: Option<seq<Entry>>, compile: Def -> Compiled)
    ensures Merge(registry, catalog, compile) == Merged(registry, []) <==>
      catalog.None? || ((forall e | e in catalog.value :: Moot(registry, e))
                        && forall c | c in registry :: Untouched(c, catalog.value))
  {
    if catalog.Some? {
      var entries := catalog.value;
      var added := Added(entries, IdsOf(registry), compile);
      Conserved(registry, entries);
      KeptUntouched(registry, entries);
      AddedMoot(entries, registry, compile);
      assert Merge(registry, catalog, compile) == Merged(registry, []) ==>
        |Disabled(registry, entries)| == 0 && |added.connectors| == 0 && |added.dropped| == 0;
    }
  }

  lemma {:induction false} KeptUntouched(registry: seq<Connector>, entries: seq<Entry>)
    ensures Kept(registry, entries) == registry && Disabled(registry, entries) == []
       <==> forall c | c in registry :: Untouched(c, entries)
  {
    if registry != [] {
      var rest := registry[1..];
      KeptUntouched(rest, entries);
      Conserved(rest, entries);
      assert registry == [registry[0]] + rest;
      var one := KeptOne(registry[0], entries);
      if Untouched(registry[0], entries) {
        assert Kept(registry, entries)[1..] == Kept(rest, entries);
      } else if one == [] {
        assert |Disabled(registry, entries)| >= 1;
      } else {
        assert Kept(registry, entries)[0] == one[0] && one == [one[0]];
      }
    }
  }

  lemma {:induction false} AddedMoot(entries: seq<Entry>, registry: seq<Connector>, compile: Def -> Compiled)
    ensures Added(entries, IdsOf(registry), compile) == Merged([], []) <==> forall e | e in entries :: Moot(registry, e)
    decreases |entries|
  {
    if entries != [] {
      AddedMoot(entries[1..], registry, compile);
      assert entries == [entries[0]] + entries[1..];
      var one := AddOne(entries[0], IdsOf(registry), compile);
      assert one == Merged([], []) <==> Moot(registry, entries[0]);
    }
  }

  // ----- assembly -----

  datatype Validated = Ok(def: Def) | Invalid(id: string, reason: string)

  const COLLIDES := "id collides with an existing connector (first wins)"

  /** The valid declarations whose id is still free when their turn comes. */
  function Accepted(declared: seq<Validated>, seen: set<string>): seq<Def>
    decreases |declared|
  {
    if declared == [] then []
    else
      match declared[0]
      case Invalid(_, _) => Accepted(declared[1..], seen)
      case Ok(def) =>
        if def.id in seen then Accepted(declared[1..], seen)
        else [def] + Accepted(declared[1..], seen + {def.id})
  }

  /** The others, each with its reason. */
  function Refused(declared: seq<Validated>, seen: set<string>): seq<Drop>
    decreases |declared|
  {
    if declared == [] then []
    else
      match declared[0]
      case Invalid(id, reason) => [Drop(id, reason)] + Refused(declared[1..], seen)
      case Ok(def) =>
        if def.id in seen then [Drop(def.id, COLLIDES)] + Refused(declared[1..], seen)
        else Refused(declared[1..], seen + {def.id})
  }

  function MakeAll(defs: seq<Def>, make: Def -> Connector): seq<Connector> {
    seq(|defs|, i requires 0 <= i < |defs| => make(defs[i]))
  }

  /** The registry before the overlay. */
  function Assembled(builtIns: seq<Connector>, declared: seq<Validated>, make: Def -> Connector): Merged {
    Merged(builtIns + MakeAll(Accepted(declared, IdsOf(builtIns)), make), Refused(declared, IdsOf(builtIns)))
  }

  /**
   `loadRegistry` before the overlay: built-ins, then each valid declaration whose id is still free,
   compiled, in order. `make` names the connector after its definition.
   */
  method Assemble(builtIns: seq<Connector>, declared: seq<Validated>, make: Def -> Connector) returns (r: Merged)
    requires DistinctIds(builtIns)
    requires forall d :: make(d).id == d.id
    ensures r == Assembled(builtIns, declared, make)
    ensures DistinctIds(r.connectors)
    ensures |r.connectors| + |r.dropped| == |builtIns| + |declared|
    ensures forall v | v in declared && v.Ok? :: v.def.id in IdsOf(r.connectors)
  {
    var connectors, dropped := builtIns, [];
    var seenIds := IdsOf(builtIns);
    assert declared[0..] == declared;
    for i := 0 to |declared|
      invariant DistinctIds(connectors) && seenIds == IdsOf(connectors)
      invariant |connectors| + |dropped| == |builtIns| + i
      invariant forall k :: 0 <= k < i && declared[k].Ok? ==> declared[k].def.id in seenIds
      invariant Merged(connectors + MakeAll(Accepted(declared[i..], seenIds), make), dropped + Refused(declared[i..], seenIds))
             == Assembled(builtIns, declared, make)
    {
      assert declared[i..][0] == declared[i] && declared[i..][1..] == declared[i + 1..];
      match declared[i] {
        case Invalid(id, reason) =>
          Shift(dropped, Drop(id, reason), Refused(declared[i + 1..], seenIds));
          dropped := dropped + [Drop(id, reason)];
        case Ok(def) =>
          if def.id in seenIds {
            Shift(dropped, Drop(def.id, COLLIDES), Refused(declared[i + 1..], seenIds));
            dropped := dropped + [Drop(def.id, COLLIDES)];
          } else {
            assert forall c | c in connectors :: c.id in IdsOf(connectors);
            IdsSnoc(connectors, make(def));
            var rest := Accepted(declared[i + 1..], seenIds + {def.id});
            assert MakeAll([def] + rest, make) == [make(def)] + MakeAll(rest, make);
            Shift(connectors, make(def), MakeAll(rest, make));
            seenIds := seenIds + {def.id};
            connectors := connectors + [make(def)];
          }
      }
    }
    assert declared[|declared|..] == [];
    assert connectors + MakeAll([], make) == connectors && dropped + [] == dropped;
    r := Merged(connectors, dropped);
  }

  lemma Shift<T>(a: seq<T>, x: T, b: seq<T>)
    ensures a + ([x] + b) == (a + [x]) + b
  {}

  /** The entries that are looked at as definitions: each ends as a connector or as a drop. */
  function Tried(entries: seq<Entry>, seen: set<string>, compile: Def -> Compiled): seq<Entry>
    decreases |entries|
  {
    if entries == [] then []
    else
      (if entries[0].id in seen || entries[0].enabled == Some(false) then [] else [entries[0]])
      + Tried(entries[1..], SeenAfter(entries[0], seen, compile), compile)
  }

  lemma {:induction false} TriedCount(entries: seq<Entry>, seen: set<string>, compile: Def -> Compiled)
    ensures var added := Added(entries, seen, compile);
      |added.connectors| + |added.dropped| == |Tried(entries, seen, compile)|
    decreases |entries|
  {
    if entries != [] { TriedCount(entries[1..], SeenAfter(entries[0], seen, compile), compile); }
  }

  /** Assembly, then the overlay; nothing goes missing, and drops of both are reported, assembly's first. */
  method LoadRegistry(builtIns: seq<Connector>, declared: seq<Validated>, make: Def -> Connector,
                      catalog: Option<seq<Entry>>, compile: Def -> Compiled) returns (r: Merged)
    requires DistinctIds(builtIns)
    requires forall d :: make(d).id == d.id
    ensures var a := Assembled(builtIns, declared, make);
      var m := Merge(a.connectors, catalog, compile);
      && r == Merged(m.connectors, a.dropped + m.dropped)
      && |r.connectors| + |r.dropped| == |builtIns| + |declared|
           + (if catalog.Some? then |Tried(catalog.value, IdsOf(a.connectors), compile)| else 0)
    ensures catalog.None? || NamedByEntry(catalog.value, compile) ==> DistinctIds(r.connectors)
  {
    var assembled := Assemble(builtIns, declared, make);
    var merged := MergeConnectorCatalog(assembled.connectors, catalog, compile);
    if catalog.Some? {
      Conserved(assembled.connectors, catalog.value);
      TriedCount(catalog.value, IdsOf(assembled.connectors), compile);
    }
    if catalog.None? || NamedByEntry(catalog.value, compile) { OutputDistinct(assembled.connectors, catalog, compile); }
    r := Merged(merged.connectors, assembled.dropped + merged.dropped);
  }

  lemma IdsSnoc(cs: seq<Connector>, c: Connector)
    ensures IdsOf(cs + [c]) == IdsOf(cs) + {c.id}
  {
    assert forall x :: x in cs + [c] <==> x in cs || x == c;
  }
}
