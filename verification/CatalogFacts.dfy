/** Which declarations and catalog entries become connectors and which are dropped, read off the lists themselves. */
module CatalogFacts {
  import opened Wrappers
  import opened ConnectorCatalog

  // ----- indices -----

  /** `at` lists, in order, exactly the places below `n` that `yes` holds of. */
  ghost predicate Indexed(at: seq<nat>, n: nat, yes: nat -> bool) {
    && (forall j, k :: 0 <= j < k < |at| ==> at[j] < at[k])
    && (forall k :: 0 <= k < |at| ==> at[k] < n)
    && (forall i: nat :: i < n ==> (i in at <==> yes(i)))
  }

  function Up(at: seq<nat>): (r: seq<nat>)
    ensures |r| == |at| && forall k :: 0 <= k < |at| ==> r[k] == at[k] + 1
  {
    seq(|at|, k requires 0 <= k < |at| => at[k] + 1)
  }

  lemma IndexedCons(at: seq<nat>, n: nat, rest: nat -> bool, yes: nat -> bool)
    requires Indexed(at, n, rest) && forall i: nat :: i < n ==> rest(i) == yes(i + 1)
    ensures Indexed((if yes(0) then [0] else []) + Up(at), n + 1, yes)
  {
    var all := (if yes(0) then [0] else []) + Up(at);
    forall i: nat | i < n + 1 ensures i in all <==> yes(i) {
      if i > 0 {
        assert i in Up(at) <==> i - 1 in at by {
          if i - 1 in at { var k :| 0 <= k < |at| && at[k] == i - 1; assert Up(at)[k] == i; }
          if i in Up(at) { var k :| 0 <= k < |at| && Up(at)[k] == i; assert at[k] == i - 1; }
        }
        assert i in all <==> i in Up(at);
      } else {
        assert 0 !in Up(at);
      }
    }
  }

  /** `ok` relates each item to what stands at its place. */
  ghost predicate Paired<A, B>(ok: (A, B) -> bool, xs: seq<A>, at: seq<nat>, ys: seq<B>) {
    |ys| == |at| && forall k :: 0 <= k < |at| ==> at[k] < |xs| && ok(xs[at[k]], ys[k])
  }

  lemma PairedCons<A, B>(ok: (A, B) -> bool, xs: seq<A>, at: seq<nat>, ys: seq<B>, first: seq<B>)
    requires xs != [] && Paired(ok, xs[1..], at, ys) && (first == [] || (|first| == 1 && ok(xs[0], first[0])))
    ensures Paired(ok, xs, (if first == [] then [] else [0]) + Up(at), first + ys)
  {}

  // ----- declarations -----

  /** It is valid, and neither a built-in nor an earlier valid declaration has its id. */
  predicate FirstOfId(declared: seq<Validated>, taken: set<string>, i: nat)
    requires i < |declared|
  {
    declared[i].Ok? && declared[i].def.id !in taken
    && forall j :: 0 <= j < i && declared[j].Ok? ==> declared[j].def.id != declared[i].def.id
  }

  ghost function Firsts(declared: seq<Validated>, taken: set<string>): nat -> bool {
    (i: nat) => i < |declared| && FirstOfId(declared, taken, i)
  }

  ghost function Seconds(declared: seq<Validated>, taken: set<string>): nat -> bool {
    (i: nat) => i < |declared| && !FirstOfId(declared, taken, i)
  }

  /** A refused declaration's drop: its own reason if it is invalid, else that its id is taken. */
  function DropOf(v: Validated): Drop {
    match v
    case Invalid(id, reason) => Drop(id, reason)
    case Ok(def) => Drop(def.id, "id collides with an existing connector (first wins)")
  }

  ghost function Taking(): (Validated, Def) -> bool { (v, d) => v == Ok(d) }
  ghost function Dropping(): (Validated, Drop) -> bool { (v, d) => d == DropOf(v) }

  /**
   The first valid declaration of an id that is not built in becomes a connector, in order; every other
   declaration is dropped, in order, with its reason.
   */
  lemma {:induction false} DeclaredExactly(declared: seq<Validated>, taken: set<string>) returns (at: seq<nat>, out: seq<nat>)
    ensures Indexed(at, |declared|, Firsts(declared, taken)) && Indexed(out, |declared|, Seconds(declared, taken))
    ensures Paired(Taking(), declared, at, Accepted(declared, taken)) && Paired(Dropping(), declared, out, Refused(declared, taken))
    decreases |declared|
  {
    if declared == [] {
      at, out := [], [];
    } else {
      var v, rest := declared[0], declared[1..];
      var first := v.Ok? && v.def.id !in taken;
      var taken' := if first then taken + {v.def.id} else taken;
      var at', out' := DeclaredExactly(rest, taken');
      DeclaredShift(declared, taken, at', out');
      PairedCons(Taking(), declared, at', Accepted(rest, taken'), if first then [v.def] else []);
      PairedCons(Dropping(), declared, out', Refused(rest, taken'), if first then [] else [DropOf(v)]);
      at, out := (if first then [0] else []) + Up(at'), (if first then [] else [0]) + Up(out');
      assert [] + Accepted(rest, taken') == Accepted(rest, taken') && [] + Refused(rest, taken') == Refused(rest, taken');
    }
  }

  lemma DeclaredShift(declared: seq<Validated>, taken: set<string>, at: seq<nat>, out: seq<nat>)
    requires declared != []
    requires var v := declared[0];
      var taken' := if v.Ok? && v.def.id !in taken then taken + {v.def.id} else taken;
      Indexed(at, |declared| - 1, Firsts(declared[1..], taken')) && Indexed(out, |declared| - 1, Seconds(declared[1..], taken'))
    ensures var first := declared[0].Ok? && declared[0].def.id !in taken;
      && Indexed((if first then [0] else []) + Up(at), |declared|, Firsts(declared, taken))
      && Indexed((if first then [] else [0]) + Up(out), |declared|, Seconds(declared, taken))
  {
    var v, rest := declared[0], declared[1..];
    var taken' := if v.Ok? && v.def.id !in taken then taken + {v.def.id} else taken;
    forall i: nat | i < |rest| ensures FirstOfId(rest, taken', i) == FirstOfId(declared, taken, i + 1) {
      FirstShifts(declared, taken, i);
    }
    IndexedCons(at, |rest|, Firsts(rest, taken'), Firsts(declared, taken));
    IndexedCons(out, |rest|, Seconds(rest, taken'), Seconds(declared, taken));
  }

  lemma FirstShifts(declared: seq<Validated>, taken: set<string>, i: nat)
    requires i + 1 < |declared|
    ensures var v := declared[0];
      FirstOfId(declared[1..], if v.Ok? && v.def.id !in taken then taken + {v.def.id} else taken, i) == FirstOfId(declared, taken, i + 1)
  {
    assert forall j :: 1 <= j < |declared| ==> declared[1..][j - 1] == declared[j];
  }

  // ----- catalog entries -----

  /** Switched on, with a definition that compiles. */
  predicate Able(e: Entry, compile: Def -> Compiled) { e.enabled != Some(false) && e.def.Some? && compile(e.def.value).Good? }

  /** Neither a registry connector nor an earlier able entry has its id. */
  predicate IdFree(entries: seq<Entry>, taken: set<string>, compile: Def -> Compiled, i: nat)
    requires i < |entries|
  {
    entries[i].id !in taken && forall j :: 0 <= j < i && Able(entries[j], compile) ==> entries[j].id != entries[i].id
  }

  ghost function Becoming(entries: seq<Entry>, taken: set<string>, compile: Def -> Compiled): nat -> bool {
    (i: nat) => i < |entries| && IdFree(entries, taken, compile, i) && Able(entries[i], compile)
  }

  ghost function Failing(entries: seq<Entry>, taken: set<string>, compile: Def -> Compiled): nat -> bool {
    (i: nat) => i < |entries| && IdFree(entries, taken, compile, i) && !Able(entries[i], compile) && entries[i].enabled != Some(false)
  }

  /** Why an entry that is switched on fails: it has no definition, or the definition does not compile. */
  ghost predicate FailsWith(e: Entry, compile: Def -> Compiled, d: Drop) {
    d.id == e.id
    && if e.def.None? then d.reason == "catalog entry has no built-in connector and no custom def"
       else compile(e.def.value) == Bad(d.reason)
  }

  ghost predicate Comes(e: Entry, compile: Def -> Compiled, c: Connector) {
    Able(e, compile) && OverlayOf(compile(e.def.value).connector, c, Some(e))
  }

  ghost function Comings(compile: Def -> Compiled): (Entry, Connector) -> bool { (e, c) => Comes(e, compile, c) }
  ghost function Failings(compile: Def -> Compiled): (Entry, Drop) -> bool { (e, d) => FailsWith(e, compile, d) }

  /**
   The entries whose id is free become connectors, in order, if they are able: what the definition compiles
   to, under the entry's own overlay. The others that are switched on are dropped, in order, with the reason.
   */
  lemma {:induction false} EntriesExactly(entries: seq<Entry>, taken: set<string>, compile: Def -> Compiled)
    returns (at: seq<nat>, out: seq<nat>)
    ensures Indexed(at, |entries|, Becoming(entries, taken, compile)) && Indexed(out, |entries|, Failing(entries, taken, compile))
    ensures Paired(Comings(compile), entries, at, Added(entries, taken, compile).connectors)
    ensures Paired(Failings(compile), entries, out, Added(entries, taken, compile).dropped)
    decreases |entries|
  {
    if entries == [] {
      at, out := [], [];
    } else {
      var e, rest := entries[0], entries[1..];
      var taken' := SeenAfter(e, taken, compile);
      var at', out' := EntriesExactly(rest, taken', compile);
      EntryExact(e, taken, compile);
      EntriesShift(entries, taken, compile, at', out');
      var one := AddOne(e, taken, compile);
      PairedCons(Comings(compile), entries, at', Added(rest, taken', compile).connectors, one.connectors);
      PairedCons(Failings(compile), entries, out', Added(rest, taken', compile).dropped, one.dropped);
      at := (if one.connectors == [] then [] else [0]) + Up(at');
      out := (if one.dropped == [] then [] else [0]) + Up(out');
    }
  }

  lemma EntriesShift(entries: seq<Entry>, taken: set<string>, compile: Def -> Compiled, at: seq<nat>, out: seq<nat>)
    requires entries != []
    requires var taken' := SeenAfter(entries[0], taken, compile);
      Indexed(at, |entries| - 1, Becoming(entries[1..], taken', compile)) && Indexed(out, |entries| - 1, Failing(entries[1..], taken', compile))
    ensures var one := AddOne(entries[0], taken, compile);
      && Indexed((if one.connectors == [] then [] else [0]) + Up(at), |entries|, Becoming(entries, taken, compile))
      && Indexed((if one.dropped == [] then [] else [0]) + Up(out), |entries|, Failing(entries, taken, compile))
  {
    var taken' := SeenAfter(entries[0], taken, compile);
    EntryExact(entries[0], taken, compile);
    forall i: nat | i < |entries| - 1 ensures IdFree(entries[1..], taken', compile, i) == IdFree(entries, taken, compile, i + 1) {
      IdShifts(entries, taken, compile, i);
    }
    IndexedCons(at, |entries| - 1, Becoming(entries[1..], taken', compile), Becoming(entries, taken, compile));
    IndexedCons(out, |entries| - 1, Failing(entries[1..], taken', compile), Failing(entries, taken, compile));
  }

  lemma EntryExact(e: Entry, taken: set<string>, compile: Def -> Compiled)
    ensures var one := AddOne(e, taken, compile);
      && (if e.id !in taken && Able(e, compile) then |one.connectors| == 1 && Comes(e, compile, one.connectors[0]) else one.connectors == [])
      && (if e.id !in taken && !Able(e, compile) && e.enabled != Some(false)
          then |one.dropped| == 1 && FailsWith(e, compile, one.dropped[0]) else one.dropped == [])
  {
    if Able(e, compile) { OverlayKeeps(compile(e.def.value).connector, e); }
  }

  lemma IdShifts(entries: seq<Entry>, taken: set<string>, compile: Def -> Compiled, i: nat)
    requires i + 1 < |entries|
    ensures IdFree(entries[1..], SeenAfter(entries[0], taken, compile), compile, i) == IdFree(entries, taken, compile, i + 1)
  {
    EntryExact(entries[0], taken, compile);
    assert forall j :: 1 <= j < |entries| ==> entries[1..][j - 1] == entries[j];
  }

  // ----- which entry speaks for a connector -----

  /** The last entry of its id. */
  lemma {:induction false} LastSpeaks(entries: seq<Entry>, id: string)
    ensures match ById(entries, id)
            case None => forall i :: 0 <= i < |entries| ==> entries[i].id != id
            case Some(e) => exists i :: 0 <= i < |entries| && entries[i] == e && e.id == id
                                        && forall j :: i < j < |entries| ==> entries[j].id != id
  {
    if entries != [] {
      LastSpeaks(entries[1..], id);
      assert forall j :: 1 <= j < |entries| ==> entries[1..][j - 1] == entries[j];
      var later := ById(entries[1..], id);
      if later.Some? {
        var i :| 0 <= i < |entries[1..]| && entries[1..][i] == later.value
                 && forall j :: i < j < |entries[1..]| ==> entries[1..][j].id != id;
        assert entries[i + 1] == later.value;
      }
    }
  }
}
