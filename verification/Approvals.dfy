/**
 The reads `startEngine` makes before it has an engine: enablement and approval
 (apps/collector/src/connectors/connector-config.ts, connector-approvals.ts), and when they throw.
 */
module Approvals {
  import opened Wrappers

  // ----- what a catalog entry can hold where a list of strings is expected -----

  /** A JSON value. Of a signed catalog only the signature is checked, not the type of its fields. */
  datatype Json =
    | Null
    | Bool(b: bool)
    | Number(n: real)
    | Text(s: string)
    | List(items: seq<Json>)
    | Object(members: map<string, Json>)

  predicate Truthy(v: Json) {
    match v
    case Null => false
    case Bool(b) => b
    case Number(n) => n != 0.0
    case Text(s) => s != ""
    case List(_) => true
    case Object(_) => true
  }

  /** `[...v]`: the items of a list, the characters of a text; None is the TypeError of anything else. */
  function Spread(v: Json): Option<seq<Json>> {
    match v
    case List(items) => Some(items)
    case Text(s) => Some(seq(|s|, i requires 0 <= i < |s| => Text([s[i]])))
    case _ => None
  }

  /** `String(v)` has a result: it has none for an object whose own `toString` hides the inherited one. */
  predicate HasString(v: Json) {
    match v
    case Object(members) => "toString" !in members
    case List(items) => forall i :: 0 <= i < |items| ==> HasString(items[i])
    case _ => true
  }

  /** `items.sort()` compares string forms, and with two items or more it compares every one of them. */
  predicate Sortable(items: seq<Json>) { |items| < 2 || forall i :: 0 <= i < |items| ==> HasString(items[i]) }

  /** `[...v].sort()` gives a list. */
  predicate Listable(v: Json) { Spread(v).Some? && Sortable(Spread(v).value) }

  /** What counts as false: null, false, zero and the empty text. */
  lemma FalsyExactly(v: Json)
    ensures !Truthy(v) <==> v == Null || v == Bool(false) || v == Number(0.0) || v == Text("")
  {}

  /** An object with its own `toString` stands in it, behind lists only. */
  ghost predicate Buried(v: Json) {
    (v.Object? && "toString" in v.members) || (v.List? && exists i :: 0 <= i < |v.items| && Buried(v.items[i]))
  }

  lemma {:induction false} StringExactly(v: Json)
    ensures HasString(v) <==> !Buried(v)
  {
    if v.List? {
      forall i | 0 <= i < |v.items| ensures HasString(v.items[i]) <==> !Buried(v.items[i]) { StringExactly(v.items[i]); }
    }
  }

  /** A list can be listed unless it has two items or more, one with such an object; a text always; nothing else can. */
  lemma ListableExactly(v: Json)
    ensures Listable(v) <==> v.Text? || (v.List? && (|v.items| < 2 || forall i :: 0 <= i < |v.items| ==> !Buried(v.items[i])))
    ensures v.List? ==> Spread(v) == Some(v.items)
    ensures v.Text? ==> Spread(v).Some? && |Spread(v).value| == |v.s| && forall i :: 0 <= i < |v.s| ==> Spread(v).value[i] == Text([v.s[i]])
  {
    if v.List? {
      forall i | 0 <= i < |v.items| ensures HasString(v.items[i]) <==> !Buried(v.items[i]) { StringExactly(v.items[i]); }
    }
  }

  // ----- capture surfaces -----

  /** A connector as far as its capture surface goes; sources and origins are lists in code. */
  datatype Surface = Surface(id: string, globs: Json, perms: Json, poll: Option<seq<string>>, push: Option<seq<string>>)

  /**
   A catalog entry laid over a connector: a truthy `watchGlobs` replaces the globs, and a
   `requiredPermissions` that is there at all, null included, replaces the permissions.
   */
  function Overlaid(base: Surface, globs: Option<Json>, perms: Option<Json>): Surface {
    base.(globs := if globs.Some? && Truthy(globs.value) then globs.value else base.globs,
          perms := if perms.Some? then perms.value else base.perms)
  }

  /** Its fingerprint cannot be computed. */
  predicate Broken(c: Surface) { !Listable(c.globs) || !Listable(c.perms) }

  /** SHA-256 of the JSON of the sorted lists: some function of the lists. */
  type Hash = (seq<Json>, seq<Json>, Option<seq<string>>, Option<seq<string>>) -> string

  /** None when it throws. */
  function Fingerprint(hash: Hash, c: Surface): Option<string> {
    if Broken(c) then None else Some(hash(Spread(c.globs).value, Spread(c.perms).value, c.poll, c.push))
  }

  // ----- approval -----

  /** What every object answers to besides its own keys. */
  const INHERITED: set<string> :=
    {"constructor", "toString", "toLocaleString", "valueOf", "hasOwnProperty", "isPrototypeOf",
     "propertyIsEnumerable", "__proto__", "__defineGetter__", "__defineSetter__", "__lookupGetter__", "__lookupSetter__"}

  /** `approved[id]` is truthy: recorded, or the name of something inherited. */
  predicate Recorded(approved: map<string, string>, id: string) { id in approved || id in INHERITED }

  predicate Enabled(cfg: map<string, bool>, c: Surface) { c.id in cfg ==> cfg[c.id] }

  /** An id not recorded is approved, and its surface is then not looked at; what is inherited never matches. */
  predicate Approved(hash: Hash, approved: map<string, string>, c: Surface) {
    Recorded(approved, c.id) ==> c.id in approved && Fingerprint(hash, c) == Some(approved[c.id])
  }

  /** The connectors a start hands to the engine. */
  function Chosen(hash: Hash, cfg: map<string, bool>, approved: map<string, string>, registry: seq<Surface>): seq<Surface> {
    if registry == [] then []
    else
      var n := |registry| - 1;
      Chosen(hash, cfg, approved, registry[..n])
      + if Enabled(cfg, registry[n]) && Approved(hash, approved, registry[n]) then [registry[n]] else []
  }

  /**
   Not switched off; and either never recorded, under a name that is not inherited, or recorded with the
   hash of the very lists it has now.
   */
  ghost predicate LetIn(hash: Hash, cfg: map<string, bool>, approved: map<string, string>, c: Surface) {
    && (c.id !in cfg || cfg[c.id])
    && if c.id in approved then
         Listable(c.globs) && Listable(c.perms)
         && approved[c.id] == hash(Spread(c.globs).value, Spread(c.perms).value, c.poll, c.push)
       else c.id !in INHERITED
  }

  lemma {:induction false} ChosenExactly(hash: Hash, cfg: map<string, bool>, approved: map<string, string>, registry: seq<Surface>)
    ensures forall c :: c in Chosen(hash, cfg, approved, registry) <==> c in registry && LetIn(hash, cfg, approved, c)
    ensures forall n :: 0 <= n <= |registry| ==> Chosen(hash, cfg, approved, registry[..n]) <= Chosen(hash, cfg, approved, registry)
  {
    if registry != [] {
      var n := |registry| - 1;
      ChosenExactly(hash, cfg, approved, registry[..n]);
      assert registry == registry[..n] + [registry[n]];
      forall m | 0 <= m <= |registry|
        ensures Chosen(hash, cfg, approved, registry[..m]) <= Chosen(hash, cfg, approved, registry)
      {
        if m <= n { assert registry[..n][..m] == registry[..m]; } else { assert registry[..m] == registry; }
      }
    }
  }

  /** Some connector that is switched on and counts as recorded has no fingerprint. */
  ghost predicate StartThrows(cfg: map<string, bool>, approved: map<string, string>, registry: seq<Surface>) {
    exists c :: c in registry && Enabled(cfg, c) && Recorded(approved, c.id) && Broken(c)
  }

  /** `filterByApproval(filterConnectors(registry, cfg), approvals, home)`; None when it throws. */
  method EnabledConnectors(hash: Hash, cfg: map<string, bool>, approved: map<string, string>, registry: seq<Surface>)
    returns (r: Option<seq<Surface>>)
    ensures r.None? <==> StartThrows(cfg, approved, registry)
    ensures r.Some? ==> r.value == Chosen(hash, cfg, approved, registry)
    ensures r.Some? ==> forall c :: c in r.value <==> c in registry && LetIn(hash, cfg, approved, c)
  {
    ChosenExactly(hash, cfg, approved, registry);
    var kept: seq<Surface> := [];
    for i := 0 to |registry|
      invariant !StartThrows(cfg, approved, registry[..i])
      invariant kept == Chosen(hash, cfg, approved, registry[..i])
    {
      var c := registry[i];
      assert registry[..i + 1][..i] == registry[..i];
      assert forall x :: x in registry[..i + 1] <==> x in registry[..i] || x == c;
      if Enabled(cfg, c) {
        if !Recorded(approved, c.id) {
          kept := kept + [c];
        } else {
          var mark := Fingerprint(hash, c);
          if mark.None? {
            assert c in registry;
            return None;
          }
          if c.id in approved && mark.value == approved[c.id] { kept := kept + [c]; }
        }
      }
    }
    assert registry[..|registry|] == registry;
    r := Some(kept);
  }

  /** The first connector of its id, not recorded, and without a fingerprint. */
  ghost predicate SeedThrowsAt(approved: map<string, string>, registry: seq<Surface>, i: nat) {
    i < |registry| && Broken(registry[i]) && !Recorded(approved, registry[i].id)
    && forall j :: 0 <= j < i ==> registry[j].id != registry[i].id
  }

  /** The first connector of its id, and the id is not recorded. */
  ghost predicate NewAt(approved: map<string, string>, registry: seq<Surface>, i: int) {
    0 <= i < |registry| && !Recorded(approved, registry[i].id) && forall j :: 0 <= j < i ==> registry[j].id != registry[i].id
  }

  /** `seedMissingApprovals`, which runs once at boot: only ids never recorded are fingerprinted. */
  method SeedMissing(hash: Hash, approved: map<string, string>, registry: seq<Surface>) returns (r: Option<map<string, string>>)
    ensures r.None? <==> exists i: nat :: SeedThrowsAt(approved, registry, i)
    ensures r.Some? ==> forall id | id in approved :: id in r.value && r.value[id] == approved[id]
    ensures r.Some? ==> forall id :: id in r.value <==> id in approved || (id !in INHERITED && Named(registry, |registry|, id))
    ensures r.Some? ==> forall i :: 0 <= i < |registry| && NewAt(approved, registry, i) ==>
      Fingerprint(hash, registry[i]).Some? && registry[i].id in r.value && r.value[registry[i].id] == Fingerprint(hash, registry[i]).value
  {
    var all := approved;
    for i := 0 to |registry|
      invariant Seeded(hash, approved, registry, i, all)
      invariant forall k: nat :: k < i ==> !SeedThrowsAt(approved, registry, k)
    {
      var c := registry[i];
      NewExactly(hash, approved, registry, i, all);
      if !Recorded(all, c.id) {
        var mark := Fingerprint(hash, c);
        if mark.None? {
          assert SeedThrowsAt(approved, registry, i);
          return None;
        }
        SeededNext(hash, approved, registry, i, all);
        all := all[c.id := mark.value];
      }
    }
    r := Some(all);
  }

  /** One of the first `n` connectors has that id. */
  ghost predicate Named(registry: seq<Surface>, n: nat, id: string)
    requires n <= |registry|
  {
    exists j :: 0 <= j < n && registry[j].id == id
  }

  lemma NamedNext(registry: seq<Surface>, n: nat)
    requires n < |registry|
    ensures forall id :: Named(registry, n + 1, id) <==> Named(registry, n, id) || id == registry[n].id
  {
    forall id | Named(registry, n, id) ensures Named(registry, n + 1, id) {
      var j :| 0 <= j < n && registry[j].id == id;
      assert 0 <= j < n + 1 && registry[j].id == id;
    }
    assert registry[n].id == registry[n].id && Named(registry, n + 1, registry[n].id);
  }

  /** What is recorded once the first `i` connectors have been looked at. */
  ghost predicate Seeded(hash: Hash, approved: map<string, string>, registry: seq<Surface>, i: nat, all: map<string, string>) {
    && i <= |registry|
    && (forall id | id in approved :: id in all && all[id] == approved[id])
    && (forall id :: id in all <==> id in approved || (id !in INHERITED && Named(registry, i, id)))
    && (forall k :: 0 <= k < i && NewAt(approved, registry, k) ==>
          Fingerprint(hash, registry[k]).Some? && all[registry[k].id] == Fingerprint(hash, registry[k]).value)
  }

  /** The next connector is not recorded yet exactly when it is the first of its id and that is new. */
  lemma NewExactly(hash: Hash, approved: map<string, string>, registry: seq<Surface>, i: nat, all: map<string, string>)
    requires Seeded(hash, approved, registry, i, all) && i < |registry|
    ensures !Recorded(all, registry[i].id) <==> NewAt(approved, registry, i)
    ensures Recorded(all, registry[i].id) ==> Seeded(hash, approved, registry, i + 1, all)
  {
    NamedNext(registry, i);
    assert NewAt(approved, registry, i) <==> !Recorded(approved, registry[i].id) && !Named(registry, i, registry[i].id);
    if Recorded(all, registry[i].id) {
      forall id ensures id in all <==> id in approved || (id !in INHERITED && Named(registry, i + 1, id)) {}
      forall k | 0 <= k < i + 1 && NewAt(approved, registry, k)
        ensures Fingerprint(hash, registry[k]).Some? && all[registry[k].id] == Fingerprint(hash, registry[k]).value {}
    }
  }

  lemma SeededNext(hash: Hash, approved: map<string, string>, registry: seq<Surface>, i: nat, all: map<string, string>)
    requires Seeded(hash, approved, registry, i, all) && i < |registry|
    requires NewAt(approved, registry, i) && Fingerprint(hash, registry[i]).Some?
    ensures Seeded(hash, approved, registry, i + 1, all[registry[i].id := Fingerprint(hash, registry[i]).value])
  {
    var id := registry[i].id;
    var next := all[id := Fingerprint(hash, registry[i]).value];
    assert !Named(registry, i, id) && id !in approved && id !in INHERITED;
    NextNames(approved, registry, i, all, next);
    forall k | 0 <= k < i + 1 && NewAt(approved, registry, k)
      ensures Fingerprint(hash, registry[k]).Some? && next[registry[k].id] == Fingerprint(hash, registry[k]).value
    {
      if k < i { assert registry[k].id != id; }
    }
  }

  lemma NextNames(approved: map<string, string>, registry: seq<Surface>, i: nat, all: map<string, string>, next: map<string, string>)
    requires i < |registry| && next.Keys == all.Keys + {registry[i].id} && registry[i].id !in INHERITED
    requires forall id :: id in all <==> id in approved || (id !in INHERITED && Named(registry, i, id))
    ensures forall id :: id in next <==> id in approved || (id !in INHERITED && Named(registry, i + 1, id))
  {
    NamedNext(registry, i);
    assert forall id :: id in next <==> id in all || id == registry[i].id;
  }

  /** What boot has recorded lets the next start choose: a new connector is approved under the surface it had then. */
  method SeedThenChoose(hash: Hash, cfg: map<string, bool>, approved: map<string, string>, registry: seq<Surface>)
    returns (seeded: Option<map<string, string>>, chosen: Option<seq<Surface>>)
    requires forall i, j :: 0 <= i < j < |registry| ==> registry[i].id != registry[j].id
    ensures seeded.None? ==> chosen.None?
    ensures chosen.Some? ==> forall c | c in registry && !Recorded(approved, c.id) && Enabled(cfg, c) :: c in chosen.value
  {
    seeded := SeedMissing(hash, approved, registry);
    if seeded.None? { return seeded, None; }
    chosen := EnabledConnectors(hash, cfg, seeded.value, registry);
    if chosen.Some? {
      forall c | c in registry && !Recorded(approved, c.id) && Enabled(cfg, c) ensures c in chosen.value {
        var i :| 0 <= i < |registry| && registry[i] == c;
        assert NewAt(approved, registry, i);
      }
    }
  }
}
