/**
 Canonical JSON for signing (packages/shared/src/catalog-signing.ts). A number is represented by its
 JSON text, which JSON.stringify makes unique. Objects list their members in insertion order.
 */
module Canonical {
  import opened Wrappers
  import opened Keys
  import opened JsonStrings

  datatype Json =
    | JNull
    | JBool(b: bool)
    | JNum(text: Str)
    | JStr(s: Str)
    | JArr(items: seq<Json>)
    | JObj(members: seq<Pair<Json>>)

  const COMMA: Unit := 0x2C
  const COLON: Unit := 0x3A
  const LBRACKET: Unit := 0x5B
  const RBRACKET: Unit := 0x5D
  const LBRACE: Unit := 0x7B
  const RBRACE: Unit := 0x7D
  const NULL_TEXT: Str := [0x6E, 0x75, 0x6C, 0x6C]
  const TRUE_TEXT: Str := [0x74, 0x72, 0x75, 0x65]
  const FALSE_TEXT: Str := [0x66, 0x61, 0x6C, 0x73, 0x65]

  /** The units of a JSON number: digits, `+`, `-`, `.`, `e`, `E`. */
  predicate NumUnit(u: Unit) {
    0x30 <= u <= 0x39 || u == 0x2B || u == 0x2D || u == 0x2E || u == 0x65 || u == 0x45
  }

  /** A JavaScript value: number texts are number texts, and no object has a key twice. */
  ghost predicate WellFormed(v: Json) {
    match v
    case JNum(t) => t != [] && forall i :: 0 <= i < |t| ==> NumUnit(t[i])
    case JArr(items) => forall i :: 0 <= i < |items| ==> WellFormed(items[i])
    case JObj(ms) => DistinctKeys(ms) && forall i :: 0 <= i < |ms| ==> WellFormed(ms[i].value)
    case _ => true
  }

  function JoinComma(parts: seq<Str>): Str {
    if parts == [] then []
    else if |parts| == 1 then parts[0]
    else parts[0] + [COMMA] + JoinComma(parts[1..])
  }

  function EntryTexts(es: seq<Pair<Str>>): seq<Str> {
    if es == [] then [] else [Quote(es[0].key) + [COLON] + es[0].value] + EntryTexts(es[1..])
  }

  /** `canon`: keys sorted at every level. */
  function Canon(v: Json): Str
    decreases v, 1
  {
    match v
    case JNull => NULL_TEXT
    case JBool(b) => if b then TRUE_TEXT else FALSE_TEXT
    case JNum(t) => t
    case JStr(s) => Quote(s)
    case JArr(items) => [LBRACKET] + JoinComma(CanonAll(items)) + [RBRACKET]
    case JObj(ms) => [LBRACE] + JoinComma(EntryTexts(Sort(Entries(ms)))) + [RBRACE]
  }

  function CanonAll(items: seq<Json>): seq<Str>
    decreases items, 0
  {
    if items == [] then [] else [Canon(items[0])] + CanonAll(items[1..])
  }

  /** Each key with its canonical value, in insertion order. */
  function Entries(ms: seq<Pair<Json>>): seq<Pair<Str>>
    decreases ms, 0
  {
    if ms == [] then [] else [Pair(ms[0].key, Canon(ms[0].value))] + Entries(ms[1..])
  }

  /** The value with every object's members in key order. */
  function Norm(v: Json): Json
    decreases v, 1
  {
    match v
    case JArr(items) => JArr(NormAll(items))
    case JObj(ms) => JObj(Sort(NormMembers(ms)))
    case _ => v
  }

  function NormAll(items: seq<Json>): (out: seq<Json>)
    ensures |out| == |items|
    decreases items, 0
  {
    if items == [] then [] else [Norm(items[0])] + NormAll(items[1..])
  }

  function NormMembers(ms: seq<Pair<Json>>): (out: seq<Pair<Json>>)
    ensures |out| == |ms|
    decreases ms, 0
  {
    if ms == [] then [] else [Pair(ms[0].key, Norm(ms[0].value))] + NormMembers(ms[1..])
  }

  /** The member under a key: an object read as a finite map. */
  function Lookup(ms: seq<Pair<Json>>, k: Str): (r: Option<Json>)
    ensures r.Some? ==> exists i :: 0 <= i < |ms| && ms[i] == Pair(k, r.value)
    ensures r.None? ==> forall i :: 0 <= i < |ms| ==> ms[i].key != k
  {
    if ms == [] then None
    else if ms[0].key == k then assert ms[0] == Pair(k, ms[0].value); Some(ms[0].value)
    else
      var r := Lookup(ms[1..], k);
      assert r.Some? ==> exists i :: 0 <= i < |ms[1..]| && ms[i + 1] == ms[1..][i] == Pair(k, r.value);
      r
  }

  /** Equal as JSON values, with objects read as finite maps. */
  ghost predicate Same(a: Json, b: Json)
    decreases a
  {
    match (a, b)
    case (JArr(xs), JArr(ys)) => |xs| == |ys| && forall i :: 0 <= i < |xs| ==> Same(xs[i], ys[i])
    case (JObj(ms), JObj(ns)) =>
      && (forall i :: 0 <= i < |ms| ==>
            Lookup(ns, ms[i].key).Some? && Same(ms[i].value, Lookup(ns, ms[i].key).value))
      && (forall j :: 0 <= j < |ns| ==> Lookup(ms, ns[j].key).Some?)
    case (JArr(_), _) => false
    case (JObj(_), _) => false
    case (_, _) => a == b
  }

  // ----- a reader for JSON text without white space (RFC 8259) -----

  datatype Got<T> = Fail | Got(value: T, rest: Str)

  predicate StartsWith(z: Str, p: Str) { |p| <= |z| && z[..|p|] == p }

  function NumLength(z: Str): (n: nat)
    ensures n <= |z|
  {
    if z != [] && NumUnit(z[0]) then 1 + NumLength(z[1..]) else 0
  }

  function ReadValue(z: Str): (r: Got<Json>)
    ensures r.Got? ==> |r.rest| < |z|
    decreases |z|, 1
  {
    if z == [] then Fail
    else if z[0] == LBRACKET then
      if |z| > 1 && z[1] == RBRACKET then Got(JArr([]), z[2..])
      else match ReadItems(z[1..]) case Fail => Fail case Got(items, rest) => Got(JArr(items), rest)
    else if z[0] == LBRACE then
      if |z| > 1 && z[1] == RBRACE then Got(JObj([]), z[2..])
      else match ReadMembers(z[1..]) case Fail => Fail case Got(ms, rest) => Got(JObj(ms), rest)
    else if z[0] == QUOTE then
      match ReadBody(z[1..]) case Bad => Fail case Read(s, rest) => Got(JStr(s), rest)
    else if StartsWith(z, NULL_TEXT) then Got(JNull, z[4..])
    else if StartsWith(z, TRUE_TEXT) then Got(JBool(true), z[4..])
    else if StartsWith(z, FALSE_TEXT) then Got(JBool(false), z[5..])
    else
      var n := NumLength(z);
      if n == 0 then Fail else Got(JNum(z[..n]), z[n..])
  }

  function ReadItems(z: Str): (r: Got<seq<Json>>)
    ensures r.Got? ==> |r.rest| < |z|
    decreases |z|, 2
  {
    match ReadValue(z)
    case Fail => Fail
    case Got(v, rest) =>
      if rest != [] && rest[0] == COMMA then
        match ReadItems(rest[1..]) case Fail => Fail case Got(vs, rest') => Got([v] + vs, rest')
      else if rest != [] && rest[0] == RBRACKET then Got([v], rest[1..])
      else Fail
  }

  function ReadMembers(z: Str): (r: Got<seq<Pair<Json>>>)
    ensures r.Got? ==> |r.rest| < |z|
    decreases |z|, 2
  {
    if z == [] || z[0] != QUOTE then Fail
    else
      match ReadBody(z[1..])
      case Bad => Fail
      case Read(k, colon) =>
        if colon == [] || colon[0] != COLON then Fail
        else
          match ReadValue(colon[1..])
          case Fail => Fail
          case Got(v, rest) =>
            if rest != [] && rest[0] == COMMA then
              match ReadMembers(rest[1..]) case Fail => Fail case Got(ms, rest') => Got([Pair(k, v)] + ms, rest')
            else if rest != [] && rest[0] == RBRACE then Got([Pair(k, v)], rest[1..])
            else Fail
  }

  // ----- reading undoes writing -----

  /** What may follow a value: nothing that could continue a number. */
  ghost predicate Delim(rest: Str) { rest == [] || !NumUnit(rest[0]) }

  lemma {:induction false} NumLengthExact(t: Str, rest: Str)
    requires (forall i :: 0 <= i < |t| ==> NumUnit(t[i])) && Delim(rest)
    ensures NumLength(t + rest) == |t|
  {
    if t == [] {
      assert t + rest == rest;
    } else {
      assert (t + rest)[1..] == t[1..] + rest;
      NumLengthExact(t[1..], rest);
    }
  }

  lemma CanonHead(v: Json)
    requires WellFormed(v)
    ensures Canon(v) != [] && Canon(v)[0] != RBRACKET && Canon(v)[0] != RBRACE
  {
    match v
    case JNum(t) => assert NumUnit(t[0]);
    case _ =>
  }

  lemma NumReads(t: Str, rest: Str)
    requires t != [] && (forall i :: 0 <= i < |t| ==> NumUnit(t[i])) && Delim(rest)
    ensures ReadValue(t + rest) == Got(JNum(t), rest)
  {
    NumLengthExact(t, rest);
    var z := t + rest;
    assert NumUnit(z[0]) && z[..|t|] == t && z[|t|..] == rest;
    HeadDiffers(z, NULL_TEXT);
    HeadDiffers(z, TRUE_TEXT);
    HeadDiffers(z, FALSE_TEXT);
  }

  lemma HeadDiffers(z: Str, p: Str)
    requires z != [] && p != [] && z[0] != p[0]
    ensures !StartsWith(z, p)
  {
    if |p| <= |z| { assert z[..|p|][0] == z[0]; }
  }

  lemma LiteralReads(v: Json, rest: Str)
    requires v.JNull? || v.JBool?
    ensures ReadValue(Canon(v) + rest) == Got(v, rest)
  {
    var z := Canon(v) + rest;
    assert z[..|Canon(v)|] == Canon(v) && z[|Canon(v)|..] == rest && z[0] == Canon(v)[0];
  }

  lemma StringReads(s: Str, rest: Str)
    ensures ReadValue(Quote(s) + rest) == Got(JStr(s), rest)
  {
    EscapeReads(s, rest);
    assert (Quote(s) + rest)[1..] == Escape(s) + [QUOTE] + rest;
  }

  /** Reading a canonical text gives back the value in normal form and stops where it ends. */
  lemma {:induction false} CanonReads(v: Json, rest: Str)
    requires WellFormed(v) && Delim(rest)
    ensures ReadValue(Canon(v) + rest) == Got(Norm(v), rest)
    decreases v, 2
  {
    match v
    case JNull => LiteralReads(v, rest);
    case JBool(b) => LiteralReads(v, rest);
    case JNum(t) => NumReads(t, rest);
    case JStr(s) => StringReads(s, rest);
    case JArr(items) =>
      if items != [] { ItemsRead(v, items, rest); }
      ArrReads(items, rest);
    case JObj(ms) =>
      var ss := Sort(ms);
      SortSorted(ms);
      SortLength(ms);
      forall i | 0 <= i < |ss| ensures ss[i].value < v && WellFormed(ss[i].value) {
        assert ss[i] in ms;
        var j :| 0 <= j < |ms| && ms[j] == ss[i];
      }
      if ms != [] { MembersRead(v, ss, rest); }
      ObjReads(ms, rest);
  }

  lemma ArrReads(items: seq<Json>, rest: Str)
    requires items != [] ==>
      WellFormed(items[0]) && ReadItems(JoinComma(CanonAll(items)) + [RBRACKET] + rest) == Got(NormAll(items), rest)
    ensures ReadValue(Canon(JArr(items)) + rest) == Got(Norm(JArr(items)), rest)
  {
    var z := Canon(JArr(items)) + rest;
    if items == [] {
      assert CanonAll(items) == [] && Canon(JArr(items)) == [LBRACKET, RBRACKET];
      assert z == [LBRACKET, RBRACKET] + rest && z[2..] == rest;
    } else {
      assert z[1..] == JoinComma(CanonAll(items)) + [RBRACKET] + rest;
      ItemsHead(items);
    }
  }

  lemma ObjReads(ms: seq<Pair<Json>>, rest: Str)
    requires var ss := Sort(ms);
      ms != [] ==> ss != [] && ReadMembers(JoinComma(EntryTexts(Entries(ss))) + [RBRACE] + rest) == Got(NormMembers(ss), rest)
    ensures ReadValue(Canon(JObj(ms)) + rest) == Got(Norm(JObj(ms)), rest)
  {
    var z := Canon(JObj(ms)) + rest;
    if ms == [] {
      assert Entries(ms) == [] && Canon(JObj(ms)) == [LBRACE, RBRACE];
      assert z == [LBRACE, RBRACE] + rest && z[2..] == rest;
    } else {
      EntriesSort(ms);
      NormSort(ms);
      assert z[1..] == JoinComma(EntryTexts(Entries(Sort(ms)))) + [RBRACE] + rest;
      MembersHead(Entries(Sort(ms)));
    }
  }

  lemma ItemsHead(items: seq<Json>)
    requires items != [] && WellFormed(items[0])
    ensures var t := JoinComma(CanonAll(items)); t != [] && t[0] != RBRACKET
  {
    CanonHead(items[0]);
  }

  lemma MembersHead(es: seq<Pair<Str>>)
    requires es != []
    ensures var t := JoinComma(EntryTexts(es)); t != [] && t[0] == QUOTE
  {}

  lemma ItemLast(v: Json, text: Str, rest: Str)
    requires ReadValue(text + ([RBRACKET] + rest)) == Got(v, [RBRACKET] + rest)
    ensures ReadItems(text + ([RBRACKET] + rest)) == Got([v], rest)
  {
    assert ([RBRACKET] + rest)[1..] == rest;
  }

  lemma ItemNext(v: Json, text: Str, tail: Str, vs: seq<Json>, rest: Str)
    requires ReadValue(text + ([COMMA] + tail)) == Got(v, [COMMA] + tail)
    requires ReadItems(tail) == Got(vs, rest)
    ensures ReadItems(text + ([COMMA] + tail)) == Got([v] + vs, rest)
  {
    assert ([COMMA] + tail)[1..] == tail;
  }

  lemma CanonAllHead(items: seq<Json>)
    requires items != []
    ensures JoinComma(CanonAll(items))
         == if |items| == 1 then Canon(items[0]) else Canon(items[0]) + [COMMA] + JoinComma(CanonAll(items[1..]))
  {
    assert CanonAll(items)[1..] == CanonAll(items[1..]);
    if |items| > 1 { assert CanonAll(items[1..]) != []; }
  }

  /** Every value is a well-formed part of `ctx`. */
  ghost predicate PartsOf(items: seq<Json>, ctx: Json) {
    forall i :: 0 <= i < |items| ==> items[i] < ctx && WellFormed(items[i])
  }

  ghost predicate MembersOf(ms: seq<Pair<Json>>, ctx: Json) {
    forall i :: 0 <= i < |ms| ==> ms[i].value < ctx && WellFormed(ms[i].value)
  }

  lemma {:induction false} ItemsRead(ctx: Json, items: seq<Json>, rest: Str)
    requires items != [] && PartsOf(items, ctx)
    ensures ReadItems(JoinComma(CanonAll(items)) + [RBRACKET] + rest) == Got(NormAll(items), rest)
    decreases ctx, 1, |items|
  {
    var v, text := items[0], Canon(items[0]);
    CanonAllHead(items);
    if |items| == 1 {
      CanonReads(v, [RBRACKET] + rest);
      ItemLast(Norm(v), text, rest);
      RegroupItems(text, [], rest);
      assert NormAll(items[1..]) == [] && NormAll(items) == [Norm(v)];
    } else {
      var more := JoinComma(CanonAll(items[1..]));
      var tail := more + [RBRACKET] + rest;
      CanonReads(v, [COMMA] + tail);
      ItemsRead(ctx, items[1..], rest);
      ItemNext(Norm(v), text, tail, NormAll(items[1..]), rest);
      RegroupItems(text, more, rest);
    }
  }

  lemma RegroupItems(text: Str, more: Str, rest: Str)
    ensures text + [RBRACKET] + rest == text + ([RBRACKET] + rest)
    ensures (text + [COMMA] + more) + [RBRACKET] + rest == text + ([COMMA] + (more + [RBRACKET] + rest))
  {}

  /** The key of a member text reads up to its colon. */
  lemma KeyReads(k: Str, z: Str)
    ensures var y := Quote(k) + [COLON] + z;
      y[0] == QUOTE && ReadBody(y[1..]) == Read(k, [COLON] + z)
  {
    EscapeReads(k, [COLON] + z);
    assert (Quote(k) + [COLON] + z)[1..] == Escape(k) + [QUOTE] + ([COLON] + z);
  }

  lemma MemberLast(k: Str, v: Json, text: Str, rest: Str)
    requires ReadValue(text + ([RBRACE] + rest)) == Got(v, [RBRACE] + rest)
    ensures ReadMembers(Quote(k) + [COLON] + (text + ([RBRACE] + rest))) == Got([Pair(k, v)], rest)
  {
    var z := text + ([RBRACE] + rest);
    KeyReads(k, z);
    assert ([COLON] + z)[1..] == z && ([RBRACE] + rest)[1..] == rest;
  }

  lemma MemberNext(k: Str, v: Json, text: Str, tail: Str, ms: seq<Pair<Json>>, rest: Str)
    requires ReadValue(text + ([COMMA] + tail)) == Got(v, [COMMA] + tail)
    requires ReadMembers(tail) == Got(ms, rest)
    ensures ReadMembers(Quote(k) + [COLON] + (text + ([COMMA] + tail))) == Got([Pair(k, v)] + ms, rest)
  {
    var z := text + ([COMMA] + tail);
    KeyReads(k, z);
    assert ([COLON] + z)[1..] == z && ([COMMA] + tail)[1..] == tail;
  }

  lemma EntriesHead(ms: seq<Pair<Json>>)
    requires ms != []
    ensures var head := Quote(ms[0].key) + [COLON] + Canon(ms[0].value);
      JoinComma(EntryTexts(Entries(ms)))
      == if |ms| == 1 then head else head + [COMMA] + JoinComma(EntryTexts(Entries(ms[1..])))
  {
    assert Entries(ms)[1..] == Entries(ms[1..]);
    assert EntryTexts(Entries(ms))[1..] == EntryTexts(Entries(ms[1..]));
    if |ms| > 1 { assert Entries(ms[1..]) != []; }
  }

  lemma {:induction false} MembersRead(ctx: Json, ms: seq<Pair<Json>>, rest: Str)
    requires ms != [] && MembersOf(ms, ctx)
    ensures ReadMembers(JoinComma(EntryTexts(Entries(ms))) + [RBRACE] + rest) == Got(NormMembers(ms), rest)
    decreases ctx, 1, |ms|
  {
    var k, v, text := ms[0].key, ms[0].value, Canon(ms[0].value);
    EntriesHead(ms);
    if |ms| == 1 {
      CanonReads(v, [RBRACE] + rest);
      MemberLast(k, Norm(v), text, rest);
      Regroup(Quote(k), text, [RBRACE], rest);
      assert NormMembers(ms[1..]) == [] && NormMembers(ms) == [Pair(k, Norm(v))];
    } else {
      var more := JoinComma(EntryTexts(Entries(ms[1..])));
      var tail := more + [RBRACE] + rest;
      CanonReads(v, [COMMA] + tail);
      MembersRead(ctx, ms[1..], rest);
      MemberNext(k, Norm(v), text, tail, NormMembers(ms[1..]), rest);
      RegroupNext(Quote(k), text, more, rest);
    }
  }

  lemma Regroup(q: Str, text: Str, close: Str, rest: Str)
    ensures q + [COLON] + text + close + rest == q + [COLON] + (text + (close + rest))
  {}

  lemma RegroupNext(q: Str, text: Str, more: Str, rest: Str)
    ensures (q + [COLON] + text + [COMMA] + more) + [RBRACE] + rest
         == q + [COLON] + (text + ([COMMA] + (more + [RBRACE] + rest)))
  {}

  // ----- sorting commutes with canonicalising the values -----

  lemma {:induction false} SortLength<T>(s: seq<Pair<T>>)
    ensures |Sort(s)| == |s|
  {
    if s != [] { SortLength(s[1..]); InsertLength(s[0], Sort(s[1..])); }
  }

  lemma {:induction false} InsertLength<T>(p: Pair<T>, s: seq<Pair<T>>)
    ensures |Insert(p, s)| == |s| + 1
  {
    if s != [] { InsertLength(p, s[1..]); }
  }

  lemma {:induction false} EntriesInsert(p: Pair<Json>, ms: seq<Pair<Json>>)
    ensures Entries(Insert(p, ms)) == Insert(Pair(p.key, Canon(p.value)), Entries(ms))
  {
    if ms == [] || Less(p.key, ms[0].key) {
      assert ([p] + ms)[1..] == ms;
    } else {
      EntriesInsert(p, ms[1..]);
      assert Entries(ms)[1..] == Entries(ms[1..]);
      assert ([ms[0]] + Insert(p, ms[1..]))[1..] == Insert(p, ms[1..]);
    }
  }

  lemma {:induction false} EntriesSort(ms: seq<Pair<Json>>)
    ensures Entries(Sort(ms)) == Sort(Entries(ms))
  {
    if ms != [] {
      EntriesSort(ms[1..]);
      EntriesInsert(ms[0], Sort(ms[1..]));
      assert Entries(ms)[1..] == Entries(ms[1..]);
    }
  }

  lemma {:induction false} NormInsert(p: Pair<Json>, ms: seq<Pair<Json>>)
    ensures NormMembers(Insert(p, ms)) == Insert(Pair(p.key, Norm(p.value)), NormMembers(ms))
  {
    if ms == [] || Less(p.key, ms[0].key) {
      assert ([p] + ms)[1..] == ms;
    } else {
      NormInsert(p, ms[1..]);
      assert NormMembers(ms)[1..] == NormMembers(ms[1..]);
      assert ([ms[0]] + Insert(p, ms[1..]))[1..] == Insert(p, ms[1..]);
    }
  }

  lemma {:induction false} NormSort(ms: seq<Pair<Json>>)
    ensures NormMembers(Sort(ms)) == Sort(NormMembers(ms))
  {
    if ms != [] {
      NormSort(ms[1..]);
      NormInsert(ms[0], Sort(ms[1..]));
      assert NormMembers(ms)[1..] == NormMembers(ms[1..]);
    }
  }

  // ----- faithful normal form -----

  lemma {:induction false} NormMembersAt(ms: seq<Pair<Json>>, i: nat)
    requires i < |ms|
    ensures NormMembers(ms)[i] == Pair(ms[i].key, Norm(ms[i].value))
  {
    if i > 0 { NormMembersAt(ms[1..], i - 1); }
  }

  lemma {:induction false} NormAllAt(items: seq<Json>, i: nat)
    requires i < |items|
    ensures NormAll(items)[i] == Norm(items[i])
  {
    if i > 0 { NormAllAt(items[1..], i - 1); }
  }

  lemma NormDistinct(ms: seq<Pair<Json>>)
    requires DistinctKeys(ms)
    ensures DistinctKeys(NormMembers(ms))
  {
    forall i | 0 <= i < |ms| { NormMembersAt(ms, i); }
  }

  /** A member of one object has a partner in the other when their normal forms agree. */
  lemma Partner(ms: seq<Pair<Json>>, ns: seq<Pair<Json>>, i: nat)
    requires DistinctKeys(ms) && DistinctKeys(ns) && Sort(NormMembers(ms)) == Sort(NormMembers(ns)) && i < |ms|
    ensures Lookup(ns, ms[i].key).Some? && Norm(Lookup(ns, ms[i].key).value) == Norm(ms[i].value)
  {
    NormDistinct(ms);
    NormDistinct(ns);
    SortSorted(NormMembers(ms));
    SortSorted(NormMembers(ns));
    NormMembersAt(ms, i);
    var p := NormMembers(ms)[i];
    assert p in Sort(NormMembers(ms));
    assert p in NormMembers(ns);
    var j :| 0 <= j < |ns| && NormMembers(ns)[j] == p;
    NormMembersAt(ns, j);
    assert ns[j].key == ms[i].key;
  }

  lemma {:induction false} NormSame(a: Json, b: Json)
    requires WellFormed(a) && WellFormed(b) && Norm(a) == Norm(b)
    ensures Same(a, b)
    decreases a
  {
    match a
    case JArr(xs) =>
      forall i | 0 <= i < |xs| ensures Same(xs[i], b.items[i]) {
        NormAllAt(xs, i);
        NormAllAt(b.items, i);
        NormSame(xs[i], b.items[i]);
      }
    case JObj(ms) =>
      var ns := b.members;
      forall i | 0 <= i < |ms|
        ensures Lookup(ns, ms[i].key).Some? && Same(ms[i].value, Lookup(ns, ms[i].key).value)
      {
        Partner(ms, ns, i);
        NormSame(ms[i].value, Lookup(ns, ms[i].key).value);
      }
      forall j | 0 <= j < |ns| ensures Lookup(ms, ns[j].key).Some? { Partner(ns, ms, j); }
    case _ =>
  }

  lemma {:induction false} EntriesAt(ms: seq<Pair<Json>>, i: nat)
    requires i < |ms|
    ensures |Entries(ms)| == |ms| && Entries(ms)[i] == Pair(ms[i].key, Canon(ms[i].value))
  {
    if |ms| > 1 { EntriesAt(ms[1..], if i > 0 then i - 1 else 0); }
  }

  lemma EntriesDistinct(ms: seq<Pair<Json>>)
    requires DistinctKeys(ms)
    ensures DistinctKeys(Entries(ms))
  {
    forall i | 0 <= i < |ms| { EntriesAt(ms, i); }
    if ms != [] { EntriesAt(ms, 0); }
  }

  lemma EntryFrom(ms: seq<Pair<Json>>, e: Pair<Str>) returns (i: nat)
    requires e in Entries(ms)
    ensures i < |ms| && e == Pair(ms[i].key, Canon(ms[i].value))
  {
    var k :| 0 <= k < |Entries(ms)| && Entries(ms)[k] == e;
    if ms != [] { EntriesAt(ms, 0); }
    EntriesAt(ms, k);
    i := k;
  }

  lemma {:induction false} CanonAllAt(items: seq<Json>, i: nat)
    requires i < |items|
    ensures |CanonAll(items)| == |items| && CanonAll(items)[i] == Canon(items[i])
  {
    if |items| > 1 { CanonAllAt(items[1..], if i > 0 then i - 1 else 0); }
  }

  lemma {:induction false} CanonAllLength(items: seq<Json>)
    ensures |CanonAll(items)| == |items|
  {
    if items != [] { CanonAllLength(items[1..]); }
  }

  lemma CanonAllEqual(xs: seq<Json>, ys: seq<Json>)
    requires |xs| == |ys| && forall i :: 0 <= i < |xs| ==> Canon(xs[i]) == Canon(ys[i])
    ensures CanonAll(xs) == CanonAll(ys)
  {
    CanonAllLength(xs);
    CanonAllLength(ys);
    forall i | 0 <= i < |xs| ensures CanonAll(xs)[i] == CanonAll(ys)[i] { CanonAllAt(xs, i); CanonAllAt(ys, i); }
  }

  lemma {:induction false} SameCanon(a: Json, b: Json)
    requires WellFormed(a) && WellFormed(b) && Same(a, b)
    ensures Canon(a) == Canon(b)
    decreases a
  {
    match a
    case JArr(xs) =>
      forall i | 0 <= i < |xs| ensures Canon(xs[i]) == Canon(b.items[i]) { SameCanon(xs[i], b.items[i]); }
      CanonAllEqual(xs, b.items);
    case JObj(ms) =>
      var ns := b.members;
      forall i | 0 <= i < |ms| ensures Canon(ms[i].value) == Canon(Lookup(ns, ms[i].key).value) {
        SameCanon(ms[i].value, Lookup(ns, ms[i].key).value);
      }
      SameEntries(ms, ns);
      EntriesDistinct(ms);
      EntriesDistinct(ns);
      SortSorted(Entries(ms));
      SortSorted(Entries(ns));
      SortedUnique(Sort(Entries(ms)), Sort(Entries(ns)));
    case _ =>
  }

  /** Two objects equal as maps have the same entries, in some order. */
  lemma SameEntries(ms: seq<Pair<Json>>, ns: seq<Pair<Json>>)
    requires DistinctKeys(ms) && DistinctKeys(ns)
    requires forall i :: 0 <= i < |ms| ==>
      Lookup(ns, ms[i].key).Some? && Canon(ms[i].value) == Canon(Lookup(ns, ms[i].key).value)
    requires forall j :: 0 <= j < |ns| ==> Lookup(ms, ns[j].key).Some?
    ensures forall e :: e in Entries(ms) <==> e in Entries(ns)
  {
    forall e | e in Entries(ms) ensures e in Entries(ns) {
      var i := EntryFrom(ms, e);
      var w := Lookup(ns, ms[i].key).value;
      var j :| 0 <= j < |ns| && ns[j] == Pair(ms[i].key, w);
      EntriesAt(ns, j);
    }
    forall e | e in Entries(ns) ensures e in Entries(ms) {
      var j := EntryFrom(ns, e);
      var v := Lookup(ms, ns[j].key).value;
      var i :| 0 <= i < |ms| && ms[i] == Pair(ns[j].key, v);
      EntriesAt(ms, i);
      var j' :| 0 <= j' < |ns| && ns[j'] == Pair(ms[i].key, Lookup(ns, ms[i].key).value);
      assert j' == j;
    }
  }

  /** The round trip: a JSON reader recovers the value, members sorted, from its canonical text. */
  lemma CanonRoundTrip(v: Json)
    requires WellFormed(v)
    ensures ReadValue(Canon(v)) == Got(Norm(v), [])
  {
    CanonReads(v, []);
    assert Canon(v) + [] == Canon(v);
  }

  /** Two values get the same signed bytes exactly when they are equal with objects read as maps. */
  lemma CanonFaithful(a: Json, b: Json)
    requires WellFormed(a) && WellFormed(b)
    ensures Canon(a) == Canon(b) <==> Same(a, b)
  {
    if Canon(a) == Canon(b) {
      CanonRoundTrip(a);
      CanonRoundTrip(b);
      NormSame(a, b);
    }
    if Same(a, b) { SameCanon(a, b); }
  }
}
