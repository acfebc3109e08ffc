/** apps/collector/src/fault.ts: the capture-fault record, one JSON file that outlives restarts. */
module FaultRecord {
  import opened Wrappers

  datatype Code = AuthRevoked | ArchiveUnreachable

  datatype Fault = Fault(code: Code, message: string, since: string,
                         lastObservedAt: Option<string>, url: string)

  /** What a property of the parsed file can be, as far as the validator looks. */
  datatype Field = Missing | Str(value: string) | Other

  /** What is on disk. Garbled: JSON that does not parse, or parses to something not an object. */
  datatype Disk =
    | NoFile
    | Garbled
    | Doc(code: Field, message: Field, since: Field, lastObservedAt: Field, url: Field)

  function CodeName(c: Code): string {
    match c
    case AuthRevoked => "auth_revoked"
    case ArchiveUnreachable => "archive_unreachable"
  }

  /** loadFault: absent, corrupt and ill-typed files all read as no record at all. */
  function Load(d: Disk): Option<Fault> {
    match d
    case NoFile => None
    case Garbled => None
    case Doc(code, message, since, last, url) =>
      if !code.Str? || (code.value != "auth_revoked" && code.value != "archive_unreachable") then None
      else if !message.Str? || !since.Str? then None
      else if !url.Str? then None
      else if last.Other? then None
      else Some(Fault(if code.value == "auth_revoked" then AuthRevoked else ArchiveUnreachable,
                      message.value, since.value,
                      if last.Str? then Some(last.value) else None, url.value))
  }

  /** writeFileSync of the record's JSON: an absent lastObservedAt is an absent property. */
  function Written(f: Fault): Disk {
    Doc(Str(CodeName(f.code)), Str(f.message), Str(f.since),
        if f.lastObservedAt.Some? then Str(f.lastObservedAt.value) else Missing, Str(f.url))
  }

  predicate SameFault(f: Fault, g: Fault) { f.code == g.code && f.url == g.url }

  function Save(d: Disk, f: Fault): Disk {
    var prior := Load(d);
    var continuing := prior.Some? && SameFault(prior.value, f);
    Written(f.(since := if continuing then prior.value.since else f.since,
               lastObservedAt := Some(if f.lastObservedAt.Some? then f.lastObservedAt.value else f.since)))
  }

  function Clear(d: Disk): Disk { NoFile }

  /** Nothing this module can write is ever rejected by its own reader. */
  lemma WrittenLoads(f: Fault)
    ensures Load(Written(f)) == Some(f)
  {
    assert CodeName(f.code)[1] != CodeName(if f.code.AuthRevoked? then ArchiveUnreachable else AuthRevoked)[1];
  }

  /** A file is read as a record exactly when it is that record as written. */
  lemma LoadExactly(d: Disk, f: Fault)
    ensures Load(d) == Some(f) <==> d == Written(f)
  {
    WrittenLoads(f);
  }

  datatype Op = Saving(fault: Fault) | Clearing

  function After(d: Disk, ops: seq<Op>): Disk {
    if ops == [] then d
    else
      var before := After(d, ops[..|ops| - 1]);
      match ops[|ops| - 1]
      case Saving(f) => Save(before, f)
      case Clearing => Clear(before)
  }

  predicate Observes(o: Op, p: Op) { o.Saving? && p.Saving? && SameFault(o.fault, p.fault) }

  /** ops[i..] is an unbroken run of observations of one fault. */
  predicate Unbroken(ops: seq<Op>, i: nat) {
    && i < |ops|
    && (forall k :: i <= k < |ops| ==> Observes(ops[k], ops[|ops| - 1]))
  }

  /** Nothing observed before ops[i] is the same outage: a clear, another fault, or no such record. */
  predicate Opens(d: Disk, ops: seq<Op>, i: nat)
    requires i < |ops| && ops[i].Saving?
  {
    if i == 0 then Load(d).None? || !SameFault(Load(d).value, ops[0].fault)
    else ops[i - 1].Clearing? || !SameFault(ops[i - 1].fault, ops[i].fault)
  }

  /**
   What the record says is read off the history alone: it is there exactly when the last operation
   was a save, and then `since` is the time of the first save of the unbroken run that ends there.
   */
  lemma {:induction false} Timeline(d: Disk, ops: seq<Op>, i: nat)
    requires Unbroken(ops, i) && Opens(d, ops, i)
    ensures var f := ops[|ops| - 1].fault;
            Load(After(d, ops)) == Some(f.(since := ops[i].fault.since,
              lastObservedAt := Some(if f.lastObservedAt.Some? then f.lastObservedAt.value else f.since)))
  {
    var n := |ops| - 1;
    var f := ops[n].fault;
    var before := After(d, ops[..n]);
    if i < n {
      assert Observes(ops[n - 1], ops[n]);
      Timeline(d, ops[..n], i);
    } else if i > 0 {
      LastSaved(d, ops[..n]);
    } else {
      assert ops[..n] == [];
    }
    var since := if Load(before).Some? && SameFault(Load(before).value, f) then Load(before).value.since else f.since;
    WrittenLoads(f.(since := since,
                    lastObservedAt := Some(if f.lastObservedAt.Some? then f.lastObservedAt.value else f.since)));
  }

  lemma LastSaved(d: Disk, ops: seq<Op>)
    requires ops != []
    ensures match ops[|ops| - 1]
            case Clearing => Load(After(d, ops)).None?
            case Saving(f) => Load(After(d, ops)).Some? && SameFault(Load(After(d, ops)).value, f)
  {
    var n := |ops| - 1;
    if ops[n].Saving? {
      var f := ops[n].fault;
      var before := After(d, ops[..n]);
      var since := if Load(before).Some? && SameFault(Load(before).value, f) then Load(before).value.since else f.since;
      WrittenLoads(f.(since := since,
                      lastObservedAt := Some(if f.lastObservedAt.Some? then f.lastObservedAt.value else f.since)));
    }
  }

  /**
   Every history that ends in a save has such a run, unless the run reaches back to the record
   found at the start, whose own clock it then continues.
   */
  lemma {:induction false} RunFound(d: Disk, ops: seq<Op>) returns (i: nat, inherited: bool)
    requires ops != [] && ops[|ops| - 1].Saving?
    ensures Unbroken(ops, i)
    ensures !inherited ==> Opens(d, ops, i)
    ensures inherited ==> i == 0 && Load(d).Some? && SameFault(Load(d).value, ops[0].fault)
    ensures inherited ==> Load(After(d, ops)).Some? && Load(After(d, ops)).value.since == Load(d).value.since
  {
    var n := |ops| - 1;
    var f := ops[n].fault;
    LastSaved(d, ops);
    if n > 0 && ops[n - 1].Saving? && SameFault(ops[n - 1].fault, f) {
      i, inherited := RunFound(d, ops[..n]);
      LastSaved(d, ops[..n]);
    } else {
      i := n;
      inherited := n == 0 && Load(d).Some? && SameFault(Load(d).value, f);
      assert n == 0 ==> ops[..n] == [];
    }
    if inherited {
      var before := After(d, ops[..n]);
      WrittenLoads(f.(since := Load(before).value.since,
                      lastObservedAt := Some(if f.lastObservedAt.Some? then f.lastObservedAt.value else f.since)));
    }
  }
}
