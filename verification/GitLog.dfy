/** Reading `git log` output (apps/collector/src/discovery/git-reader.ts) against its pinned format. */
module GitLog {
  import opened Wrappers
  import opened Text

  const US: char := 0x1F as char
  const RS: char := 0x1E as char
  const FIELD_SEP: string := [US]
  const BODY_SEP: string := [RS]
  const COMMIT: string := "COMMIT"
  const RECORD_SEP: string := [US] + COMMIT + [US]

  datatype Status = Renamed | Modified
  datatype FileChange = FileChange(path: string, status: Status, insertions: int, deletions: int)
  datatype Commit = Commit(
    sha: string, authorName: string, authorEmail: string, authoredAt: string, committedAt: string,
    message: string, parents: seq<string>, isRevert: bool,
    filesChanged: nat, insertions: int, deletions: int, files: seq<FileChange>)

  // ----- numstat -----

  /** `raw.replace(/\{[^}]*=>\s*([^}]*)\}/g, "$1")`. */
  function CollapseBraces(s: string): string
    decreases |s|
  {
    if s == "" then ""
    else
      var close := IndexOf(s, "}");
      if s[0] == '{' && close > 0 && LastArrow(s[1..close]) >= 0 then
        TrimStart(s[1..close][LastArrow(s[1..close]) + 2..]) + CollapseBraces(s[close + 1..])
      else [s[0]] + CollapseBraces(s[1..])
  }

  /** The last place where `=>` occurs, or -1: where a greedy `[^}]*=>` ends up. */
  function LastArrow(s: string): (r: int)
    ensures r == -1 || At(s, r, "=>")
    decreases |s|
  {
    if |s| < 2 then -1
    else if s[|s| - 2..] == "=>" then |s| - 2
    else LastArrow(s[..|s| - 1])
  }

  /** `s.replace(/\/{2,}/g, "/")`. */
  function CollapseSlashes(s: string): string {
    if |s| < 2 then s
    else if s[0] == '/' && s[1] == '/' then CollapseSlashes(s[1..])
    else [s[0]] + CollapseSlashes(s[1..])
  }

  function NewPathOf(raw: string): string {
    if !Includes(raw, "=>") then raw
    else if '{' in raw then Trim(CollapseSlashes(CollapseBraces(raw)))
    else Trim(raw[IndexOf(raw, "=>") + 2..])
  }

  function LeadingDigits(s: string): string {
    if s != "" && IsDigit(s[0]) then [s[0]] + LeadingDigits(s[1..]) else ""
  }

  lemma {:induction false} LeadingDigitsAre(s: string)
    ensures forall c | c in LeadingDigits(s) :: IsDigit(c)
  {
    if s != "" && IsDigit(s[0]) { LeadingDigitsAre(s[1..]); }
  }

  /** `Number.parseInt(s, 10) || 0`. */
  function ParseInt(s: string): int {
    var t := TrimStart(s);
    var signed := t != "" && (t[0] == '-' || t[0] == '+');
    var digits := LeadingDigits(if signed then t[1..] else t);
    LeadingDigitsAre(if signed then t[1..] else t);
    var n: int := DigitsValue(digits);
    if signed && t[0] == '-' then -n else n
  }

  function Count(raw: string): int { if raw == "-" then 0 else ParseInt(raw) }

  /** One numstat row, or None for a blank or short line. */
  function ParseRow(line: string): Option<FileChange> {
    var trimmed := Trim(line);
    if trimmed == "" then None
    else
      var parts := Split(trimmed, "\t");
      if |parts| < 3 then None
      else
        Some(FileChange(NewPathOf(parts[2]), if Includes(parts[2], "=>") then Renamed else Modified,
                        Count(parts[0]), Count(parts[1])))
  }

  /** What one line adds to the list of files. */
  function OneRow(line: string): seq<FileChange> {
    match ParseRow(line) case None => [] case Some(f) => [f]
  }

  function ParseRows(lines: seq<string>): seq<FileChange> { FlatMap(OneRow, lines) }

  function FlatMap<A, B>(f: A -> seq<B>, xs: seq<A>): seq<B> {
    if xs == [] then [] else f(xs[0]) + FlatMap(f, xs[1..])
  }

  lemma {:induction false} FlatMapAppend<A, B>(f: A -> seq<B>, a: seq<A>, b: seq<A>)
    ensures FlatMap(f, a + b) == FlatMap(f, a) + FlatMap(f, b)
  {
    if a == [] {
      assert a + b == b;
    } else {
      assert (a + b)[0] == a[0] && (a + b)[1..] == a[1..] + b;
      FlatMapAppend(f, a[1..], b);
    }
  }

  lemma FlatMapOne<A, B>(f: A -> seq<B>, x: A)
    ensures FlatMap(f, [x]) == f(x)
  {
    assert [x][1..] == [];
  }

  function TotalInsertions(files: seq<FileChange>): int {
    if files == [] then 0 else files[0].insertions + TotalInsertions(files[1..])
  }

  function TotalDeletions(files: seq<FileChange>): int {
    if files == [] then 0 else files[0].deletions + TotalDeletions(files[1..])
  }

  method ParseNumstat(text: string) returns (files: seq<FileChange>, insertions: int, deletions: int)
    ensures files == ParseRows(Split(text, "\n"))
    ensures insertions == TotalInsertions(files) && deletions == TotalDeletions(files)
  {
    files, insertions, deletions := [], 0, 0;
    var lines := Split(text, "\n");
    for i := 0 to |lines|
      invariant files == ParseRows(lines[..i])
      invariant insertions == TotalInsertions(files) && deletions == TotalDeletions(files)
    {
      assert lines[..i + 1] == lines[..i] + [lines[i]];
      RowsAppend(lines[..i], [lines[i]]);
      RowsOne(lines[i]);
      var row := ParseRow(lines[i]);
      if row.Some? {
        TotalsAppend(files, [row.value]);
        assert [row.value][1..] == [];
        files := files + [row.value];
        insertions := insertions + row.value.insertions;
        deletions := deletions + row.value.deletions;
      }
    }
    assert lines[..|lines|] == lines;
  }

  lemma RowsAppend(a: seq<string>, b: seq<string>)
    ensures ParseRows(a + b) == ParseRows(a) + ParseRows(b)
  {
    FlatMapAppend(OneRow, a, b);
  }

  lemma RowsOne(line: string)
    ensures ParseRows([line]) == match ParseRow(line) case None => [] case Some(f) => [f]
  {
    FlatMapOne(OneRow, line);
  }

  lemma {:induction false} TotalsAppend(a: seq<FileChange>, b: seq<FileChange>)
    ensures TotalInsertions(a + b) == TotalInsertions(a) + TotalInsertions(b)
    ensures TotalDeletions(a + b) == TotalDeletions(a) + TotalDeletions(b)
  {
    if a == [] {
      assert a + b == b;
    } else {
      assert (a + b)[1..] == a[1..] + b;
      TotalsAppend(a[1..], b);
    }
  }

  // ----- records -----

  /** `s.split(/\s+/)` on a non-blank trimmed string. */
  function SplitBlanks(s: string): (parts: seq<string>)
    ensures parts != []
    decreases |s|
  {
    var n := WordLength(s);
    if n == |s| then [s] else assert |TrimStart(s[n..])| < |s| by { TrimStartShrinks(s, n); } [s[..n]] + SplitBlanks(TrimStart(s[n..]))
  }

  function WordLength(s: string): (n: nat)
    ensures n <= |s| && forall k :: 0 <= k < n ==> !IsBlank(s[k])
    ensures n < |s| ==> IsBlank(s[n])
  {
    if s == "" || IsBlank(s[0]) then 0 else 1 + WordLength(s[1..])
  }

  lemma TrimStartLength(s: string)
    ensures |TrimStart(s)| <= |s| && (s != "" && IsBlank(s[0]) ==> |TrimStart(s)| < |s|)
  {}

  lemma TrimStartShrinks(s: string, n: nat)
    requires n < |s| && IsBlank(s[n])
    ensures |TrimStart(s[n..])| < |s|
  {
    TrimStartLength(s[n..]);
  }

  function ParseParents(raw: string): seq<string> {
    if Trim(raw) == "" then [] else SplitBlanks(Trim(raw))
  }

  const REVERTS: string := "This reverts commit"

  function StartsWith(s: string, p: string): bool { |p| <= |s| && s[..|p|] == p }

  /** The commit the header fields, the body and the numstat rows stand for. */
  function Assemble(f: seq<string>, body: string, files: seq<FileChange>): Commit
    requires |f| >= 7
  {
    Commit(f[0], f[1], f[2], f[3], f[4],
           if body != "" then f[6] + "\n\n" + body else f[6],
           ParseParents(f[5]),
           StartsWith(f[6], "Revert ") || Includes(body, REVERTS),
           |files|, TotalInsertions(files), TotalDeletions(files), files)
  }

  function ParseBlock(block: string): Option<Commit> {
    if Trim(block) == "" then None
    else
      var fields := Split(block, FIELD_SEP);
      if |fields| < 8 then None
      else
        var last := fields[7];
        var sep := IndexOf(last, BODY_SEP);
        var body := TrimEnd(if sep >= 0 then last[..sep] else last);
        var numstat := if sep >= 0 then last[sep + 1..] else "";
        Some(Assemble(fields, body, ParseRows(Split(numstat, "\n"))))
  }

  /** What one block adds to the list of commits. */
  function OneBlock(block: string): seq<Commit> {
    match ParseBlock(block) case None => [] case Some(c) => [c]
  }

  function ParseBlocks(blocks: seq<string>): seq<Commit> { FlatMap(OneBlock, blocks) }

  function Parsed(stdout: string): seq<Commit> { ParseBlocks(Split(stdout, RECORD_SEP)) }

  lemma BlocksAppend(a: seq<string>, b: seq<string>)
    ensures ParseBlocks(a + b) == ParseBlocks(a) + ParseBlocks(b)
  {
    FlatMapAppend(OneBlock, a, b);
  }

  lemma BlocksOne(block: string)
    ensures ParseBlocks([block]) == match ParseBlock(block) case None => [] case Some(c) => [c]
  {
    FlatMapOne(OneBlock, block);
  }

  /** The body of the loop over the blocks. */
  method ReadBlock(block: string) returns (c: Option<Commit>)
    ensures c == ParseBlock(block)
  {
    if Trim(block) == "" { return None; }
    var fields := Split(block, FIELD_SEP);
    if |fields| < 8 { return None; }
    var sep := IndexOf(fields[7], BODY_SEP);
    var body := TrimEnd(if sep >= 0 then fields[7][..sep] else fields[7]);
    var numstat := if sep >= 0 then fields[7][sep + 1..] else "";
    var files, insertions, deletions := ParseNumstat(numstat);
    var message := if body != "" then fields[6] + "\n\n" + body else fields[6];
    var isRevert := StartsWith(fields[6], "Revert ") || Includes(body, REVERTS);
    c := Some(Commit(fields[0], fields[1], fields[2], fields[3], fields[4], message, ParseParents(fields[5]),
                     isRevert, |files|, insertions, deletions, files));
  }

  method ParseGitLog(stdout: string) returns (commits: seq<Commit>)
    ensures commits == Parsed(stdout)
  {
    commits := [];
    var blocks := Split(stdout, RECORD_SEP);
    for i := 0 to |blocks|
      invariant commits == ParseBlocks(blocks[..i])
    {
      assert blocks[..i + 1] == blocks[..i] + [blocks[i]];
      BlocksAppend(blocks[..i], [blocks[i]]);
      BlocksOne(blocks[i]);
      var c := ReadBlock(blocks[i]);
      if c.Some? { commits := commits + [c.value]; }
    }
    assert blocks[..|blocks|] == blocks;
  }
}
