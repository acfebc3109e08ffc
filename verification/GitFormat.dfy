/** What `git` prints for the pinned `git log` format. */
module GitFormat {
  import opened Wrappers
  import opened Text
  import opened GitLog
  import opened GitPaths

  /** Counts are None for a binary file, which git prints as `-`. */
  datatype GitFile = GitFile(insertions: Option<nat>, deletions: Option<nat>, path: GitPath)
  datatype GitCommit = GitCommit(
    sha: string, authorName: string, authorEmail: string, authoredAt: string, committedAt: string,
    parents: seq<string>, subject: string, body: string, files: seq<GitFile>)

  function CountText(n: Option<nat>): string {
    match n case None => "-" case Some(k) => Decimal(k)
  }

  function RowText(f: GitFile): string {
    Join([CountText(f.insertions), CountText(f.deletions), PathText(f.path)], "\t")
  }

  function RowsText(files: seq<GitFile>): string {
    if files == [] then "" else RowText(files[0]) + "\n" + RowsText(files[1..])
  }

  /** After the record: the end of its line, then, when files changed, a blank line and the rows. */
  function NumstatText(files: seq<GitFile>): string {
    "\n" + (if files == [] then "" else "\n" + RowsText(files))
  }

  /** `%b`: git ends a non-empty body with a newline. */
  function BodyText(body: string): string { if body == "" then "" else body + "\n" }

  function LastField(c: GitCommit): string {
    BodyText(c.body) + BODY_SEP + NumstatText(c.files)
  }

  /** `%H%x1f%an%x1f%ae%x1f%aI%x1f%cI%x1f%P%x1f%s%x1f%b%x1e` with its numstat block. */
  function Fields(c: GitCommit): (f: seq<string>)
    ensures |f| == 8
  {
    [c.sha, c.authorName, c.authorEmail, c.authoredAt, c.committedAt, Join(c.parents, " "), c.subject, LastField(c)]
  }

  function Block(c: GitCommit): string { Join(Fields(c), FIELD_SEP) }

  function Output(cs: seq<GitCommit>): string {
    if cs == [] then "" else RECORD_SEP + Block(cs[0]) + Output(cs[1..])
  }

  predicate Word(s: string) { s != "" && forall c | c in s :: !IsBlank(c) }

  ghost predicate GoodFile(f: GitFile) { GoodPath(f.path) }

  /** What git promises of its own output, and what the reader needs of paths and bodies. */
  ghost predicate Good(c: GitCommit) {
    && (forall i :: 0 <= i < 7 ==> US !in Fields(c)[i])
    && US !in c.body && RS !in c.body
    && (c.body != "" ==> !IsBlank(c.body[|c.body| - 1]))
    && (forall p | p in c.parents :: Word(p))
    && (forall f | f in c.files :: GoodFile(f))
  }

  /** A header field between two separators that reads `COMMIT` forms a record separator. */
  predicate Masked(c: GitCommit) {
    exists i :: 1 <= i < 7 && Fields(c)[i] == COMMIT
  }

  function ExpectedFile(f: GitFile): FileChange {
    FileChange(NewPath(f.path), if f.path.Plain? then Modified else Renamed,
               match f.insertions case None => 0 case Some(n) => n,
               match f.deletions case None => 0 case Some(n) => n)
  }

  function ExpectedFiles(files: seq<GitFile>): seq<FileChange> {
    if files == [] then [] else [ExpectedFile(files[0])] + ExpectedFiles(files[1..])
  }

  /** The commit as captured: message from subject and body, totals summed over its files. */
  function Expected(c: GitCommit): Commit {
    var files := ExpectedFiles(c.files);
    Commit(c.sha, c.authorName, c.authorEmail, c.authoredAt, c.committedAt,
           if c.body != "" then c.subject + "\n\n" + c.body else c.subject,
           c.parents,
           StartsWith(c.subject, "Revert ") || Includes(c.body, REVERTS),
           |files|, TotalInsertions(files), TotalDeletions(files), files)
  }

  /** The commits no header field masks, in order. */
  function Recovered(cs: seq<GitCommit>): seq<Commit> {
    if cs == [] then []
    else (if Masked(cs[0]) then [] else [Expected(cs[0])]) + Recovered(cs[1..])
  }
}
