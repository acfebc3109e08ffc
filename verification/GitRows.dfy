/** How the reader takes one record of the pinned format: its numstat rows, parents and fields. */
module GitRows {
  import opened Wrappers
  import opened Text
  import opened GitLog
  import opened GitPaths
  import opened GitFormat

  lemma {:induction false} LeadingDigitsAll(s: string)
    requires forall c | c in s :: IsDigit(c)
    ensures LeadingDigits(s) == s
  {
    if s != "" {
      assert s[0] in s && forall c | c in s[1..] :: c in s;
      LeadingDigitsAll(s[1..]);
    }
  }

  lemma CountReads(n: Option<nat>)
    ensures Count(CountText(n)) == match n case None => 0 case Some(k) => k
    ensures CountText(n) != "" && !IsBlank(CountText(n)[0]) && '\t' !in CountText(n)
    ensures '\n' !in CountText(n) && US !in CountText(n)
  {
    match n
    case None =>
    case Some(k) =>
      var s := Decimal(k);
      assert s[0] in s && IsDigit(s[0]);
      assert s != "-";
      LeadingDigitsAll(s);
      DecimalValue(k);
  }

  lemma RowShape(f: GitFile)
    ensures RowText(f) == CountText(f.insertions) + "\t" + (CountText(f.deletions) + "\t" + PathText(f.path))
  {
    var parts := [CountText(f.insertions), CountText(f.deletions), PathText(f.path)];
    assert parts[1..] == [CountText(f.deletions), PathText(f.path)] && parts[1..][1..] == [PathText(f.path)];
    calc {
      RowText(f);
      parts[0] + "\t" + Join(parts[1..], "\t");
      parts[0] + "\t" + (parts[1] + "\t" + Join(parts[1..][1..], "\t"));
      parts[0] + "\t" + (parts[1] + "\t" + PathText(f.path));
    }
  }

  /** Any printable path column comes back with its counts, whatever it means. */
  lemma RowFields(a: string, b: string, path: string)
    requires a != "" && !IsBlank(a[0]) && '\t' !in a && '\t' !in b && Printable(path)
    ensures var row := a + "\t" + (b + "\t" + path);
      Trim(row) == row && row != "" && Split(row, "\t") == [a, b, path]
  {
    RowTight(a, b + "\t" + path);
    RowSplit(a, b, path);
  }

  lemma RowTight(a: string, rest: string)
    requires a != "" && !IsBlank(a[0]) && rest != "" && !IsBlank(rest[|rest| - 1])
    ensures var row := a + "\t" + rest; Trim(row) == row && row != ""
  {
    var row := a + "\t" + rest;
    assert row[0] == a[0] && row[|row| - 1] == rest[|rest| - 1];
    TrimTight(row);
  }

  lemma RowSplit(a: string, b: string, path: string)
    requires '\t' !in a && '\t' !in b && '\t' !in path
    ensures Split(a + "\t" + (b + "\t" + path), "\t") == [a, b, path]
  {
    ClearOfChar(a, '\t');
    ClearOfChar(b, '\t');
    ClearOfChar(path, '\t');
    SplitStep(a, "\t", b + "\t" + path);
    SplitStep(b, "\t", path);
    IndexOfInClear(path, "\t");
    assert Split(path, "\t") == [path];
  }

  lemma RowClean(f: GitFile, c: char)
    requires c != '\t' && c !in CountText(f.insertions) && c !in CountText(f.deletions) && c !in PathText(f.path)
    ensures c !in RowText(f)
  {
    RowShape(f);
  }

  /** The row of a file, read column by column. */
  lemma RowColumns(f: GitFile)
    requires Printable(PathText(f.path))
    ensures ParseRow(RowText(f))
         == Some(FileChange(NewPathOf(PathText(f.path)), if Includes(PathText(f.path), "=>") then Renamed else Modified,
                            match f.insertions case None => 0 case Some(n) => n,
                            match f.deletions case None => 0 case Some(n) => n))
  {
    CountReads(f.insertions);
    CountReads(f.deletions);
    RowShape(f);
    RowFields(CountText(f.insertions), CountText(f.deletions), PathText(f.path));
  }

  lemma RowReads(f: GitFile)
    requires GoodFile(f)
    ensures ParseRow(RowText(f)) == Some(ExpectedFile(f))
    ensures '\n' !in RowText(f) && US !in RowText(f)
  {
    RowColumns(f);
    PathExactly(f.path);
    CountReads(f.insertions);
    CountReads(f.deletions);
    RowClean(f, '\n');
    RowClean(f, US);
  }

  /** A row is read right exactly when its path column is. */
  lemma RowExactly(f: GitFile)
    requires Shaped(f.path)
    ensures ParseRow(RowText(f)) == Some(ExpectedFile(f)) <==> ReadsRight(f.path)
  {
    RowColumns(f);
    PathExactly(f.path);
  }

  lemma {:induction false} RowsRead(files: seq<GitFile>)
    requires forall f | f in files :: GoodFile(f)
    ensures ParseRows(Split(RowsText(files), "\n")) == ExpectedFiles(files)
    ensures US !in RowsText(files)
  {
    if files == [] {
      EmptySplit("\n");
      RowsOne("");
    } else {
      RowReads(files[0]);
      RowsRead(files[1..]);
      ClearOfChar(RowText(files[0]), '\n');
      SplitStep(RowText(files[0]), "\n", RowsText(files[1..]));
      var rest := Split(RowsText(files[1..]), "\n");
      RowsOne(RowText(files[0]));
      RowsAppend([RowText(files[0])], rest);
    }
  }

  lemma EmptySplit(sep: string)
    requires sep != ""
    ensures Split("", sep) == [""]
  {}

  lemma EmptyLineFirst(rest: string)
    ensures ParseRows(Split("\n" + rest, "\n")) == ParseRows(Split(rest, "\n"))
  {
    ClearOfChar("", '\n');
    SplitStep("", "\n", rest);
    assert "" + "\n" + rest == "\n" + rest;
    BlankRow();
    RowsOne("");
    RowsAppend([""], Split(rest, "\n"));
  }

  lemma BlankRow()
    ensures ParseRow("") == None
  {
    TrimTight("");
  }

  lemma NumstatReads(files: seq<GitFile>)
    requires forall f | f in files :: GoodFile(f)
    ensures ParseRows(Split(NumstatText(files), "\n")) == ExpectedFiles(files)
    ensures US !in NumstatText(files)
  {
    RowsRead(files);
    if files == [] {
      EmptyLineFirst("");
      assert "\n" + "" == "\n";
      assert RowsText(files) == "";
    } else {
      EmptyLineFirst("\n" + RowsText(files));
      EmptyLineFirst(RowsText(files));
    }
  }

  // ----- parents -----

  lemma WordLengthExact(w: string, rest: string)
    requires Word(w)
    ensures WordLength(w) == |w| && WordLength(w + " " + rest) == |w|
  {
    var s := w + " " + rest;
    assert forall k :: 0 <= k < |w| ==> w[k] in w && s[k] == w[k];
    assert s[|w|] == ' ';
  }

  lemma JoinHead(ps: seq<string>, sep: string)
    requires |ps| > 1
    ensures Join(ps, sep) == ps[0] + sep + Join(ps[1..], sep)
  {}

  lemma {:induction false} ParentsTight(ps: seq<string>)
    requires ps != [] && forall p | p in ps :: Word(p)
    ensures var s := Join(ps, " "); s != "" && !IsBlank(s[0]) && !IsBlank(s[|s| - 1])
  {
    assert ps[0] in ps && ps[0][0] in ps[0] && ps[0][|ps[0]| - 1] in ps[0];
    if |ps| > 1 { ParentsTight(ps[1..]); }
  }

  lemma {:induction false} SplitParents(ps: seq<string>)
    requires ps != [] && forall p | p in ps :: Word(p)
    ensures SplitBlanks(Join(ps, " ")) == ps
  {
    assert ps[0] in ps;
    if |ps| == 1 {
      WordLengthExact(ps[0], "");
    } else {
      var rest := Join(ps[1..], " ");
      ParentsTight(ps[1..]);
      SplitParents(ps[1..]);
      WordLengthExact(ps[0], rest);
      var s := ps[0] + " " + rest;
      assert s[|ps[0]|..] == " " + rest && (" " + rest)[1..] == rest;
      assert TrimStart(" " + rest) == rest;
      assert s[..|ps[0]|] == ps[0];
    }
  }

  lemma ParentsRead(ps: seq<string>)
    requires forall p | p in ps :: Word(p)
    ensures ParseParents(Join(ps, " ")) == ps
  {
    if ps != [] {
      ParentsTight(ps);
      TrimTight(Join(ps, " "));
      SplitParents(ps);
    }
  }

  // ----- one block -----

  lemma LastReads(c: GitCommit)
    requires Good(c)
    ensures var last := LastField(c);
      var sep := IndexOf(last, BODY_SEP);
      && sep >= 0 && TrimEnd(last[..sep]) == c.body && last[sep + 1..] == NumstatText(c.files)
      && US !in last
  {
    NumstatReads(c.files);
    BodyEnds(c.body, NumstatText(c.files));
    forall x | x in LastField(c) ensures x != US {
      assert x in c.body || x == '\n' || x == RS || x in NumstatText(c.files);
    }
  }

  /** The body ends at the separator, less the newline git gave it. */
  lemma BodyEnds(body: string, rest: string)
    requires RS !in body && (body != "" ==> !IsBlank(body[|body| - 1]))
    ensures var last := BodyText(body) + BODY_SEP + rest;
      var sep := IndexOf(last, BODY_SEP);
      sep >= 0 && TrimEnd(last[..sep]) == body && last[sep + 1..] == rest
  {
    var b := BodyText(body);
    ClearOfChar(b, RS);
    IndexOfAfterClear(b, BODY_SEP, rest);
    var last := b + BODY_SEP + rest;
    assert last[..|b|] == b && last[|b| + 1..] == rest;
    if body != "" {
      assert b[..|b| - 1] == body;
      assert IsBlank('\n');
      assert TrimEnd(b) == TrimEnd(body) == body;
    }
  }

  lemma FieldsSplit(c: GitCommit)
    requires Good(c)
    ensures Split(Block(c), FIELD_SEP) == Fields(c)
    ensures forall f | f in Fields(c) :: US !in f
  {
    LastReads(c);
    forall f | f in Fields(c) ensures US !in f && Clear(f, FIELD_SEP) {
      var i :| 0 <= i < 8 && Fields(c)[i] == f;
      assert i == 7 ==> f == LastField(c);
      ClearOfChar(f, US);
    }
    SplitJoin(Fields(c), FIELD_SEP);
  }

  lemma NotBlank(s: string, i: nat)
    requires i < |s| && !IsBlank(s[i])
    ensures Trim(s) != ""
  {
    TrimStartKeeps(s, i);
    var t := TrimStart(s);
    var j :| 0 <= j < |t| && t[j] == s[i];
    TrimEndKeeps(t, j);
  }

  lemma {:induction false} TrimStartKeeps(s: string, i: nat)
    requires i < |s| && !IsBlank(s[i])
    ensures exists j :: 0 <= j < |TrimStart(s)| && TrimStart(s)[j] == s[i]
  {
    if IsBlank(s[0]) {
      assert s[1..][i - 1] == s[i];
      TrimStartKeeps(s[1..], i - 1);
      var j :| 0 <= j < |TrimStart(s[1..])| && TrimStart(s[1..])[j] == s[i];
      assert TrimStart(s)[j] == s[i];
    } else {
      assert TrimStart(s)[i] == s[i];
    }
  }

  lemma {:induction false} TrimEndKeeps(s: string, i: nat)
    requires i < |s| && !IsBlank(s[i])
    ensures |TrimEnd(s)| > i
    decreases |s|
  {
    if IsBlank(s[|s| - 1]) { TrimEndKeeps(s[..|s| - 1], i); }
  }

  lemma BlockNotBlank(c: GitCommit)
    ensures Trim(Block(c)) != ""
  {
    JoinHead(Fields(c), FIELD_SEP);
    assert Block(c)[|c.sha|] == US;
    NotBlank(Block(c), |c.sha|);
  }

  /** One block reads back as its commit. */
  lemma BlockReads(c: GitCommit)
    requires Good(c)
    ensures ParseBlock(Block(c)) == Some(Expected(c))
  {
    BlockNotBlank(c);
    FieldsSplit(c);
    LastReads(c);
    NumstatReads(c.files);
    ParentsRead(c.parents);
  }
}
