/** The byte-offset tailer (apps/collector/src/watcher/tailer.ts). */
module Tailer {
  import opened Text
  import opened Utf8

  datatype TailResult = TailResult(text: string, newOffset: nat, grew: bool, reset: bool)

  /** The end of the last complete line. */
  function Complete(file: seq<Byte>): (n: nat)
    ensures n <= |file|
  {
    LastIndexOf(file, NL) + 1
  }

  function Grown(file: seq<Byte>, fromOffset: nat): TailResult {
    var reset := |file| < fromOffset;
    var n := Complete(file);
    if |file| == fromOffset then TailResult("", fromOffset, false, false)
    else if n == 0 then TailResult("", if reset then 0 else fromOffset, false, reset)
    else if !reset && n <= fromOffset then TailResult("", fromOffset, false, false)
    else TailResult(Decode(file[..n]), n, true, reset)
  }

  method ReadGrownPrefix(file: seq<Byte>, fromOffset: nat) returns (r: TailResult)
    ensures r == Grown(file, fromOffset)
  {
    var size := |file|;
    var reset := size < fromOffset;
    if !reset && size == fromOffset {
      return TailResult("", fromOffset, false, reset);
    }
    var buf := new Byte[size];
    for i := 0 to size
      invariant buf[..i] == file[..i]
    {
      buf[i] := file[i];
    }
    assert buf[..] == file;
    var lastNL: int := size - 1;
    while lastNL >= 0 && buf[lastNL] != NL
      invariant -1 <= lastNL < size
      invariant forall j :: lastNL < j < size ==> file[j] != NL
    {
      lastNL := lastNL - 1;
    }
    assert lastNL == LastIndexOf(file, NL);
    if lastNL < 0 {
      return TailResult("", if reset then 0 else fromOffset, false, reset);
    }
    var newOffset := lastNL + 1;
    if !reset && newOffset <= fromOffset {
      return TailResult("", fromOffset, false, reset);
    }
    return TailResult(Decode(buf[..newOffset]), newOffset, true, reset);
  }

  /** An offset a line of `file` ends at. */
  ghost predicate LineEnd(file: seq<Byte>, n: nat) {
    n <= |file| && (n == 0 || file[n - 1] == NL)
  }

  /**
   From a cursor at a line end, however the file grew: the tailer emits exactly the complete-line
   prefix, it does so exactly when that prefix is longer, and the cursor ends up at its end.
   */
  lemma GrownExact(file: seq<Byte>, cursor: nat)
    requires LineEnd(file, cursor)
    ensures var r := Grown(file, cursor);
      && !r.reset
      && LineEnd(file, r.newOffset)
      && r.newOffset == Complete(file)
      && (r.grew <==> Complete(file) > cursor)
      && (r.grew ==> r.text == Decode(file[..Complete(file)]))
  {
    var n := Complete(file);
    if cursor > 0 { assert file[cursor - 1] == NL; }
  }

  /**
   From any cursor at all. A file shorter than the cursor was rewritten: it is read from its start. Else
   there is something to read exactly when a line ends beyond the cursor. What is read is always the whole
   text up to the last line end, and the cursor stays where nothing is read.
   */
  lemma GrownAnywhere(file: seq<Byte>, cursor: nat)
    ensures var r := Grown(file, cursor);
      var rewritten := |file| < cursor;
      var some := exists i :: (if rewritten then 0 else cursor) <= i < |file| && file[i] == NL;
      && r.reset == rewritten && r.grew == some
      && (some ==> r.newOffset == Complete(file) && r.text == Decode(file[..Complete(file)]))
      && (!some ==> r.text == "" && r.newOffset == if rewritten then 0 else cursor)
  {
    var n := Complete(file);
    if n > 0 { assert file[n - 1] == NL; }
  }
}
