/** The bounded line scanner of apps/collector/src/discovery/read-head.ts, for every chunking. */
module LineScanner {
  import opened Wrappers
  import opened Text
  import opened Utf8

  /** The lines of a text: cut at `\n`, one trailing CR stripped, an unterminated last one if non-empty. */
  function Lines(text: string): seq<string>
    decreases |text|
  {
    var i := IndexOf(text, "\n");
    if i < 0 then (if text == "" then [] else [StripCR(text)])
    else [StripCR(text[..i])] + Lines(text[i + 1..])
  }

  /** The pieces between newlines, each less one carriage return at its end, without an empty last one. */
  ghost predicate LinesFrom(raw: seq<string>, lines: seq<string>) {
    && raw != []
    && |lines| == (if raw[|raw| - 1] == "" then |raw| - 1 else |raw|)
    && forall i :: 0 <= i < |lines| ==> lines[i] == StripCR(raw[i])
  }

  lemma {:induction false} LinesExactly(text: string)
    ensures LinesFrom(Split(text, "\n"), Lines(text))
    decreases |text|
  {
    var i := IndexOf(text, "\n");
    if i >= 0 {
      LinesExactly(text[i + 1..]);
      LinesFromCons(text[..i], Split(text[i + 1..], "\n"), Lines(text[i + 1..]));
    }
  }

  lemma LinesFromCons(head: string, raw: seq<string>, lines: seq<string>)
    requires LinesFrom(raw, lines)
    ensures LinesFrom([head] + raw, [StripCR(head)] + lines)
  {
    var all := [StripCR(head)] + lines;
    assert forall i :: 1 <= i < |all| ==> all[i] == lines[i - 1] && ([head] + raw)[i] == raw[i - 1];
  }

  /** The first defined result over the lines. */
  function First<T>(onLine: string -> Option<T>, lines: seq<string>): Option<T> {
    if lines == [] then None
    else if onLine(lines[0]).Some? then onLine(lines[0])
    else First(onLine, lines[1..])
  }

  /** The plain form: decode everything, cut into lines, try each. */
  function Plain<T>(onLine: string -> Option<T>, bytes: seq<Byte>): Option<T> {
    First(onLine, Lines(Decode(bytes)))
  }

  lemma FirstLine<T>(onLine: string -> Option<T>, text: string, x: string, i: nat)
    requires IndexOf(text, "\n") == i
    ensures First(onLine, Lines(text + x))
         == if onLine(StripCR(text[..i])).Some? then onLine(StripCR(text[..i]))
            else First(onLine, Lines(text[i + 1..] + x))
  {
    var head := text[..i];
    forall k | 0 <= k < i ensures head[k] != '\n' {
      assert text[k..k + 1] == [text[k]];
      assert !At(text, k, "\n");
    }
    ClearOfChar(head, '\n');
    assert text[i..i + 1][0] == '\n';
    assert text == head + "\n" + text[i + 1..];
    Regroup(head + "\n", text[i + 1..], x);
    IndexOfAfterClear(head, "\n", text[i + 1..] + x);
    assert (text + x)[..i] == head && (text + x)[i + 1..] == text[i + 1..] + x;
    var rest := Lines(text[i + 1..] + x);
    assert ([StripCR(head)] + rest)[1..] == rest;
  }

  lemma LastLine<T>(onLine: string -> Option<T>, carry: string)
    requires IndexOf(carry, "\n") < 0
    ensures First(onLine, Lines(carry)) == if carry == "" then None else onLine(StripCR(carry))
  {
    if carry != "" { assert [StripCR(carry)][1..] == []; }
  }

  lemma NoNewlineAfterEnd(carry: string, s: State)
    requires IndexOf(carry, "\n") < 0
    ensures IndexOf(carry + End(s), "\n") < 0
  {
    assert End(s) == "" || End(s) == [REPLACEMENT];
    forall k | 0 <= k < |carry| ensures carry[k] != '\n' {
      assert carry[k..k + 1] == [carry[k]];
      assert !At(carry, k, "\n");
    }
    ClearOfChar(carry + End(s), '\n');
    IndexOfInClear(carry + End(s), "\n");
  }

  /** The rest of the decoded text, seen from the middle of the file. */
  lemma DecodeFrom(file: seq<Byte>, pos: nat)
    requires pos <= |file|
    ensures var (s, d) := Write(Start, file[..pos]);
      Decode(file) == d + (Write(s, file[pos..]).1 + End(Write(s, file[pos..]).0))
  {
    WriteAppend(Start, file[..pos], file[pos..]);
    assert file[..pos] + file[pos..] == file;
    var (s, d) := Write(Start, file[..pos]);
    var (s', e) := Write(s, file[pos..]);
    assert Write(Start, file) == (s', d + e);
    Regroup(d, e, End(s'));
  }

  /** How far the scan may read: to the end, or to the chunk boundary where the cap is reached. */
  ghost predicate Cut(file: seq<Byte>, chunkSize: nat, maxBytes: nat, cut: nat) {
    cut == |file| || (maxBytes <= cut < |file| && (cut < maxBytes + chunkSize || cut == chunkSize))
  }

  ghost predicate Agrees<T>(r: Option<T>, onLine: string -> Option<T>, file: seq<Byte>,
                            chunkSize: nat, maxBytes: nat, cut: nat) {
    cut <= |file| && Cut(file, chunkSize, maxBytes, cut) && r == Plain(onLine, file[..cut])
  }

  /** The inner loop: hand over every complete line of `text` until one gives a result. */
  method TakeLines<T>(onLine: string -> Option<T>, text: string) returns (r: Option<T>, carry: string)
    ensures r.None? ==> IndexOf(carry, "\n") < 0
    ensures forall x ::
      First(onLine, Lines(text + x)) == if r.Some? then r else First(onLine, Lines(carry + x))
  {
    carry, r := text, None;
    var nl := IndexOf(carry, "\n");
    while nl >= 0
      invariant nl == IndexOf(carry, "\n")
      invariant forall x :: First(onLine, Lines(text + x)) == First(onLine, Lines(carry + x))
      decreases |carry|
    {
      ghost var was := carry;
      var line := StripCR(carry[..nl]);
      forall x
        ensures First(onLine, Lines(text + x))
             == if onLine(line).Some? then onLine(line) else First(onLine, Lines(was[nl + 1..] + x))
      {
        FirstLine(onLine, was, x, nl);
      }
      carry := carry[nl + 1..];
      r := onLine(line);
      if r.Some? { return; }
      nl := IndexOf(carry, "\n");
    }
    r := None;
  }

  /** What the scan knows between reads: nothing found so far, `carry` is all that still matters. */
  ghost predicate Carried<T>(onLine: string -> Option<T>, text: string, carry: string) {
    IndexOf(carry, "\n") < 0 && forall x :: First(onLine, Lines(text + x)) == First(onLine, Lines(carry + x))
  }

  lemma CarriedOn<T>(onLine: string -> Option<T>, text: string, carry: string, out: string, r: Option<T>, carry': string)
    requires Carried(onLine, text, carry)
    requires forall x :: First(onLine, Lines((carry + out) + x)) == if r.Some? then r else First(onLine, Lines(carry' + x))
    ensures forall x :: First(onLine, Lines((text + out) + x)) == if r.Some? then r else First(onLine, Lines(carry' + x))
  {
    forall x
      ensures First(onLine, Lines((text + out) + x)) == if r.Some? then r else First(onLine, Lines(carry' + x))
    {
      CarriedAt(onLine, text, carry, out, x);
    }
  }

  lemma CarriedAt<T>(onLine: string -> Option<T>, text: string, carry: string, out: string, x: string)
    requires Carried(onLine, text, carry)
    ensures First(onLine, Lines((text + out) + x)) == First(onLine, Lines((carry + out) + x))
  {
    Regroup(text, out, x);
    Regroup(carry, out, x);
    assert First(onLine, Lines(text + (out + x))) == First(onLine, Lines(carry + (out + x)));
  }

  lemma Regroup(a: string, b: string, c: string)
    ensures (a + b) + c == a + (b + c)
  {}

  lemma WriteNext(file: seq<Byte>, pos: nat, n: nat)
    requires pos + n <= |file|
    ensures var (s, d) := Write(Start, file[..pos]);
            var (s', out) := Write(s, file[pos..pos + n]);
      Write(Start, file[..pos + n]) == (s', d + out)
  {
    WriteAppend(Start, file[..pos], file[pos..pos + n]);
    assert file[..pos + n] == file[..pos] + file[pos..pos + n];
  }

  /** Between reads: the decoder state after `pos` bytes, and the carry of their text. */
  ghost predicate Reading<T>(onLine: string -> Option<T>, file: seq<Byte>, pos: nat, s: State, carry: string) {
    pos <= |file| && Write(Start, file[..pos]).0 == s && Carried(onLine, Write(Start, file[..pos]).1, carry)
  }

  /** One read: either the lines it completes give the plain form's result, or reading goes on. */
  lemma ReadOn<T>(onLine: string -> Option<T>, file: seq<Byte>, pos: nat, s: State, carry: string,
                  n: nat, found: Option<T>, carry': string)
    requires Reading(onLine, file, pos, s, carry) && pos + n <= |file|
    requires found.None? ==> IndexOf(carry', "\n") < 0
    requires var out := Write(s, file[pos..pos + n]).1;
      forall x :: First(onLine, Lines((carry + out) + x)) == if found.Some? then found else First(onLine, Lines(carry' + x))
    ensures if found.Some? then found == Plain(onLine, file)
            else Reading(onLine, file, pos + n, Write(s, file[pos..pos + n]).0, carry')
  {
    var text := Write(Start, file[..pos]).1;
    var out := Write(s, file[pos..pos + n]).1;
    WriteNext(file, pos, n);
    CarriedOn(onLine, text, carry, out, found, carry');
    if found.Some? { FoundReads(onLine, file, pos + n, text + out, found); }
  }

  /** A result that no later text can change is that of the whole file. */
  lemma FoundReads<T>(onLine: string -> Option<T>, file: seq<Byte>, pos: nat, text: string, found: Option<T>)
    requires pos <= |file| && text == Write(Start, file[..pos]).1
    requires forall x :: First(onLine, Lines(text + x)) == found
    ensures found == Plain(onLine, file)
  {
    DecodeFrom(file, pos);
    var s := Write(Start, file[..pos]).0;
    var x := Write(s, file[pos..]).1 + End(Write(s, file[pos..]).0);
    assert Decode(file) == text + x;
  }

  /** One read of `n` bytes. */
  method ReadChunk<T>(onLine: string -> Option<T>, file: seq<Byte>, pos: nat, s: State, carry: string, n: nat)
    returns (found: Option<T>, s': State, carry': string)
    requires Reading(onLine, file, pos, s, carry) && pos + n <= |file|
    ensures if found.Some? then found == Plain(onLine, file) else Reading(onLine, file, pos + n, s', carry')
  {
    var (next, out) := Write(s, file[pos..pos + n]);
    s' := next;
    found, carry' := TakeLines(onLine, carry + out);
    ReadOn(onLine, file, pos, s, carry, n, found, carry');
  }

  /** At the end of reading, the carry and the decoder's last word are the last line. */
  lemma ReadOut<T>(onLine: string -> Option<T>, file: seq<Byte>, cut: nat, s: State, carry: string)
    requires Reading(onLine, file, cut, s, carry)
    ensures var last := carry + End(s);
      Plain(onLine, file[..cut]) == if last == "" then None else onLine(StripCR(last))
  {
    NoNewlineAfterEnd(carry, s);
    LastLine(onLine, carry + End(s));
    var text := Write(Start, file[..cut]).1;
    assert First(onLine, Lines(text + End(s))) == First(onLine, Lines(carry + End(s)));
  }

  /**
   `file` is None when it cannot be opened. Each read returns any positive number of bytes up to the
   chunk size. Whatever the sizes, the result is that of the plain form on what the cap allows, and
   on the whole file when the file is shorter than the cap.
   */
  method ScanLines<T>(file: Option<seq<Byte>>, onLine: string -> Option<T>, chunkSize: nat, maxBytes: nat)
    returns (r: Option<T>)
    requires chunkSize >= 1
    ensures file.None? ==> r.None?
    ensures file.Some? ==> exists cut :: Agrees(r, onLine, file.value, chunkSize, maxBytes, cut)
    ensures file.Some? && |file.value| < maxBytes ==> r == Plain(onLine, file.value)
  {
    if file.None? { return None; }
    var bytes := file.value;
    assert bytes[..|bytes|] == bytes;
    var decoder, carry, total := Start, "", 0;
    var more := true;
    while more && total < |bytes|
      invariant Reading(onLine, bytes, total, decoder, carry)
      invariant more ==> total < maxBytes || total == 0
      invariant !more ==> total == |bytes| || Cut(bytes, chunkSize, maxBytes, total)
      decreases |bytes| - total
    {
      var n :| 1 <= n <= chunkSize && n <= |bytes| - total;
      r, decoder, carry := ReadChunk(onLine, bytes, total, decoder, carry, n);
      if r.Some? {
        assert Agrees(r, onLine, bytes, chunkSize, maxBytes, |bytes|);
        return;
      }
      total := total + n;
      more := total < maxBytes;
    }
    ReadOut(onLine, bytes, total, decoder, carry);
    carry := carry + End(decoder);
    r := if carry != "" then onLine(StripCR(carry)) else None;
    assert Agrees(r, onLine, bytes, chunkSize, maxBytes, total);
  }
}
