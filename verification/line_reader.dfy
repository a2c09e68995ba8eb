/**
 The streaming line splitter used for `--stream` and the grep modes. Text
 arrives in chunks; each chunk is appended to a buffer, the buffer is cut
 after every LF, and every complete line is handed to the consumer in one
 call while an unterminated tail waits for the next chunk. At end of input
 the remaining buffer is handed over as it is.

 The consumer is recorded rather than run: each `processLines(lines, end)`
 call becomes a `Call`.
 */
module LineReader {
  import opened Text

  datatype Call = Call(lines: seq<string>, end: bool)

  /** The call made by one `processBuffer` run and the buffer it leaves behind. */
  datatype Step = Step(call: Call, buffer: string)

  /** A complete line: it ends with its LF and has no other. */
  predicate Terminated(line: string) {
    |line| > 0 && line[|line| - 1] == '\n' && forall j :: 0 <= j < |line| - 1 ==> line[j] != '\n'
  }

  /** Every line of the list is complete. */
  predicate AllTerminated(lines: seq<string>) {
    forall j :: 0 <= j < |lines| ==> Terminated(lines[j])
  }

  /** A call made on a `data` event: not the end, and only complete lines. */
  predicate DataCall(c: Call) {
    !c.end && AllTerminated(c.lines)
  }

  /** No LF except possibly as the last character. */
  predicate AtMostFinalLf(t: string) {
    forall j :: 0 <= j < |t| - 1 ==> t[j] != '\n'
  }

  predicate LfFree(t: string) {
    forall j :: 0 <= j < |t| ==> t[j] != '\n'
  }

  /** The characters JavaScript treats as line terminators for `$` under the `m` flag. */
  predicate IsLineTerminator(c: char) {
    c == '\n' || c == '\r' || c == '\U{2028}' || c == '\U{2029}'
  }

  /** `/\n$/m.test(t)`: an LF followed by the end of the text or by a line terminator. */
  predicate LineTest(t: string) {
    exists i :: 0 <= i < |t| && t[i] == '\n' && (i + 1 == |t| || IsLineTerminator(t[i + 1]))
  }

  /**
   `s.split(/(?<=\r?\n)/)`: a cut at every position preceded by an LF,
   except at the very end of the text (the splitter never tries a match
   there), so `''` gives `['']` and a trailing LF leaves no empty piece.
   */
  function SplitAfterNewlines(s: string): seq<string>
    decreases |s|
  {
    var k := LineEnd(s);
    if k + 1 >= |s| then [s] else [s[..k + 1]] + SplitAfterNewlines(s[k + 1..])
  }

  /**
   `processBuffer(end)`: split the buffer; keep the last piece back when
   input continues and that piece does not pass the LF test; hand the rest
   over.
   */
  function ProcessBuffer(buffer: string, end: bool): Step {
    var lines := SplitAfterNewlines(buffer);
    if end || |lines| == 0 || LineTest(lines[|lines| - 1]) then
      Step(Call(lines, end), "")
    else
      Step(Call(lines[..|lines| - 1], end), lines[|lines| - 1])
  }

  /** The `data` handler: append the chunk, then process without `end`. */
  function OnData(buffer: string, chunk: string): Step {
    ProcessBuffer(buffer + chunk, false)
  }

  /** The `end` handler. */
  function OnEnd(buffer: string): Step {
    ProcessBuffer(buffer, true)
  }

  /** Every line of every call, in order. */
  function Flatten(calls: seq<Call>): seq<string> {
    if |calls| == 0 then [] else calls[0].lines + Flatten(calls[1..])
  }

  /**
   The text cut after every LF, the end included: the pieces a reader
   that sees the whole text at once would hand over, the last being the
   unterminated remainder (`''` when the text ends with an LF).
   */
  function LinesOf(s: string): seq<string>
    decreases |s|
  {
    var k := LineEnd(s);
    if k == |s| then [s] else [s[..k + 1]] + LinesOf(s[k + 1..])
  }

  /** What `LinesOf` produces: complete lines then one LF-free remainder. */
  predicate WellSplit(lines: seq<string>) {
    |lines| > 0
    && (forall i :: 0 <= i < |lines| - 1 ==> Terminated(lines[i]))
    && LfFree(lines[|lines| - 1])
  }

  // ---------------------------------------------------------------------
  // The split

  /** Pieces shaped like the split's: complete lines, then one with an LF at most at its end. */
  predicate SplitShaped(lines: seq<string>) {
    |lines| >= 1
    && (forall i :: 0 <= i < |lines| - 1 ==> Terminated(lines[i]))
    && AtMostFinalLf(lines[|lines| - 1])
  }

  /** No piece is empty. */
  predicate NoEmptyPiece(p: seq<string>) {
    forall i :: 0 <= i < |p| ==> |p[i]| > 0
  }

  /** A complete line in front of split-shaped pieces keeps them split-shaped. */
  lemma {:induction false} ShapedCons(line: string, rest: seq<string>)
    requires Terminated(line) && SplitShaped(rest)
    ensures SplitShaped([line] + rest)
    ensures NoEmptyPiece(rest) ==> NoEmptyPiece([line] + rest)
    ensures Concat([line] + rest) == line + Concat(rest)
  {
    var p := [line] + rest;
    assert p[1..] == rest;
    assert p[|p| - 1] == rest[|rest| - 1];
    forall i | 0 <= i < |p| - 1
      ensures Terminated(p[i])
    {
      if i > 0 {
        assert p[i] == rest[i - 1];
      }
    }
    if NoEmptyPiece(rest) {
      forall i | 0 <= i < |p|
        ensures |p[i]| > 0
      {
        if i > 0 {
          assert p[i] == rest[i - 1];
        }
      }
    }
  }

  /** Text with no LF before its last character is one piece. */
  lemma {:induction false} SplitSingle(s: string)
    requires LineEnd(s) + 1 >= |s|
    requires forall j :: 0 <= j < LineEnd(s) ==> s[j] != '\n'
    ensures SplitAfterNewlines(s) == [s]
    ensures SplitShaped([s]) && Concat([s]) == s && (|s| > 0 ==> NoEmptyPiece([s]))
  {
    assert Concat([s]) == s + Concat([]);
  }

  /**
   The pieces join back to the text; all but the last are complete lines;
   the last has an LF at most at its end; no piece is empty unless the
   text is.
   */
  lemma {:induction false} SplitAfterNewlinesShape(s: string)
    ensures var p := SplitAfterNewlines(s);
      SplitShaped(p) && Concat(p) == s && (|s| > 0 ==> NoEmptyPiece(p))
    decreases |s|
  {
    var k := LineEnd(s);
    LineEndFirst(s);
    if k + 1 >= |s| {
      SplitSingle(s);
    } else {
      var line := s[..k + 1];
      var t := s[k + 1..];
      SplitUnfold(s, k);
      SplitAfterNewlinesShape(t);
      assert Terminated(line) by {
        forall j | 0 <= j < k
          ensures line[j] != '\n'
        {
          assert line[j] == s[j];
        }
      }
      ShapedCons(line, SplitAfterNewlines(t));
      assert s == line + t;
    }
  }

  /** On a piece with an LF at most at its end, the multiline test asks exactly whether it ends with one. */
  lemma {:induction false} LineTestAtEnd(t: string)
    requires AtMostFinalLf(t)
    ensures LineTest(t) <==> |t| > 0 && t[|t| - 1] == '\n'
  {
    if |t| > 0 && t[|t| - 1] == '\n' {
      assert t[|t| - 1] == '\n' && |t| - 1 + 1 == |t|;
    }
  }

  // ---------------------------------------------------------------------
  // One step of the reader

  /** When the last piece passes the LF test, every piece is a complete line. */
  lemma {:induction false} HandOverAll(lines: seq<string>)
    requires SplitShaped(lines) && LineTest(lines[|lines| - 1])
    ensures AllTerminated(lines)
  {
    LineTestAtEnd(lines[|lines| - 1]);
  }

  /** When it does not, the pieces before it are complete and it holds no LF. */
  lemma {:induction false} KeepLast(lines: seq<string>)
    requires SplitShaped(lines) && !LineTest(lines[|lines| - 1])
    ensures var init := lines[..|lines| - 1];
      AllTerminated(init)
      && LfFree(lines[|lines| - 1])
      && Concat(init) + lines[|lines| - 1] == Concat(lines)
  {
    var last := lines[|lines| - 1];
    var init := lines[..|lines| - 1];
    LineTestAtEnd(last);
    assert lines == init + [last];
    ConcatSnoc(init, last);
    forall i | 0 <= i < |init|
      ensures Terminated(init[i])
    {
      assert init[i] == lines[i];
    }
  }

  /**
   One `processBuffer` run loses nothing and invents nothing: the lines
   handed over followed by the kept buffer are the old buffer. Without
   `end` only complete lines are handed over and the kept buffer holds no
   LF; with `end` the buffer is emptied.
   */
  lemma {:induction false} ProcessBufferSpec(buffer: string, end: bool)
    ensures var st := ProcessBuffer(buffer, end);
      Concat(st.call.lines) + st.buffer == buffer
      && st.call.end == end
      && LfFree(st.buffer)
      && (end ==> st.buffer == "")
      && (!end ==> AllTerminated(st.call.lines))
  {
    var lines := SplitAfterNewlines(buffer);
    SplitAfterNewlinesShape(buffer);
    var last := lines[|lines| - 1];
    if end {
      assert Concat(lines) + "" == buffer;
    } else if LineTest(last) {
      assert Concat(lines) + "" == buffer;
      HandOverAll(lines);
    } else {
      KeepLast(lines);
    }
  }

  /** At end of input an LF-free buffer is handed over as a single line, even when it is empty. */
  lemma {:induction false} OnEndFlushes(buffer: string)
    requires LfFree(buffer)
    ensures OnEnd(buffer) == Step(Call([buffer], true), "")
  {
    LineEndAt(buffer, |buffer|);
  }

  // ---------------------------------------------------------------------
  // The whole stream

  lemma {:induction false} FlattenSnoc(calls: seq<Call>, c: Call)
    ensures Flatten(calls + [c]) == Flatten(calls) + c.lines
  {
    if |calls| == 0 {
      assert calls + [c] == [c];
    } else {
      assert (calls + [c])[1..] == calls[1..] + [c];
      FlattenSnoc(calls[1..], c);
    }
  }

  /** LF-free text is one remainder. */
  lemma {:induction false} LinesOfLfFree(line: string)
    requires LfFree(line)
    ensures LinesOf(line) == [line]
  {
    LineEndAt(line, |line|);
  }

  /** A complete line at the front is cut off as it is. */
  lemma {:induction false} LinesOfCons(line: string, rest: string)
    requires Terminated(line)
    ensures LinesOf(line + rest) == [line] + LinesOf(rest)
  {
    var s := line + rest;
    LineEndAt(s, |line| - 1);
    assert s[..|line|] == line;
    assert s[|line|..] == rest;
  }

  /** `LinesOf` is characterised by its shape: it is the only well-split list joining to the text. */
  lemma {:induction false} LinesOfWellSplit(lines: seq<string>)
    requires WellSplit(lines)
    ensures LinesOf(Concat(lines)) == lines
    decreases |lines|
  {
    var line := lines[0];
    var rest := lines[1..];
    assert Concat(lines) == line + Concat(rest);
    assert lines == [line] + rest;
    if |lines| == 1 {
      assert Concat(rest) == "";
      assert Concat(lines) == line;
      LinesOfLfFree(line);
    } else {
      assert Terminated(line);
      LinesOfCons(line, Concat(rest));
      assert WellSplit(rest) by {
        forall i | 0 <= i < |rest| - 1 ensures Terminated(rest[i]) {
          assert rest[i] == lines[i + 1];
        }
        assert rest[|rest| - 1] == lines[|lines| - 1];
      }
      LinesOfWellSplit(rest);
    }
  }

  predicate EndsWithLf(s: string) {
    |s| > 0 && s[|s| - 1] == '\n'
  }

  /** With more text after the first LF, `LinesOf` cuts there and goes on. */
  lemma {:induction false} LinesOfUnfold(s: string, k: nat)
    requires k == LineEnd(s) && k + 1 < |s|
    ensures LinesOf(s) == [s[..k + 1]] + LinesOf(s[k + 1..])
  {
  }

  /** With more text after the first LF, the `split` cuts there and goes on. */
  lemma {:induction false} SplitUnfold(s: string, k: nat)
    requires k == LineEnd(s) && k + 1 < |s|
    ensures SplitAfterNewlines(s) == [s[..k + 1]] + SplitAfterNewlines(s[k + 1..])
  {
  }

  /** `LinesOf` differs from the `split` only by the empty remainder after a final LF. */
  lemma {:induction false} LinesOfSplit(s: string)
    ensures EndsWithLf(s) ==> LinesOf(s) == SplitAfterNewlines(s) + [""]
    ensures !EndsWithLf(s) ==> LinesOf(s) == SplitAfterNewlines(s)
    decreases |s|
  {
    var k := LineEnd(s);
    if k == |s| {
      LineEndFirst(s);
      assert |s| > 0 ==> s[|s| - 1] != '\n';
    } else if k + 1 == |s| {
      assert s[..k + 1] == s;
      assert s[k + 1..] == "";
      assert LineEnd("") == 0;
    } else {
      var t := s[k + 1..];
      var line := s[..k + 1];
      LinesOfUnfold(s, k);
      SplitUnfold(s, k);
      assert t[|t| - 1] == s[|s| - 1];
      LinesOfSplit(t);
      assert [line] + (SplitAfterNewlines(t) + [""]) == ([line] + SplitAfterNewlines(t)) + [""];
    }
  }

  lemma {:induction false} AllTerminatedAppend(a: seq<string>, b: seq<string>)
    requires AllTerminated(a) && AllTerminated(b)
    ensures AllTerminated(a + b)
  {
    forall j | 0 <= j < |a + b|
      ensures Terminated((a + b)[j])
    {
      if j < |a| {
        assert (a + b)[j] == a[j];
      } else {
        assert (a + b)[j] == b[j - |a|];
      }
    }
  }

  /** Complete lines followed by an LF-free remainder are well split. */
  lemma {:induction false} WellSplitSnoc(lines: seq<string>, last: string)
    requires AllTerminated(lines) && LfFree(last)
    ensures WellSplit(lines + [last])
  {
    var flat := lines + [last];
    forall j | 0 <= j < |flat| - 1 ensures Terminated(flat[j]) {
      assert flat[j] == lines[j];
    }
  }

  lemma {:induction false} ConcatShift(emitted: seq<string>, lines: seq<string>, kept: string, buffer: string, chunk: string, text: string)
    requires Concat(lines) + kept == buffer + chunk
    requires Concat(emitted) + buffer == text
    ensures Concat(emitted + lines) + kept == text + chunk
  {
    ConcatAppend(emitted, lines);
    calc {
      Concat(emitted + lines) + kept;
      Concat(emitted) + Concat(lines) + kept;
      Concat(emitted) + (Concat(lines) + kept);
      Concat(emitted) + (buffer + chunk);
      text + chunk;
    }
  }

  /** What a `data` event keeps true of everything handed over so far and the buffer. */
  lemma {:induction false} DataStep(emitted: seq<string>, buffer: string, text: string, chunk: string)
    requires AllTerminated(emitted)
    requires Concat(emitted) + buffer == text
    ensures var st := OnData(buffer, chunk);
      DataCall(st.call)
      && AllTerminated(emitted + st.call.lines)
      && Concat(emitted + st.call.lines) + st.buffer == text + chunk
      && LfFree(st.buffer)
  {
    var st := OnData(buffer, chunk);
    ProcessBufferSpec(buffer + chunk, false);
    AllTerminatedAppend(emitted, st.call.lines);
    ConcatShift(emitted, st.call.lines, st.buffer, buffer, chunk, text);
  }

  /**
   What holds once the first `i` chunks have arrived: one `data` call per
   chunk, complete lines only, and those lines followed by the LF-free
   buffer spell out the text read so far.
   */
  predicate ReadSoFar(chunks: seq<string>, i: nat, calls: seq<Call>, buffer: string)
    requires i <= |chunks|
  {
    |calls| == i
    && (forall m :: 0 <= m < i ==> DataCall(calls[m]))
    && AllTerminated(Flatten(calls))
    && Concat(Flatten(calls)) + buffer == Concat(chunks[..i])
    && LfFree(buffer)
  }

  /** One more `data` event keeps `ReadSoFar`. */
  lemma {:induction false} ReadStep(chunks: seq<string>, i: nat, calls: seq<Call>, buffer: string)
    requires i < |chunks| && ReadSoFar(chunks, i, calls, buffer)
    ensures var st := OnData(buffer, chunks[i]);
      ReadSoFar(chunks, i + 1, calls + [st.call], st.buffer)
  {
    var st := OnData(buffer, chunks[i]);
    DataStep(Flatten(calls), buffer, Concat(chunks[..i]), chunks[i]);
    FlattenSnoc(calls, st.call);
    ConcatSnoc(chunks[..i], chunks[i]);
    assert chunks[..i + 1] == chunks[..i] + [chunks[i]];
    var next := calls + [st.call];
    forall m | 0 <= m < i + 1
      ensures DataCall(next[m])
    {
      if m < i {
        assert next[m] == calls[m];
      }
    }
  }

  /** The `end` event after every chunk completes the line list. */
  lemma {:induction false} ReadFinish(chunks: seq<string>, calls: seq<Call>, buffer: string)
    requires ReadSoFar(chunks, |chunks|, calls, buffer)
    ensures var all := calls + [OnEnd(buffer).call];
      |all| == |chunks| + 1
      && (forall i :: 0 <= i < |chunks| ==> DataCall(all[i]))
      && all[|chunks|].end && |all[|chunks|].lines| == 1
      && Flatten(all) == LinesOf(Concat(chunks))
  {
    var last := OnEnd(buffer);
    var all := calls + [last.call];
    OnEndFlushes(buffer);
    FlattenSnoc(calls, last.call);
    ConcatSnoc(Flatten(calls), buffer);
    WellSplitSnoc(Flatten(calls), buffer);
    assert chunks[..|chunks|] == chunks;
    LinesOfWellSplit(Flatten(calls) + [buffer]);
    forall i | 0 <= i < |chunks|
      ensures DataCall(all[i])
    {
      assert all[i] == calls[i];
    }
  }

  /** The lines of all calls, in order, are the whole text of the chunks cut after every LF. */
  predicate DeliversLinesOf(chunks: seq<string>, calls: seq<Call>) {
    Flatten(calls) == LinesOf(Concat(chunks))
  }

  /**
   `readLines` over a stream of chunks. One call per chunk without `end`,
   then one with `end`. The lines handed over, all calls taken together,
   are the whole text cut after every LF, whatever the chunk boundaries:
   every line but the very last is complete, and the last call hands over
   exactly the unterminated remainder.
   */
  method ReadLines(chunks: seq<string>) returns (calls: seq<Call>)
    ensures |calls| == |chunks| + 1
    ensures forall i :: 0 <= i < |chunks| ==> DataCall(calls[i])
    ensures calls[|chunks|].end && |calls[|chunks|].lines| == 1
    ensures DeliversLinesOf(chunks, calls)
  {
    calls := [];
    var buffer := "";
    var i := 0;
    assert chunks[..0] == [];
    while i < |chunks|
      invariant i <= |chunks|
      invariant ReadSoFar(chunks, i, calls, buffer)
    {
      var st := OnData(buffer, chunks[i]);
      ReadStep(chunks, i, calls, buffer);
      calls := calls + [st.call];
      buffer := st.buffer;
      i := i + 1;
    }
    ReadFinish(chunks, calls, buffer);
    calls := calls + [OnEnd(buffer).call];
  }
}
