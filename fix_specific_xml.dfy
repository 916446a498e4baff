/** `fix_specific_xml.py`: a targeted repair for one export whose parser error
    pointed near line 58089. It only proceeds when a line numbered 58080 to
    58100 mentions CDATA (lines 17-27); then it scans the lines (which keep
    their own line endings, as `readlines` returns them), holding back each
    CDATA run until a line with `]]>` releases it, and closing a run that is
    still open on the final line (lines 30-51). */
module FixSpecificXml {
  import opened Wrappers
  import opened Text

  const Opener := "<![CDATA["
  const Closer := "]]>"

  // ---------------------------------------------------------------------------
  // The line-range gate (lines 17-27)

  /** First and last line numbers looked at, counted from 1 as `enumerate(lines, 1)` does. */
  const FirstChecked := 58080
  const LastChecked := 58100

  predicate IsProblemLine(line: string) {
    Contains(line, "CData section not finished") || Contains(line, "CDATA")
  }

  /** Line number `n` (from 1) is in the window and mentions CDATA. */
  predicate ProblemAt(lines: seq<string>, n: nat) {
    FirstChecked <= n <= LastChecked && 1 <= n <= |lines| && IsProblemLine(lines[n - 1])
  }

  /** The search loop of lines 18-23: the first matching line number in the window. */
  method FindProblemLine(lines: seq<string>) returns (found: Option<nat>)
    ensures found.Some? ==> ProblemAt(lines, found.value)
    ensures found.Some? ==> forall n :: 1 <= n < found.value ==> !ProblemAt(lines, n)
    ensures found.None? ==> forall n :: 1 <= n <= |lines| ==> !ProblemAt(lines, n)
  {
    found := None;
    var i := 1;
    while i <= |lines|
      invariant 1 <= i <= |lines| + 1
      invariant forall n :: 1 <= n < i ==> !ProblemAt(lines, n)
    {
      if i >= FirstChecked && i <= LastChecked {
        if IsProblemLine(lines[i - 1]) {
          found := Some(i);
          return;
        }
      }
      i := i + 1;
    }
  }

  // ---------------------------------------------------------------------------
  // The line loop (lines 30-51)

  /** The loop's variables: `in_cdata`, `cdata_buffer` and `fixed_content`. */
  datatype Scan = Scan(inCdata: bool, buffer: string, out: string)

  const Start := Scan(false, "", "")

  /** `cdata_buffer` with `]]>` added unless it already ends that way (lines 47-48). */
  function Closed(buffer: string): (r: string)
    ensures EndsWith(r, Closer)
    ensures StartsWith(r, buffer)
  {
    if EndsWith(buffer, Closer) then buffer
    else
      assert (buffer + Closer)[|buffer + Closer| - |Closer|..] == Closer;
      assert (buffer + Closer)[..|buffer|] == buffer;
      buffer + Closer
  }

  /** One pass of the loop body; `isLast` is `i == len(lines)`. On the final line
      an open run is flushed but `in_cdata` stays set. */
  function Step(st: Scan, line: string, isLast: bool): (r: Scan)
    ensures st.out <= r.out
    ensures r.inCdata <==> Contains(line, Opener) || (st.inCdata && !Contains(line, Closer))
    ensures isLast && st.inCdata && !Contains(line, Opener) && !Contains(line, Closer) ==> EndsWith(r.out, Closer)
  {
    if Contains(line, Opener) then Scan(true, line, st.out)
    else if st.inCdata then
      var buf := st.buffer + line;
      if Contains(line, Closer) then Scan(false, "", st.out + buf)
      else if isLast then
        EndsWithAppended(st.out, Closed(buf), Closer);
        Scan(true, Closed(buf), st.out + Closed(buf))
      else Scan(true, buf, st.out)
    else Scan(st.inCdata, st.buffer, st.out + line)
  }

  lemma EndsWithAppended(s: string, t: string, p: string)
    requires EndsWith(t, p)
    ensures EndsWith(s + t, p)
  {
    assert (s + t)[|s + t| - |p|..] == t[|t| - |p|..];
  }

  /** The state after the lines before the final one. */
  function Steps(st: Scan, lines: seq<string>): Scan
    decreases |lines|
  {
    if lines == [] then st else Step(Steps(st, lines[..|lines| - 1]), lines[|lines| - 1], false)
  }

  /** The written text: every line but the last stepped as an ordinary line,
      the last one as the end of the file. Nothing is flushed after the loop. */
  function FixedContent(lines: seq<string>): (r: string)
    ensures lines != [] ==> Steps(Start, lines[..|lines| - 1]).out <= r
    ensures (lines != [] && Steps(Start, lines[..|lines| - 1]).inCdata
             && !Contains(lines[|lines| - 1], Opener) && !Contains(lines[|lines| - 1], Closer))
      ==> EndsWith(r, Closer)
  {
    if lines == [] then ""
    else Step(Steps(Start, lines[..|lines| - 1]), lines[|lines| - 1], true).out
  }

  method FixUnclosedCdata(lines: seq<string>) returns (fixedContent: string)
    ensures fixedContent == FixedContent(lines)
  {
    fixedContent := "";
    var inCdata := false;
    var cdataBuffer := "";
    var i := 0;
    while i < |lines|
      invariant 0 <= i <= |lines|
      invariant i < |lines| ==> Scan(inCdata, cdataBuffer, fixedContent) == Steps(Start, lines[..i])
      invariant i == |lines| ==> fixedContent == FixedContent(lines)
    {
      var line := lines[i];
      var isLast := i + 1 == |lines|;
      assert lines[..i + 1][..i] == lines[..i];
      if Contains(line, Opener) {
        inCdata := true;
        cdataBuffer := line;
      } else if inCdata {
        cdataBuffer := cdataBuffer + line;
        if Contains(line, Closer) {
          fixedContent := fixedContent + cdataBuffer;
          inCdata := false;
          cdataBuffer := "";
        } else if isLast {
          if !EndsWith(cdataBuffer, Closer) {
            cdataBuffer := cdataBuffer + Closer;
          }
          fixedContent := fixedContent + cdataBuffer;
        }
      } else {
        fixedContent := fixedContent + line;
      }
      i := i + 1;
    }
  }

  /** `fix_specific_xml_issue` on the file's lines: `None` (the script returns
      False and writes nothing) unless the gate finds a line, else the text written. */
  method FixSpecificXmlIssue(lines: seq<string>) returns (written: Option<string>)
    ensures written.None? <==> forall n :: 1 <= n <= |lines| ==> !ProblemAt(lines, n)
    ensures written.Some? ==> written.value == FixedContent(lines)
  {
    var problem := FindProblemLine(lines);
    if problem.None? {
      return None;
    }
    var text := FixUnclosedCdata(lines);
    written := Some(text);
  }

  // ---------------------------------------------------------------------------
  // What the scan does to the lines

  /** `''.join(lines)`. */
  function Concat(lines: seq<string>): string
    decreases |lines|
  {
    if lines == [] then "" else Concat(lines[..|lines| - 1]) + lines[|lines| - 1]
  }

  lemma {:induction false} StepsAppend(st: Scan, xs: seq<string>, ys: seq<string>)
    ensures Steps(st, xs + ys) == Steps(Steps(st, xs), ys)
    decreases |ys|
  {
    if ys == [] {
      assert xs + ys == xs;
    } else {
      StepsAppend(st, xs, ys[..|ys| - 1]);
      assert (xs + ys)[..|xs + ys| - 1] == xs + ys[..|ys| - 1];
    }
  }

  /** Outside a run, lines without an opener are appended unchanged and in order. */
  lemma {:induction false} PlainLinesAppended(st: Scan, lines: seq<string>)
    requires !st.inCdata
    requires forall k :: 0 <= k < |lines| ==> !Contains(lines[k], Opener)
    ensures Steps(st, lines) == Scan(false, st.buffer, st.out + Concat(lines))
    decreases |lines|
  {
    if lines != [] {
      var init := lines[..|lines| - 1];
      PlainLinesAppended(st, init);
    }
  }

  /** With no opener line anywhere, the output is the input. */
  lemma NoOpenerUnchanged(lines: seq<string>)
    requires forall k :: 0 <= k < |lines| ==> !Contains(lines[k], Opener)
    ensures FixedContent(lines) == Concat(lines)
  {
    if lines != [] {
      var init := lines[..|lines| - 1];
      PlainLinesAppended(Start, init);
      assert "" + Concat(init) == Concat(init);
    }
  }

  /** An opener line followed by lines that hold neither marker leaves a run open
      whose buffer is exactly those lines; anything pending before is dropped. */
  lemma {:induction false} RunOpen(st: Scan, opener: string, body: seq<string>)
    requires Contains(opener, Opener)
    requires forall k :: 0 <= k < |body| ==> !Contains(body[k], Opener) && !Contains(body[k], Closer)
    ensures Steps(st, [opener] + body) == Scan(true, opener + Concat(body), st.out)
    decreases |body|
  {
    if body == [] {
      assert Steps(st, [opener]) == Step(Steps(st, []), opener, false);
      assert opener + "" == opener;
    } else {
      var init := body[..|body| - 1];
      RunOpen(st, opener, init);
      assert ([opener] + body)[..|[opener] + body| - 1] == [opener] + init;
    }
  }

  /** A run is emitted verbatim once a later line contains `]]>`. */
  lemma RunClosedVerbatim(st: Scan, opener: string, body: seq<string>, closer: string)
    requires Contains(opener, Opener)
    requires forall k :: 0 <= k < |body| ==> !Contains(body[k], Opener) && !Contains(body[k], Closer)
    requires !Contains(closer, Opener) && Contains(closer, Closer)
    ensures Steps(st, [opener] + body + [closer]) == Scan(false, "", st.out + (opener + Concat(body) + closer))
  {
    RunOpen(st, opener, body);
    StepsAppend(st, [opener] + body, [closer]);
    assert Steps(Steps(st, [opener] + body), [closer]) == Step(Steps(st, [opener] + body), closer, false);
  }

  /** A final line reached inside a run flushes the run with `]]>` added unless
      the buffer already ends with it. */
  lemma RunOpenAtEnd(opener: string, body: seq<string>, last: string, before: seq<string>)
    requires Contains(opener, Opener)
    requires forall k :: 0 <= k < |body| ==> !Contains(body[k], Opener) && !Contains(body[k], Closer)
    requires !Contains(last, Opener) && !Contains(last, Closer)
    ensures FixedContent(before + [opener] + body + [last])
         == Steps(Start, before).out + Closed(opener + Concat(body) + last)
  {
    var lines := before + [opener] + body + [last];
    assert lines[..|lines| - 1] == before + ([opener] + body);
    StepsAppend(Start, before, [opener] + body);
    RunOpen(Steps(Start, before), opener, body);
  }

  /** Nothing is flushed after the loop: an opener on the final line never
      reaches the output, and neither does the run it would start. */
  lemma FinalOpenerLost(lines: seq<string>)
    requires lines != [] && Contains(lines[|lines| - 1], Opener)
    ensures FixedContent(lines) == Steps(Start, lines[..|lines| - 1]).out
  {
  }
}
