/** `robust_xml_parser.py`: repairs CDATA sections that an export left open by
    scanning the file line by line (lines 41-72). A line holding `<![CDATA[`
    opens a run; the run's lines are held back until a line holding `]]>` closes
    it, a blank line or a closing tag ends it (a `]]>` line is then added), or
    the input ends (likewise). The regular-expression pass of lines 20-37
    computes a value that is never used and is not part of the model. */
module RobustXmlParser {
  import opened Text

  const Opener := "<![CDATA["
  const Closer := "]]>"

  /** The loop's variables: `in_cdata`, `cdata_buffer` and `fixed_lines`. */
  datatype LineScan = LineScan(inCdata: bool, buffer: seq<string>, fixed: seq<string>)

  const Start := LineScan(false, [], [])

  /** `line.strip() == '' or line.strip().startswith('</')`: a blank line or a
      closing tag ends an unclosed run. */
  predicate EndsRun(line: string) {
    var t := Strip(line);
    t == [] || StartsWith(t, "</")
  }

  /** A line inside a run that neither opens, closes nor ends it. */
  predicate RunBody(line: string) {
    !Contains(line, Opener) && !Contains(line, Closer) && !EndsRun(line)
  }

  /** One pass of the loop body, lines 47-64. */
  function Step(st: LineScan, line: string): (r: LineScan)
    ensures st.fixed <= r.fixed
    ensures r.inCdata <==> Contains(line, Opener) || (st.inCdata && RunBody(line))
    ensures r.inCdata ==> r.buffer != []
  {
    if Contains(line, Opener) then LineScan(true, [line], st.fixed)
    else if st.inCdata then
      var buf := st.buffer + [line];
      if Contains(line, Closer) then LineScan(false, [], st.fixed + buf)
      else if EndsRun(line) then LineScan(false, [], st.fixed + (buf + [Closer]))
      else LineScan(true, buf, st.fixed)
    else LineScan(st.inCdata, st.buffer, st.fixed + [line])
  }

  /** The state after the loop has seen `lines`, one step per line. */
  function Steps(st: LineScan, lines: seq<string>): LineScan
    decreases |lines|
  {
    if lines == [] then st else Step(Steps(st, lines[..|lines| - 1]), lines[|lines| - 1])
  }

  /** Lines 66-69: a run still open at the end is flushed with a closing line. */
  function Finish(st: LineScan): seq<string> {
    if st.inCdata && st.buffer != [] then st.fixed + (st.buffer + [Closer]) else st.fixed
  }

  function FixedLines(lines: seq<string>): seq<string> {
    Finish(Steps(Start, lines))
  }

  /** The repaired text: the input split on newlines, scanned, and joined
      again. A text with no `<![CDATA[` anywhere comes out exactly as it went in. */
  function FixCdataText(content: string): (r: string)
    ensures !Contains(content, Opener) ==> r == content
  {
    PlainTextKept(content);
    JoinWith("\n", FixedLines(SplitOn(content, '\n')))
  }

  /** Lines 41-72 of `fix_xml_cdata`, on the text already read from the file. */
  method FixXmlCdata(content: string) returns (finalContent: string)
    ensures finalContent == FixCdataText(content)
  {
    var lines := SplitOn(content, '\n');
    var fixedLines: seq<string> := [];
    var inCdata := false;
    var cdataBuffer: seq<string> := [];
    var i := 0;
    while i < |lines|
      invariant 0 <= i <= |lines|
      invariant LineScan(inCdata, cdataBuffer, fixedLines) == Steps(Start, lines[..i])
    {
      var line := lines[i];
      assert lines[..i + 1][..i] == lines[..i];
      if Contains(line, Opener) {
        inCdata := true;
        cdataBuffer := [line];
      } else if inCdata {
        cdataBuffer := cdataBuffer + [line];
        if Contains(line, Closer) {
          fixedLines := fixedLines + cdataBuffer;
          inCdata := false;
          cdataBuffer := [];
        } else if EndsRun(line) {
          cdataBuffer := cdataBuffer + [Closer];
          fixedLines := fixedLines + cdataBuffer;
          inCdata := false;
          cdataBuffer := [];
        }
      } else {
        fixedLines := fixedLines + [line];
      }
      i := i + 1;
    }
    assert lines[..i] == lines;
    if inCdata && cdataBuffer != [] {
      cdataBuffer := cdataBuffer + [Closer];
      fixedLines := fixedLines + cdataBuffer;
    }
    finalContent := JoinWith("\n", fixedLines);
  }

  // ---------------------------------------------------------------------------
  // What the scan does to the lines

  /** Scanning in two pieces is scanning the whole. */
  lemma {:induction false} StepsAppend(st: LineScan, xs: seq<string>, ys: seq<string>)
    ensures Steps(st, xs + ys) == Steps(Steps(st, xs), ys)
    decreases |ys|
  {
    if ys == [] {
      assert xs + ys == xs;
    } else {
      StepsAppend(st, xs, ys[..|ys| - 1]);
      assert (xs + ys)[..|xs + ys| - 1] == xs + ys[..|ys| - 1];
    }
  }

  /** Outside a run, lines without an opener are copied in order. */
  lemma {:induction false} PlainLinesCopied(st: LineScan, lines: seq<string>)
    requires !st.inCdata
    requires forall k :: 0 <= k < |lines| ==> !Contains(lines[k], Opener)
    ensures Steps(st, lines) == LineScan(false, st.buffer, st.fixed + lines)
    decreases |lines|
  {
    if lines != [] {
      var init := lines[..|lines| - 1];
      PlainLinesCopied(st, init);
      assert init + [lines[|lines| - 1]] == lines;
    }
  }

  /** An opener line followed by body lines leaves a run open holding exactly
      those lines; whatever was pending before the opener is gone. */
  lemma {:induction false} RunOpen(st: LineScan, opener: string, body: seq<string>)
    requires Contains(opener, Opener)
    requires forall k :: 0 <= k < |body| ==> RunBody(body[k])
    ensures Steps(st, [opener] + body) == LineScan(true, [opener] + body, st.fixed)
    decreases |body|
  {
    if body == [] {
      assert Steps(st, [opener]) == Step(Steps(st, []), opener);
    } else {
      var init := body[..|body| - 1];
      RunOpen(st, opener, init);
      RunExtended(st, opener, init, body[|body| - 1]);
      InitLast(body);
    }
  }

  /** One more body line joins the open run. */
  lemma RunExtended(st: LineScan, opener: string, init: seq<string>, line: string)
    requires RunBody(line)
    requires Steps(st, [opener] + init) == LineScan(true, [opener] + init, st.fixed)
    ensures Steps(st, [opener] + (init + [line])) == LineScan(true, [opener] + (init + [line]), st.fixed)
  {
    var xs := [opener] + (init + [line]);
    ConsSnoc(opener, init, line);
    StepsLast(st, xs);
    StepInRun(Steps(st, [opener] + init), line);
  }

  lemma InitLast<T>(xs: seq<T>)
    requires xs != []
    ensures xs[..|xs| - 1] + [xs[|xs| - 1]] == xs
  {
  }

  lemma StepsLast(st: LineScan, xs: seq<string>)
    requires xs != []
    ensures Steps(st, xs) == Step(Steps(st, xs[..|xs| - 1]), xs[|xs| - 1])
  {
  }

  /** A body line inside an open run is held back in the buffer. */
  lemma StepInRun(s: LineScan, line: string)
    requires s.inCdata && RunBody(line)
    ensures Step(s, line) == LineScan(true, s.buffer + [line], s.fixed)
  {
  }

  /** How a sequence built as `[a] + (init + [x])` splits at its last element. */
  lemma ConsSnoc<T>(a: T, init: seq<T>, x: T)
    ensures var xs := [a] + (init + [x]);
      xs != [] && xs[..|xs| - 1] == [a] + init && xs[|xs| - 1] == x && xs == ([a] + init) + [x]
  {
    var xs := [a] + (init + [x]);
    assert xs == ([a] + init) + [x];
  }

  /** A run closed by a later `]]>` line is copied verbatim, nothing added. The
      opener line's own `]]>` does not close it. */
  lemma RunClosedVerbatim(st: LineScan, opener: string, body: seq<string>, closer: string)
    requires Contains(opener, Opener)
    requires forall k :: 0 <= k < |body| ==> RunBody(body[k])
    requires !Contains(closer, Opener) && Contains(closer, Closer)
    ensures Steps(st, [opener] + body + [closer]) == LineScan(false, [], st.fixed + ([opener] + body + [closer]))
  {
    RunOpen(st, opener, body);
    StepsAppend(st, [opener] + body, [closer]);
    assert Steps(Steps(st, [opener] + body), [closer]) == Step(Steps(st, [opener] + body), closer);
  }

  /** A run cut short by a blank line or a closing tag is copied with that line
      and then an added `]]>` line. */
  lemma RunEndedByBoundary(st: LineScan, opener: string, body: seq<string>, boundary: string)
    requires Contains(opener, Opener)
    requires forall k :: 0 <= k < |body| ==> RunBody(body[k])
    requires !Contains(boundary, Opener) && !Contains(boundary, Closer) && EndsRun(boundary)
    ensures Steps(st, [opener] + body + [boundary])
         == LineScan(false, [], st.fixed + (([opener] + body + [boundary]) + [Closer]))
  {
    RunOpen(st, opener, body);
    StepsAppend(st, [opener] + body, [boundary]);
    assert Steps(Steps(st, [opener] + body), [boundary]) == Step(Steps(st, [opener] + body), boundary);
  }

  /** A run still open when the input ends is flushed followed by a `]]>` line. */
  lemma RunOpenAtEnd(st: LineScan, opener: string, body: seq<string>)
    requires Contains(opener, Opener)
    requires forall k :: 0 <= k < |body| ==> RunBody(body[k])
    ensures Finish(Steps(st, [opener] + body)) == st.fixed + (([opener] + body) + [Closer])
  {
    RunOpen(st, opener, body);
  }

  /** A second opener before the first run is closed discards the first run's
      lines for good: they never reach the output. */
  lemma PendingRunDiscarded(st: LineScan, opener: string, body: seq<string>, next: string)
    requires Contains(opener, Opener) && Contains(next, Opener)
    requires forall k :: 0 <= k < |body| ==> RunBody(body[k])
    ensures Steps(st, [opener] + body + [next]) == LineScan(true, [next], st.fixed)
  {
    RunOpen(st, opener, body);
    StepsAppend(st, [opener] + body, [next]);
    assert Steps(Steps(st, [opener] + body), [next]) == Step(Steps(st, [opener] + body), next);
  }

  /** A piece of `s.split(sep)` that contains `sub` means `s` contains it. */
  lemma {:induction false} SplitPieceContains(s: string, sep: char, sub: string, j: nat)
    requires j < |SplitOn(s, sep)|
    ensures Contains(SplitOn(s, sep)[j], sub) ==> Contains(s, sub)
    decreases |s|
  {
    var k := IndexOf(s, sep);
    if k < |s| {
      var rest := SplitOn(s[k + 1..], sep);
      assert SplitOn(s, sep) == [s[..k]] + rest;
      if j == 0 {
        assert s[0..k] == s[..k];
        SliceContains(s, 0, k, sub);
      } else {
        assert SplitOn(s, sep)[j] == rest[j - 1];
        SplitPieceContains(s[k + 1..], sep, sub, j - 1);
        assert s[k + 1..|s|] == s[k + 1..];
        SliceContains(s, k + 1, |s|, sub);
      }
    }
  }

  /** Whatever a slice of `s` contains, `s` contains. */
  lemma SliceContains(s: string, a: nat, b: nat, sub: string)
    requires a <= b <= |s|
    ensures Contains(s[a..b], sub) ==> Contains(s, sub)
  {
    if Contains(s[a..b], sub) {
      var t := s[a..b];
      var w := ContainsWitness(t, sub);
      forall i | 0 <= i < |sub| ensures s[a + w + i] == sub[i] {
        assert t[w + i] == sub[i];
      }
      assert s[a + w..a + w + |sub|] == sub;
      ContainsAt(s, sub, a + w);
    }
  }

  lemma PlainTextKept(content: string)
    ensures !Contains(content, Opener) ==> JoinWith("\n", FixedLines(SplitOn(content, '\n'))) == content
  {
    if !Contains(content, Opener) {
      var lines := SplitOn(content, '\n');
      forall k | 0 <= k < |lines|
        ensures !Contains(lines[k], Opener)
      {
        SplitPieceContains(content, '\n', Opener, k);
      }
      PlainLinesCopied(Start, lines);
      assert [] + lines == lines;
      assert FixedLines(lines) == lines;
      JoinSplitOn(content, '\n');
    }
  }
}
