/** `comprehensive_xml_fix.py`: a one-shot repair of an export file. It blanks
    out characters XML cannot hold, dissolves CDATA sections into escaped text,
    drops stray CDATA markers, escapes bare ampersands and makes sure the file
    opens with an XML declaration. The two regular-expression passes over CDATA
    sections (lines 50-54) are a parameter of the model. */
module ComprehensiveXmlFix {
  import opened Text

  // ---------------------------------------------------------------------------
  // Step 1: the character filter

  /** `set(string.printable) - set(string.whitespace) | {'\t', '\n', '\r'}`:
      the visible ASCII characters `!`..`~` plus tab, newline and carriage
      return. The space itself is not in the set. */
  predicate IsAllowedChar(c: char) {
    ('!' <= c <= '~') || c == '\t' || c == '\n' || c == '\r'
  }

  function CleanChar(c: char): char {
    if IsAllowedChar(c) then c else ' '
  }

  /** The text the filter loop builds, one output character per input
      character. The filter keeps the length and the position of every
      character; allowed characters survive and everything else, non-ASCII
      included, becomes a space. */
  function Cleaned(s: string): (r: string)
    ensures |r| == |s|
    ensures forall i :: 0 <= i < |s| ==> IsAllowedChar(r[i]) || r[i] == ' '
    ensures forall i :: 0 <= i < |s| ==> (r[i] == s[i] <==> IsAllowedChar(s[i]) || s[i] == ' ')
  {
    seq(|s|, i requires 0 <= i < |s| => CleanChar(s[i]))
  }

  /** Filtering a filtered text changes nothing. */
  lemma CleanedIdempotent(s: string)
    ensures Cleaned(Cleaned(s)) == Cleaned(s)
  {
  }

  /** The loop of lines 26-31, appending one character per step. */
  method CleanCharacters(content: string) returns (cleaned: string)
    ensures cleaned == Cleaned(content)
  {
    cleaned := "";
    var i := 0;
    while i < |content|
      invariant 0 <= i <= |content|
      invariant cleaned == Cleaned(content[..i])
    {
      if IsAllowedChar(content[i]) {
        cleaned := cleaned + [content[i]];
      } else {
        cleaned := cleaned + " ";
      }
      i := i + 1;
    }
    assert content[..i] == content;
  }

  // ---------------------------------------------------------------------------
  // Escaping: `replace_cdata` and lines 66-68

  /** What the escaping replaces make of one character. `&` always becomes
      `&amp;`; `<` and `>` become `&lt;` and `&gt;` while `lt` and `gt` hold. */
  function EscapeChar(c: char, lt: bool, gt: bool): string {
    if c == '&' then "&amp;"
    else if c == '<' && lt then "&lt;"
    else if c == '>' && gt then "&gt;"
    else [c]
  }

  /** The character-by-character reference for the replace chains. */
  function EscapeWith(s: string, lt: bool, gt: bool): string
    decreases |s|
  {
    if s == [] then [] else EscapeChar(s[0], lt, gt) + EscapeWith(s[1..], lt, gt)
  }

  /** `replace('&', '&amp;')`, then `'<'`, then `'>'`: the body of `replace_cdata`
      and lines 66-68. Because `&` goes first, the entities brought in by the
      later two are not escaped again, and no raw `<` or `>` is left. */
  function EscapeMarkup(s: string): (r: string)
    ensures '<' !in r && '>' !in r
  {
    var a := Replace(s, "&", "&amp;");
    var b := Replace(a, "<", "&lt;");
    ReplaceRemovesChar(a, '<', "&lt;");
    ReplaceRemovesChar(b, '>', "&gt;");
    ReplaceKeepsAbsent(b, ">", "&gt;", '<');
    Replace(b, ">", "&gt;")
  }

  /** `s.replace(c, rep)` for one character, spelled out per character. */
  function SubstChar(s: string, c: char, rep: string): string
    decreases |s|
  {
    if s == [] then [] else (if s[0] == c then rep else [s[0]]) + SubstChar(s[1..], c, rep)
  }

  lemma {:induction false} ReplaceOneChar(s: string, c: char, rep: string)
    ensures Replace(s, [c], rep) == SubstChar(s, c, rep)
    decreases |s|
  {
    if s != [] {
      ReplaceOneChar(s[1..], c, rep);
      assert s[..1] == [s[0]];
    }
  }

  lemma {:induction false} SubstConcat(a: string, b: string, c: char, rep: string)
    ensures SubstChar(a + b, c, rep) == SubstChar(a, c, rep) + SubstChar(b, c, rep)
    decreases |a|
  {
    if a != [] {
      assert (a + b)[1..] == a[1..] + b;
      SubstConcat(a[1..], b, c, rep);
    } else {
      assert a + b == b;
    }
  }

  lemma {:induction false} SubstAbsent(s: string, c: char, rep: string)
    requires c !in s
    ensures SubstChar(s, c, rep) == s
    decreases |s|
  {
    if s != [] {
      SubstAbsent(s[1..], c, rep);
    }
  }

  /** The three replaces of `EscapeMarkup` escape each character on its own. */
  lemma {:induction false} EscapeMarkupPerChar(s: string)
    ensures EscapeMarkup(s) == EscapeWith(s, true, true)
  {
    ReplaceOneChar(s, '&', "&amp;");
    ReplaceOneChar(SubstChar(s, '&', "&amp;"), '<', "&lt;");
    ReplaceOneChar(SubstChar(SubstChar(s, '&', "&amp;"), '<', "&lt;"), '>', "&gt;");
    SubstChainPerChar(s);
  }

  lemma {:induction false} SubstChainPerChar(s: string)
    ensures SubstChar(SubstChar(SubstChar(s, '&', "&amp;"), '<', "&lt;"), '>', "&gt;")
         == EscapeWith(s, true, true)
    decreases |s|
  {
    if s != [] {
      var c, rest := s[0], s[1..];
      var e1 := if c == '&' then "&amp;" else [c];
      var r1 := SubstChar(rest, '&', "&amp;");
      assert SubstChar(s, '&', "&amp;") == e1 + r1;
      SubstConcat(e1, r1, '<', "&lt;");
      var e2 := SubstChar(e1, '<', "&lt;");
      var r2 := SubstChar(r1, '<', "&lt;");
      SubstConcat(e2, r2, '>', "&gt;");
      SubstChainPerChar(rest);
      if c == '&' {
        SubstAbsent(e1, '<', "&lt;");
        SubstAbsent(e1, '>', "&gt;");
      } else if c == '<' {
        assert e2 == "&lt;";
        SubstAbsent(e2, '>', "&gt;");
      } else {
        assert e2 == [c];
      }
    }
  }

  // ---------------------------------------------------------------------------
  // Step 3: markers, escaping and the partial un-escaping (lines 62-75)

  /** `&lt;` back to `<` and `&gt;` back to `>` (lines 71-72). */
  function RestoreTags(s: string): string {
    Replace(Replace(s, "&lt;", "<"), "&gt;", ">")
  }

  /** Lines 62-75 in order: both CDATA markers removed, the three escaping
      replaces, the two restoring replaces and the collapse of `&amp;amp;`.
      The net effect: with the markers gone, every `&` that does not already
      begin `&amp;` becomes `&amp;`, and `<` and `>` come back unchanged. */
  function FixStructure(s: string): (r: string)
    ensures r == EscapeBareAmpersands(Replace(Replace(s, "<![CDATA[", ""), "]]>", ""))
  {
    var t := Replace(Replace(s, "<![CDATA[", ""), "]]>", "");
    EscapeMarkupPerChar(t);
    RestoreLt(t, true);
    RestoreGt(t);
    CollapseDoubled(t);
    Replace(RestoreTags(EscapeMarkup(t)), "&amp;amp;", "&amp;")
  }

  /** The net effect intended by lines 66-75: each `&` that does not already
      begin `&amp;` becomes `&amp;`, and nothing else changes. Afterwards every
      `&` begins `&amp;`. */
  function EscapeBareAmpersands(s: string): (r: string)
    ensures forall i :: 0 <= i < |r| && r[i] == '&' ==> StartsWith(r[i..], "&amp;")
    decreases |s|, 0
  {
    if s == [] then []
    else
      var rest := EscapeBareAmpersands(s[1..]);
      var h := if s[0] == '&' && !StartsWith(s, "&amp;") then "&amp;" else [s[0]];
      if s[0] == '&' && StartsWith(s, "&amp;") then
        assert s[..5][1..] == "amp;";
        assert s[1..] == s[..5][1..] + s[5..];
        AmpersandFreePrefix("amp;", s[5..]);
        ShiftStartsWith(h, rest);
        h + rest
      else
        ShiftStartsWith(h, rest);
        h + rest
  }

  /** Positions past a head keep their `&amp;` property. */
  lemma ShiftStartsWith(h: string, rest: string)
    requires h == "&amp;" || (|h| == 1 && (h[0] == '&' ==> StartsWith(rest, "amp;")))
    requires forall i :: 0 <= i < |rest| && rest[i] == '&' ==> StartsWith(rest[i..], "&amp;")
    ensures forall i :: 0 <= i < |h + rest| && (h + rest)[i] == '&' ==> StartsWith((h + rest)[i..], "&amp;")
  {
    var x := h + rest;
    forall i | 0 <= i < |x| && x[i] == '&'
      ensures StartsWith(x[i..], "&amp;")
    {
      if i >= |h| {
        assert x[i..] == rest[i - |h|..];
      } else if h == "&amp;" {
        assert i == 0;
        assert x[..5] == h;
      } else {
        assert x[..5] == h + rest[..4];
      }
    }
  }

  /** A stretch without `&` passes through `EscapeBareAmpersands` as it is. */
  lemma {:induction false} AmpersandFreePrefix(x: string, t: string)
    requires '&' !in x
    ensures EscapeBareAmpersands(x + t) == x + EscapeBareAmpersands(t)
    decreases |x| + |t|, 1
  {
    if x != [] {
      assert (x + t)[1..] == x[1..] + t;
      AmpersandFreePrefix(x[1..], t);
    } else {
      assert x + t == t;
    }
  }

  /** A text that differs from `pat` at some position does not start with it. */
  lemma MismatchAt(x: string, pat: string, k: nat)
    requires k < |pat| && k < |x| && x[k] != pat[k]
    ensures !StartsWith(x, pat)
  {
    if |pat| <= |x| {
      assert x[..|pat|][k] == x[k];
    }
  }

  /** Replacing leaves a block alone when `pat` neither starts at its first
      character nor begins anywhere after it. */
  lemma ReplaceBlock(b: string, rest: string, pat: string, rep: string)
    requires pat != [] && b != [] && pat[0] !in b[1..]
    requires !StartsWith(b + rest, pat)
    ensures Replace(b + rest, pat, rep) == b + Replace(rest, pat, rep)
  {
    var x := b + rest;
    if |x| < |pat| {
      ReplaceAbsentShort(rest, pat, rep);
      ReplaceAbsentShort(x, pat, rep);
    } else {
      ReplaceMismatch(x, pat, rep);
      assert x[0] == b[0] && x[1..] == b[1..] + rest;
      ReplaceSkips(b[1..], rest, pat, rep);
      ConsAssoc(b, Replace(rest, pat, rep));
    }
  }

  /** Splitting off the head of a non-empty prefix. */
  lemma ConsAssoc(b: string, t: string)
    requires b != []
    ensures [b[0]] + (b[1..] + t) == b + t
  {
    assert b == [b[0]] + b[1..];
  }

  /** Where `pat` does not start, the first character is copied. */
  lemma ReplaceMismatch(x: string, pat: string, rep: string)
    requires pat != [] && |x| >= |pat| && !StartsWith(x, pat)
    ensures Replace(x, pat, rep) == [x[0]] + Replace(x[1..], pat, rep)
  {
  }

  /** Turning `&lt;` back into `<` undoes exactly the escaping of `<`. */
  lemma {:induction false} RestoreLt(s: string, gt: bool)
    ensures Replace(EscapeWith(s, true, gt), "&lt;", "<") == EscapeWith(s, false, gt)
    decreases |s|
  {
    if s != [] {
      var e, rest := EscapeChar(s[0], true, gt), EscapeWith(s[1..], true, gt);
      RestoreLt(s[1..], gt);
      if s[0] == '<' {
        ReplaceAtStart(rest, "&lt;", "<");
      } else {
        if |e| == 1 {
          MismatchAt(e + rest, "&lt;", 0);
        } else {
          assert e[1..] == "amp;" || e[1..] == "gt;";
          MismatchAt(e + rest, "&lt;", 1);
        }
        ReplaceBlock(e, rest, "&lt;", "<");
      }
    }
  }

  /** Turning `&gt;` back into `>` undoes exactly the escaping of `>`. */
  lemma {:induction false} RestoreGt(s: string)
    ensures Replace(EscapeWith(s, false, true), "&gt;", ">") == EscapeWith(s, false, false)
    decreases |s|
  {
    if s != [] {
      var e, rest := EscapeChar(s[0], false, true), EscapeWith(s[1..], false, true);
      RestoreGt(s[1..]);
      if s[0] == '>' {
        ReplaceAtStart(rest, "&gt;", ">");
      } else {
        if |e| == 1 {
          MismatchAt(e + rest, "&gt;", 0);
        } else {
          assert e[1..] == "amp;";
          MismatchAt(e + rest, "&gt;", 1);
        }
        ReplaceBlock(e, rest, "&gt;", ">");
      }
    }
  }

  /** Escaping only `&` never changes a stretch without `&`. */
  lemma {:induction false} DoubledAmpersandFree(x: string, t: string)
    requires '&' !in x
    ensures EscapeWith(x + t, false, false) == x + EscapeWith(t, false, false)
    decreases |x|
  {
    if x != [] {
      assert (x + t)[1..] == x[1..] + t;
      DoubledAmpersandFree(x[1..], t);
    } else {
      assert x + t == t;
    }
  }

  /** An `&`-free prefix of the escaped text was already a prefix of the input. */
  lemma {:induction false} DoubledPrefix(s: string, x: string)
    requires '&' !in x
    ensures StartsWith(EscapeWith(s, false, false), x) ==> StartsWith(s, x)
    decreases |x|
  {
    var d := EscapeWith(s, false, false);
    if x != [] && StartsWith(d, x) {
      assert d[..|x|][0] == d[0];
      assert s[0] != '&';
      assert d == [s[0]] + EscapeWith(s[1..], false, false);
      assert StartsWith(EscapeWith(s[1..], false, false), x[1..]) by {
        assert d[1..|x|] == x[1..];
      }
      DoubledPrefix(s[1..], x[1..]);
      assert s[..|x|] == [s[0]] + s[1..][..|x| - 1];
    }
  }

  /** `&amp;` at the front is an `&` followed by `amp;`. */
  lemma EntityAfterAmpersand(s: string)
    requires s != []
    ensures StartsWith(s, "&amp;") <==> s[0] == '&' && StartsWith(s[1..], "amp;")
  {
    if |s| >= 5 {
      assert s[..5] == [s[0]] + s[1..][..4];
    }
  }

  /** `&amp;amp;` can only begin where `&amp;` is followed by `amp;`. */
  lemma CollapseNeedsEntity(d: string)
    ensures StartsWith("&amp;" + d, "&amp;amp;") ==> StartsWith(d, "amp;")
  {
    if StartsWith("&amp;" + d, "&amp;amp;") {
      assert d[..4] == ("&amp;" + d)[..9][5..];
    }
  }

  /** Collapsing `&amp;amp;` after doubling every `&` leaves original `&amp;`
      entities alone and escapes every other `&`. */
  lemma {:induction false} CollapseDoubled(s: string)
    ensures Replace(EscapeWith(s, false, false), "&amp;amp;", "&amp;") == EscapeBareAmpersands(s)
    decreases |s|
  {
    if s == [] {
      ReplaceAbsentShort([], "&amp;amp;", "&amp;");
    } else if s[0] != '&' {
      CollapseDoubled(s[1..]);
      CollapsePlainStep(s);
    } else if StartsWith(s, "&amp;") {
      CollapseDoubled(s[5..]);
      CollapseEntityStep(s);
    } else {
      CollapseDoubled(s[1..]);
      CollapseBareStep(s);
    }
  }

  /** The step of `CollapseDoubled` past a character other than `&`. */
  lemma CollapsePlainStep(s: string)
    requires s != [] && s[0] != '&'
    requires Replace(EscapeWith(s[1..], false, false), "&amp;amp;", "&amp;") == EscapeBareAmpersands(s[1..])
    ensures Replace(EscapeWith(s, false, false), "&amp;amp;", "&amp;") == EscapeBareAmpersands(s)
  {
    ReplaceSkips([s[0]], EscapeWith(s[1..], false, false), "&amp;amp;", "&amp;");
  }

  /** The step of `CollapseDoubled` past an `&amp;` entity. */
  lemma CollapseEntityStep(s: string)
    requires StartsWith(s, "&amp;")
    requires Replace(EscapeWith(s[5..], false, false), "&amp;amp;", "&amp;") == EscapeBareAmpersands(s[5..])
    ensures Replace(EscapeWith(s, false, false), "&amp;amp;", "&amp;") == EscapeBareAmpersands(s)
  {
    var t := s[5..];
    assert s == s[..5] + t;
    EntityDoubled(t);
    ReplaceAtStart(EscapeWith(t, false, false), "&amp;amp;", "&amp;");
    EntityKept(t);
  }

  /** An `&amp;` entity passes through `EscapeBareAmpersands` as it is. */
  lemma EntityKept(t: string)
    ensures EscapeBareAmpersands("&amp;" + t) == "&amp;" + EscapeBareAmpersands(t)
  {
    var s := "&amp;" + t;
    assert s[0] == '&';
    assert s[..5] == "&amp;";
    assert s[1..] == "amp;" + t;
    AmpersandFreePrefix("amp;", t);
    assert "&" + "amp;" == "&amp;";
    ConcatAssoc("&", "amp;", EscapeBareAmpersands(t));
  }

  /** Doubling the `&` of an `&amp;` entity gives `&amp;amp;`. */
  lemma EntityDoubled(t: string)
    ensures EscapeWith("&amp;" + t, false, false) == "&amp;amp;" + EscapeWith(t, false, false)
  {
    var s := "&amp;" + t;
    assert s[0] == '&';
    assert s[1..] == "amp;" + t;
    DoubledAmpersandFree("amp;", t);
    assert "&amp;" + "amp;" == "&amp;amp;";
    ConcatAssoc("&amp;", "amp;", EscapeWith(t, false, false));
  }

  /** The step of `CollapseDoubled` past a bare `&`. */
  lemma CollapseBareStep(s: string)
    requires s != [] && s[0] == '&' && !StartsWith(s, "&amp;")
    requires Replace(EscapeWith(s[1..], false, false), "&amp;amp;", "&amp;") == EscapeBareAmpersands(s[1..])
    ensures Replace(EscapeWith(s, false, false), "&amp;amp;", "&amp;") == EscapeBareAmpersands(s)
  {
    var d := EscapeWith(s[1..], false, false);
    CollapseNeedsEntity(d);
    DoubledPrefix(s[1..], "amp;");
    EntityAfterAmpersand(s);
    ReplaceBlock("&amp;", d, "&amp;amp;", "&amp;");
  }

  // ---------------------------------------------------------------------------
  // Step 4 and the whole script

  const XmlPrefix := "<?xml"
  const XmlDeclaration := XmlPrefix + " version=\"1.0\" encoding=\"UTF-8\"?>\n"

  /** Lines 83-84: the declaration is put in front only when the text does not
      already start with `<?xml`; either way the original text ends the result. */
  function WithDeclaration(s: string): (r: string)
    ensures StartsWith(r, XmlPrefix)
    ensures |s| <= |r| && r[|r| - |s|..] == s
  {
    if StartsWith(s, XmlPrefix) then s
    else
      assert (XmlDeclaration + s)[..|XmlPrefix|] == XmlPrefix;
      XmlDeclaration + s
  }

  lemma WithDeclarationIdempotent(s: string)
    ensures WithDeclaration(WithDeclaration(s)) == WithDeclaration(s)
  {
  }

  /** `fix_xml_comprehensively` on the text of the input file. `cdataPass`
      stands for the two regular-expression substitutions of lines 50-54. */
  method FixXmlComprehensively(content: string, cdataPass: string -> string) returns (output: string)
    ensures output == WithDeclaration(FixStructure(cdataPass(Cleaned(content))))
    ensures StartsWith(output, XmlPrefix)
  {
    var cleaned := CleanCharacters(content);
    cleaned := cdataPass(cleaned);
    cleaned := FixStructure(cleaned);
    output := WithDeclaration(cleaned);
  }
}
