/** Cleaning of a post's text fields: CDATA unwrapping, tag stripping, title,
    excerpt, author, slug, taxonomy and status normalisation, the attribute
    whitelist and the passes over a post's HTML tree
    (framer_blog_converter/src/content_processor.py). */
module ContentProcessor {
  import opened Wrappers
  import opened Text
  import opened Markup
  import opened Config

  // ---------------------------------------------------------------------------
  // Character references

  /** The character reference at the start of `s`, as the decoded character and
      the length of the reference. This model decodes `&amp;`, `&lt;`, `&gt;`,
      `&quot;`, `&#39;` and `&apos;`. */
  function EntityAt(s: string): (r: Option<(char, nat)>)
    ensures r.Some? ==> 2 <= r.value.1 <= |s| && s[0] == '&'
  {
    if StartsWith(s, "&amp;") then Some(('&', 5))
    else if StartsWith(s, "&lt;") then Some(('<', 4))
    else if StartsWith(s, "&gt;") then Some(('>', 4))
    else if StartsWith(s, "&quot;") then Some(('"', 6))
    else if StartsWith(s, "&#39;") then Some(('\'', 5))
    else if StartsWith(s, "&apos;") then Some(('\'', 6))
    else None
  }

  /** `html.unescape(s)`: references decoded left to right, everything else copied. */
  function Unescape(s: string): (r: string)
    ensures |r| <= |s|
    ensures '&' !in s ==> r == s
    decreases |s|
  {
    if s == [] then []
    else
      match EntityAt(s)
      case Some((c, n)) => [c] + Unescape(s[n..])
      case None => [s[0]] + Unescape(s[1..])
  }

  // ---------------------------------------------------------------------------
  // Tag stripping

  /** `re.match(r'<[^>]+>', s)`: `s` opens with `<`, at least one character that
      is not `>`, then a `>`. */
  predicate TagAtStart(s: string) {
    |s| >= 2 && s[0] == '<' && s[1] != '>' && '>' in s
  }

  /** No `<` is followed by a tag body and a `>`: each `<` is directly followed
      by `>` or no `>` comes after it. */
  predicate TagFree(s: string) {
    forall i :: 0 <= i < |s| && s[i] == '<' ==> (i + 1 < |s| && s[i + 1] == '>') || '>' !in s[i + 1..]
  }

  /** `re.sub(r'<[^>]+>', '', s)`: each tag, from a `<` to the first `>` after it,
      is deleted, scanning left to right. */
  function RemoveTags(s: string): (r: string)
    ensures |r| <= |s|
    ensures TagFree(r)
    ensures '>' !in s ==> '>' !in r
    ensures s != [] && s[0] == '>' ==> r != [] && r[0] == '>'
    decreases |s|
  {
    if s == [] then []
    else if TagAtStart(s) then RemoveTags(s[IndexOf(s, '>') + 1..])
    else
      var rest := RemoveTags(s[1..]);
      assert s[0] == '<' ==> (|s| >= 2 && s[1] == '>') || '>' !in s[1..];
      ConsTagFree(s[0], rest);
      [s[0]] + rest
  }

  /** A character put in front of tag-free text keeps it tag-free, unless it is
      a `<` that now opens a tag. */
  lemma ConsTagFree(c: char, rest: string)
    requires TagFree(rest)
    requires c == '<' ==> (rest != [] && rest[0] == '>') || '>' !in rest
    ensures TagFree([c] + rest)
  {
    var r := [c] + rest;
    forall i | 0 <= i < |r| && r[i] == '<'
      ensures (i + 1 < |r| && r[i + 1] == '>') || '>' !in r[i + 1..]
    {
      assert r[i + 1..] == rest[i..];
      if i > 0 {
        assert r[i] == rest[i - 1];
      }
    }
  }

  /** Text without tags passes through unchanged, so removing tags twice is
      removing them once. */
  lemma {:induction false} RemoveTagsTagFree(s: string)
    requires TagFree(s)
    ensures RemoveTags(s) == s
    decreases |s|
  {
    if s != [] {
      assert s[1..] == s[0 + 1..];
      assert !TagAtStart(s);
      assert TagFree(s[1..]) by {
        forall i | 0 <= i < |s[1..]| && s[1..][i] == '<'
          ensures (i + 1 < |s[1..]| && s[1..][i + 1] == '>') || '>' !in s[1..][i + 1..]
        {
          assert s[1..][i + 1..] == s[i + 2..];
        }
      }
      RemoveTagsTagFree(s[1..]);
      assert s == [s[0]] + s[1..];
    }
  }

  lemma RemoveTagsIdempotent(s: string)
    ensures RemoveTags(RemoveTags(s)) == RemoveTags(s)
  {
    RemoveTagsTagFree(RemoveTags(s));
  }

  /** Text without `<` has no tags to remove. */
  lemma {:induction false} RemoveTagsNoAngle(s: string)
    requires '<' !in s
    ensures RemoveTags(s) == s
  {
    RemoveTagsTagFree(s);
  }

  /** `_strip_html_tags`: tags removed, references decoded, whitespace collapsed. */
  function StripHtmlTags(s: string): (r: string)
    ensures Collapsed(r)
  {
    CollapseWhitespace(Unescape(RemoveTags(s)))
  }

  /** Collapsed text without `<` or `&` comes through tag stripping unchanged. */
  lemma StripHtmlTagsPlain(s: string)
    requires Collapsed(s) && '<' !in s && '&' !in s
    ensures StripHtmlTags(s) == s
  {
    RemoveTagsNoAngle(s);
    CollapseCollapsed(s);
  }

  // ---------------------------------------------------------------------------
  // CDATA

  const CdataOpen: string := "<![CDATA["
  const CdataClose: string := "]]>"

  /** `_extract_cdata`: the body of the first CDATA section, that is, the text
      between the first `<![CDATA[` and the first `]]>` after it; the input
      itself when there is no such section. */
  function ExtractCdata(s: string): (r: string)
    ensures Find(s, CdataOpen) < 0 ==> r == s
    ensures Find(s, CdataOpen) >= 0 && !Contains(s[Find(s, CdataOpen) + |CdataOpen|..], CdataClose) ==> r == s
    ensures Find(s, CdataOpen) >= 0 && Contains(s[Find(s, CdataOpen) + |CdataOpen|..], CdataClose) ==>
      var b := Find(s, CdataOpen) + |CdataOpen|;
      b + |r| <= |s| && r == s[b..b + |r|] && OccursAt(s, CdataClose, b + |r|)
      && forall j :: b <= j < b + |r| ==> !OccursAt(s, CdataClose, j)
  {
    var o := Find(s, CdataOpen);
    if o < 0 then s
    else
      var b := o + |CdataOpen|;
      var c := Find(s[b..], CdataClose);
      OccursInSuffix(s, CdataClose, b);
      assert c >= 0 ==> OccursAt(s[b..], CdataClose, (b + c) - b);
      assert forall j :: b <= j < b + c ==> !OccursAt(s, CdataClose, j) by {
        forall j | b <= j < b + c ensures !OccursAt(s, CdataClose, j) {
          assert !OccursAt(s[b..], CdataClose, j - b);
        }
      }
      if c < 0 then s else s[b..b + c]
  }

  /** In `inner + "]]>"`, where `inner` holds no `]]>`, the first `]]>` is the appended one. */
  lemma {:induction false} CloseFirstAt(inner: string)
    requires !Contains(inner, CdataClose)
    ensures Find(inner + CdataClose, CdataClose) == |inner|
  {
    var t := inner + CdataClose;
    assert t[|inner|..] == CdataClose;
    forall j | 0 <= j < |inner|
      ensures !OccursAt(t, CdataClose, j)
    {
      if j + 3 <= |inner| {
        CloseInsideInner(inner, j);
      } else {
        CloseNotStraddling(inner, j);
      }
    }
    FindIs(t, CdataClose, |inner|);
  }

  /** A `]]>` wholly inside `inner` is a `]]>` of `inner`. */
  lemma CloseInsideInner(inner: string, j: nat)
    requires j + 3 <= |inner|
    ensures OccursAt(inner + CdataClose, CdataClose, j) ==> Contains(inner, CdataClose)
  {
    var t := inner + CdataClose;
    assert inner[j..j + 3] == t[j..j + 3];
    if OccursAt(t, CdataClose, j) {
      ContainsAt(inner, CdataClose, j);
    }
  }

  /** No `]]>` starts in the last two characters of `inner`: its third
      character would be one of the appended `]`. */
  lemma CloseNotStraddling(inner: string, j: nat)
    requires j < |inner| < j + 3
    ensures !OccursAt(inner + CdataClose, CdataClose, j)
  {
    var t := inner + CdataClose;
    assert t[j + 2] == CdataClose[j + 2 - |inner|] == ']';
    assert t[j..j + 3][2] == ']';
    assert CdataClose[2] == '>';
  }

  /** Wrapping text that holds no `]]>` in a CDATA section and unwrapping it
      gives the text back. */
  lemma CdataRoundTrip(inner: string)
    requires !Contains(inner, CdataClose)
    ensures ExtractCdata(CdataOpen + inner + CdataClose) == inner
  {
    OpenerFirst(inner);
    SectionBody(inner);
    CloseFirstAt(inner);
  }

  /** What follows the opener, and the text up to the closer. */
  lemma SectionBody(inner: string)
    ensures |CdataOpen| == 9
    ensures (CdataOpen + inner + CdataClose)[9..] == inner + CdataClose
    ensures (CdataOpen + inner + CdataClose)[9..9 + |inner|] == inner
  {
  }

  /** The section's own opener is the first one. */
  lemma OpenerFirst(inner: string)
    ensures Find(CdataOpen + inner + CdataClose, CdataOpen) == 0
  {
    var s := CdataOpen + inner + CdataClose;
    assert s[..9] == CdataOpen;
    FindIs(s, CdataOpen, 0);
  }

  // ---------------------------------------------------------------------------
  // Titles, excerpts and authors

  /** What `re.sub(r'[^\w\s\-_.,!?()]', '', s)` keeps in a title. */
  predicate IsTitleChar(c: char) {
    IsWordChar(c) || IsSpace(c) || c in "-_.,!?()"
  }

  /** What `re.sub(r'[^\w\s\-_.]', '', s)` keeps in an author name. */
  predicate IsAuthorChar(c: char) {
    IsWordChar(c) || IsSpace(c) || c in "-_."
  }

  /** Tag stripping, whitespace collapsing, removal of the characters outside
      `keep`, and a final strip: the shared shape of `_process_title` and
      `process_author`. */
  function CleanText(s: string, keep: char -> bool): (r: string)
    ensures forall c :: c in r ==> keep(c)
    ensures Stripped(r)
  {
    Strip(Filter(CollapseWhitespace(StripHtmlTags(s)), keep))
  }

  /** Clean text made of kept characters is left as it is. */
  lemma CleanTextFixes(s: string, keep: char -> bool)
    requires Collapsed(s) && '<' !in s && '&' !in s
    requires forall i :: 0 <= i < |s| ==> keep(s[i])
    ensures CleanText(s, keep) == s
  {
    StripHtmlTagsPlain(s);
    CollapseCollapsed(s);
    FilterKeepsAll(s, keep);
    StripUnchanged(s);
  }

  /** `_process_title`: only word characters, whitespace and `-_.,!?()`, and no
      whitespace at either end. */
  function ProcessTitle(title: string): (r: string)
    ensures forall c :: c in r ==> IsTitleChar(c)
    ensures Stripped(r)
  {
    CleanText(title, IsTitleChar)
  }

  /** A title that is already clean is kept verbatim. */
  lemma ProcessTitleFixes(title: string)
    requires Collapsed(title)
    requires forall i :: 0 <= i < |title| ==> IsTitleChar(title[i])
    ensures ProcessTitle(title) == title
  {
    CleanTextFixes(title, IsTitleChar);
  }

  /** `process_author`: "" for an empty name, otherwise only word characters,
      whitespace and `-_.`, with no whitespace at either end. */
  function ProcessAuthor(author: string): (r: string)
    ensures author == "" ==> r == ""
    ensures forall c :: c in r ==> IsAuthorChar(c)
    ensures Stripped(r)
  {
    if author == "" then "" else CleanText(author, IsAuthorChar)
  }

  /** An author name that is already clean is kept verbatim. */
  lemma ProcessAuthorFixes(author: string)
    requires Collapsed(author)
    requires forall i :: 0 <= i < |author| ==> IsAuthorChar(author[i])
    ensures ProcessAuthor(author) == author
  {
    if author != "" {
      CleanTextFixes(author, IsAuthorChar);
    }
  }

  /** Cutting collapsed text to 297 characters and appending "..." leaves
      nothing to strip. */
  lemma CutStripped(t: string)
    requires Stripped(t) && |t| > 300
    ensures |t[..297] + "..."| == 300
    ensures Strip(t[..297] + "...") == t[..297] + "..."
  {
    var cut := t[..297] + "...";
    assert cut[0] == t[0];
    assert cut[|cut| - 1] == '.';
    StripUnchanged(cut);
  }

  /** `_process_excerpt`: at most 300 characters; tag-stripped text longer than
      that becomes its first 297 characters and "...", shorter text is kept
      whole. */
  function ProcessExcerpt(excerpt: string): (r: string)
    ensures |r| <= 300
    ensures |StripHtmlTags(excerpt)| > 300 ==> r == StripHtmlTags(excerpt)[..297] + "..."
    ensures |StripHtmlTags(excerpt)| <= 300 ==> r == StripHtmlTags(excerpt)
  {
    var t := StripHtmlTags(excerpt);
    if |t| > 300 then
      CutStripped(t);
      Strip(t[..297] + "...")
    else
      StripUnchanged(t);
      Strip(t)
  }

  // ---------------------------------------------------------------------------
  // Slugs

  predicate IsDash(c: char) { c == '-' }
  predicate IsDashOrSpace(c: char) { c == '-' || IsSpace(c) }

  /** What `re.sub(r'[^\w\s-]', '', s)` keeps. */
  predicate IsSlugSourceChar(c: char) { IsWordChar(c) || IsSpace(c) || c == '-' }

  /** No two dashes in a row. */
  predicate NoDoubleDash(s: string) {
    forall i :: 0 <= i < |s| - 1 ==> !(s[i] == '-' && s[i + 1] == '-')
  }

  /** Only word characters and dashes. */
  predicate SlugChars(s: string) {
    forall i :: 0 <= i < |s| ==> IsWordChar(s[i]) || s[i] == '-'
  }

  /** The shape `generate_slug` promises: word characters and single dashes,
      with no dash at either end. */
  predicate IsSlug(s: string) {
    SlugChars(s) && NoDoubleDash(s) && (s != [] ==> s[0] != '-' && s[|s| - 1] != '-')
  }

  /** `re.sub(r'[-\s]+', '-', s)`: each maximal run of dashes and whitespace
      becomes a single dash. */
  function DashRuns(s: string): (r: string)
    ensures s == [] <==> r == []
    ensures s != [] ==> (r[0] == '-' <==> IsDashOrSpace(s[0]))
    ensures (forall i :: 0 <= i < |s| ==> IsSlugSourceChar(s[i])) ==> SlugChars(r)
    ensures NoDoubleDash(r)
    decreases |s|
  {
    if s == [] then []
    else if IsDashOrSpace(s[0]) then
      var t := TrimLeft(s, IsDashOrSpace);
      assert forall i :: 0 <= i < |t| ==> t[i] == s[|s| - |t| + i];
      "-" + DashRuns(t)
    else
      [s[0]] + DashRuns(s[1..])
  }

  /** A piece of text with the slug's characters and no double dash keeps both. */
  lemma SlugPiece(s: string, a: nat, b: nat)
    requires a <= b <= |s| && SlugChars(s) && NoDoubleDash(s)
    ensures SlugChars(s[a..b]) && NoDoubleDash(s[a..b])
  {
    assert forall i :: 0 <= i < b - a ==> s[a..b][i] == s[a + i];
  }

  /** Dashing text made of word characters, whitespace and dashes leaves word
      characters and single dashes. */
  lemma DashedSlugChars(cleaned: string)
    requires forall c :: c in cleaned ==> IsSlugSourceChar(c)
    ensures SlugChars(DashRuns(cleaned)) && NoDoubleDash(DashRuns(cleaned))
  {
    assert forall i :: 0 <= i < |cleaned| ==> cleaned[i] in cleaned;
  }

  /** `slug.strip('-')` on text with the slug's characters and no double dash. */
  function StripDashes(s: string): (r: string)
    requires SlugChars(s) && NoDoubleDash(s)
    ensures IsSlug(r)
  {
    var r := Trim(s, IsDash);
    var a := |s| - |TrimLeft(s, IsDash)|;
    SlugPiece(s, a, a + |r|);
    r
  }

  /** `slug[:maxLength].rstrip('-')`. */
  function CutSlug(slug: string, maxLength: int): (r: string)
    requires IsSlug(slug)
    ensures IsSlug(r)
    ensures maxLength >= 0 ==> |r| <= maxLength
  {
    var cut := TakePy(slug, maxLength);
    SlugPiece(slug, 0, |cut|);
    var r := TrimRight(cut, IsDash);
    SlugPiece(cut, 0, |r|);
    assert r != [] ==> r[0] == cut[0] == slug[0];
    r
  }

  /** `generate_slug`: lower-case, strip tags, drop characters other than word
      characters, whitespace and dashes, turn runs of dashes and whitespace into
      one dash, strip dashes, and cut to `maxLength` (then strip trailing
      dashes again). */
  function GenerateSlug(title: string, maxLength: int): (r: string)
    ensures IsSlug(r)
    ensures maxLength >= 0 ==> |r| <= maxLength
  {
    var cleaned := Filter(StripHtmlTags(ToLower(title)), IsSlugSourceChar);
    DashedSlugChars(cleaned);
    var slug := StripDashes(DashRuns(cleaned));
    if |slug| > maxLength then CutSlug(slug, maxLength) else slug
  }

  /** A word without dashes or whitespace is not touched by dashing. */
  predicate DashFree(w: string) {
    forall i :: 0 <= i < |w| ==> !IsDashOrSpace(w[i])
  }

  lemma {:induction false} DashRunsWord(w: string)
    requires DashFree(w)
    ensures DashRuns(w) == w
    decreases |w|
  {
    if w != [] {
      DashRunsWord(w[1..]);
      assert w == [w[0]] + w[1..];
    }
  }

  /** A single space before a non-blank character becomes a dash. */
  lemma DashRunsLeadingSpace(rest: string)
    requires rest != [] && !IsDashOrSpace(rest[0])
    ensures DashRuns(" " + rest) == "-" + DashRuns(rest)
  {
    var s := " " + rest;
    assert s[1..] == rest;
    assert TrimLeft(s, IsDashOrSpace) == TrimLeft(rest, IsDashOrSpace) == rest;
  }

  /** A word followed by one space and more text: the space becomes a dash. */
  lemma {:induction false} DashRunsSpace(w: string, rest: string)
    requires DashFree(w)
    requires rest != [] && !IsDashOrSpace(rest[0])
    ensures DashRuns(w + " " + rest) == w + "-" + DashRuns(rest)
    decreases |w|
  {
    if w == [] {
      EmptyFront(w, " ", rest);
      EmptyFront(w, "-", DashRuns(rest));
      DashRunsLeadingSpace(rest);
    } else {
      assert DashFree(w[1..]) && !IsDashOrSpace(w[0]) by {
        assert forall i :: 0 <= i < |w| - 1 ==> w[1..][i] == w[i + 1];
      }
      DashRunsSpace(w[1..], rest);
      DashRunsSpaceStep(w, rest);
    }
  }

  lemma EmptyFront(w: string, a: string, b: string)
    requires w == []
    ensures w + a + b == a + b
  {
  }

  /** One step of `DashRunsSpace`: the word's first character is copied. */
  lemma DashRunsSpaceStep(w: string, rest: string)
    requires w != [] && !IsDashOrSpace(w[0])
    requires DashRuns(w[1..] + " " + rest) == w[1..] + "-" + DashRuns(rest)
    ensures DashRuns(w + " " + rest) == w + "-" + DashRuns(rest)
  {
    var d := DashRuns(rest);
    HeadTail(w, " ", rest);
    HeadTail(w, "-", d);
    DashRunsKeeps(w[0], w[1..] + " " + rest);
  }

  lemma HeadTail(w: string, sep: string, v: string)
    requires w != []
    ensures w + sep + v == [w[0]] + (w[1..] + sep + v)
  {
    assert w == [w[0]] + w[1..];
  }

  /** A character that is neither dash nor whitespace is copied. */
  lemma DashRunsKeeps(c: char, t: string)
    requires !IsDashOrSpace(c)
    ensures DashRuns([c] + t) == [c] + DashRuns(t)
  {
    assert ([c] + t)[1..] == t;
  }

  lemma SlugExampleCollapsed(lower: string)
    requires lower == "test blog post title!"
    ensures Collapsed(lower)
  {
    var ws := ["test", "blog", "post", "title!"];
    JoinWordsCollapsed(ws);
    assert JoinWith(" ", ws) == lower;
  }

  lemma SlugExampleLower(title: string, lower: string)
    requires title == "Test Blog Post Title!" && lower == "test blog post title!"
    ensures StripHtmlTags(ToLower(title)) == lower
  {
    assert ToLower(title) == lower;
    SlugExampleCollapsed(lower);
    StripHtmlTagsPlain(lower);
  }

  lemma SlugExampleKept(words: string)
    requires words == "test blog post title"
    ensures forall i :: 0 <= i < |words| ==> IsSlugSourceChar(words[i])
  {
  }

  /** A dropped character at the end of text that is kept whole disappears. */
  lemma FilterDropsLast(w: string, c: char, keep: char -> bool)
    requires Filter(w, keep) == w && !keep(c)
    ensures Filter(w + [c], keep) == w
  {
    FilterConcat(w, [c], keep);
    assert Filter([c], keep) == [];
  }

  /** Slug characters followed by one that is not: the filter drops just that one. */
  lemma FilterDropsTrailing(words: string, c: char)
    requires forall i :: 0 <= i < |words| ==> IsSlugSourceChar(words[i])
    requires !IsSlugSourceChar(c)
    ensures Filter(words + [c], IsSlugSourceChar) == words
  {
    FilterKeepsAll(words, IsSlugSourceChar);
    FilterDropsLast(words, c, IsSlugSourceChar);
  }

  lemma SlugExampleBang()
    ensures "test blog post title!" == "test blog post title" + ['!']
  {
  }

  /** Non-empty words without dashes or whitespace, joined by single spaces,
      come out joined by single dashes. */
  lemma {:induction false} DashRunsJoin(ws: seq<string>)
    requires forall k :: 0 <= k < |ws| ==> ws[k] != [] && DashFree(ws[k])
    ensures DashRuns(JoinWith(" ", ws)) == JoinWith("-", ws)
    decreases |ws|
  {
    if |ws| == 1 {
      DashRunsWord(ws[0]);
    } else if |ws| > 1 {
      var rest := JoinWith(" ", ws[1..]);
      assert rest == ws[1] || rest == ws[1] + " " + JoinWith(" ", ws[2..]);
      assert rest[0] == ws[1][0];
      DashRunsSpace(ws[0], rest);
      DashRunsJoin(ws[1..]);
    }
  }

  lemma SlugExampleDash(words: string, slug: string)
    requires words == "test blog post title" && slug == "test-blog-post-title"
    ensures DashRuns(words) == slug
  {
    var ws := ["test", "blog", "post", "title"];
    JoinFour(" ", "test", "blog", "post", "title");
    JoinFour("-", "test", "blog", "post", "title");
    SlugExampleSpelled();
    SlugExampleWordsDashFree(ws);
    DashRunsJoin(ws);
  }

  /** Four parts joined by a separator. */
  lemma JoinFour(sep: string, a: string, b: string, c: string, d: string)
    ensures JoinWith(sep, [a, b, c, d]) == a + sep + (b + sep + (c + sep + d))
  {
    assert [c, d][1..] == [d];
    assert JoinWith(sep, [c, d]) == c + sep + d;
    assert [b, c, d][1..] == [c, d];
    assert JoinWith(sep, [b, c, d]) == b + sep + (c + sep + d);
    assert [a, b, c, d][1..] == [b, c, d];
  }

  lemma SlugExampleSpelled()
    ensures "test" + " " + ("blog" + " " + ("post" + " " + "title")) == "test blog post title"
    ensures "test" + "-" + ("blog" + "-" + ("post" + "-" + "title")) == "test-blog-post-title"
  {
  }

  lemma SlugExampleWordsDashFree(ws: seq<string>)
    requires ws == ["test", "blog", "post", "title"]
    ensures forall k :: 0 <= k < |ws| ==> ws[k] != [] && DashFree(ws[k])
  {
  }

  /** The slug of the title used in the source's own tests. */
  lemma GenerateSlugExample()
    ensures GenerateSlug("Test Blog Post Title!", 60) == "test-blog-post-title"
  {
    SlugExampleLower("Test Blog Post Title!", "test blog post title!");
    SlugExampleKept("test blog post title");
    SlugExampleBang();
    FilterDropsTrailing("test blog post title", '!');
    SlugExampleDash("test blog post title", "test-blog-post-title");
    TrimUnchanged("test-blog-post-title", IsDash);
  }

  // ---------------------------------------------------------------------------
  // Categories and tags

  /** A category as `normalize_categories` cleans it: tags stripped, trimmed,
      title-cased. No whitespace is left at either end. */
  function CleanCategory(category: string): (r: string)
    ensures Stripped(r)
  {
    var t := Strip(StripHtmlTags(category));
    TitleCaseStripped(t);
    TitleCase(t)
  }

  /** A tag as `normalize_tags` cleans it: tags stripped, trimmed, lower-cased.
      No whitespace is left at either end and no upper-case letter anywhere. */
  function CleanTag(tag: string): (r: string)
    ensures Stripped(r)
    ensures forall k :: 0 <= k < |r| ==> !IsAsciiUpper(r[k])
  {
    var t := Strip(StripHtmlTags(tag));
    LowerStripped(t);
    ToLower(t)
  }

  /** The non-empty cleaned items, each at its first occurrence and in that order. */
  function FirstOccurrences(items: seq<string>, clean: string -> string): (r: seq<string>)
    ensures |r| <= |items|
    decreases |items|
  {
    if items == [] then []
    else
      var prev := FirstOccurrences(items[..|items| - 1], clean);
      var c := clean(items[|items| - 1]);
      if c == "" || c in prev then prev else prev + [c]
  }

  /** Extending the items by one element. */
  lemma FirstOccurrencesSnoc(items: seq<string>, i: nat, clean: string -> string)
    requires i < |items|
    ensures FirstOccurrences(items[..i + 1], clean) ==
      var prev := FirstOccurrences(items[..i], clean);
      var c := clean(items[i]);
      if c == "" || c in prev then prev else prev + [c]
  {
    assert items[..i + 1][..i] == items[..i];
  }

  /** No cleaned item is kept twice. */
  lemma {:induction false} FirstOccurrencesDistinct(items: seq<string>, clean: string -> string)
    ensures forall i, j :: 0 <= i < j < |FirstOccurrences(items, clean)| ==>
      FirstOccurrences(items, clean)[i] != FirstOccurrences(items, clean)[j]
    decreases |items|
  {
    if items != [] {
      FirstOccurrencesDistinct(items[..|items| - 1], clean);
    }
  }

  /** Exactly the non-empty cleaned items are kept. */
  lemma {:induction false} FirstOccurrencesMembers(items: seq<string>, clean: string -> string)
    ensures forall x :: x in FirstOccurrences(items, clean) <==>
      x != "" && exists i :: 0 <= i < |items| && clean(items[i]) == x
    decreases |items|
  {
    if items != [] {
      var init := items[..|items| - 1];
      FirstOccurrencesMembers(init, clean);
      assert forall i :: 0 <= i < |init| ==> init[i] == items[i];
      var last := |items| - 1;
      forall x | x != "" && exists i :: 0 <= i < |items| && clean(items[i]) == x
        ensures x in FirstOccurrences(items, clean)
      {
        var i :| 0 <= i < |items| && clean(items[i]) == x;
        if i < last {
          assert clean(init[i]) == x;
        }
      }
    }
  }

  /** `a` is a cleaned item before any item cleans to `b`. */
  predicate OccursBefore(items: seq<string>, clean: string -> string, a: string, b: string) {
    exists j :: 0 <= j < |items| && clean(items[j]) == a && forall i :: 0 <= i <= j ==> clean(items[i]) != b
  }

  /** Kept items appear in the order of their first occurrences: an earlier
      kept item occurs among the items before any occurrence of a later one. */
  lemma {:induction false} FirstOccurrencesOrder(items: seq<string>, clean: string -> string)
    ensures forall k, l :: 0 <= k < l < |FirstOccurrences(items, clean)| ==>
      OccursBefore(items, clean, FirstOccurrences(items, clean)[k], FirstOccurrences(items, clean)[l])
    decreases |items|
  {
    if items != [] {
      var init := items[..|items| - 1];
      var prev := FirstOccurrences(init, clean);
      var r := FirstOccurrences(items, clean);
      FirstOccurrencesOrder(init, clean);
      FirstOccurrencesMembers(init, clean);
      assert forall k :: 0 <= k < |prev| ==> r[k] == prev[k];
      forall k, l | 0 <= k < l < |r|
        ensures OccursBefore(items, clean, r[k], r[l])
      {
        var j: nat;
        if l < |prev| {
          assert OccursBefore(init, clean, prev[k], prev[l]);
          j :| 0 <= j < |init| && clean(init[j]) == prev[k] && forall i :: 0 <= i <= j ==> clean(init[i]) != prev[l];
        } else {
          assert r[k] in prev;
          j :| 0 <= j < |init| && clean(init[j]) == r[k];
        }
        assert clean(items[j]) == r[k];
        assert forall i :: 0 <= i <= j ==> clean(items[i]) == clean(init[i]);
      }
    }
  }

  /** The loop shared by `normalize_categories` and `normalize_tags`: clean
      each item, keep it unless empty or already kept, join with ", ". */
  method NormalizeItems(items: seq<string>, clean: string -> string) returns (r: string)
    ensures r == JoinWith(", ", FirstOccurrences(items, clean))
  {
    if |items| == 0 {
      return "";
    }
    var cleaned: seq<string> := [];
    var i := 0;
    while i < |items|
      invariant 0 <= i <= |items|
      invariant cleaned == FirstOccurrences(items[..i], clean)
    {
      FirstOccurrencesSnoc(items, i, clean);
      var c := clean(items[i]);
      if c != "" && c !in cleaned {
        cleaned := cleaned + [c];
      }
      i := i + 1;
    }
    assert items[..i] == items;
    r := JoinWith(", ", cleaned);
  }

  /** `normalize_categories`: the cleaned, de-duplicated categories joined by ", ". */
  method NormalizeCategories(categories: seq<string>) returns (r: string)
    ensures r == JoinWith(", ", FirstOccurrences(categories, CleanCategory))
  {
    r := NormalizeItems(categories, CleanCategory);
  }

  /** `normalize_tags`: the cleaned, de-duplicated tags joined by ", ". */
  method NormalizeTags(tags: seq<string>) returns (r: string)
    ensures r == JoinWith(", ", FirstOccurrences(tags, CleanTag))
  {
    r := NormalizeItems(tags, CleanTag);
  }

  /** Every normalised category is non-empty, has no whitespace at either end,
      and comes from one of the given categories. */
  lemma CategoriesStripped(categories: seq<string>)
    ensures forall c :: c in FirstOccurrences(categories, CleanCategory) ==>
      c != "" && Stripped(c) && exists i :: 0 <= i < |categories| && CleanCategory(categories[i]) == c
  {
    FirstOccurrencesMembers(categories, CleanCategory);
  }

  /** Normalised tags hold no upper-case letter and no surrounding whitespace. */
  lemma TagsLowerCase(tags: seq<string>)
    ensures forall t, k :: t in FirstOccurrences(tags, CleanTag) && 0 <= k < |t| ==> !IsAsciiUpper(t[k])
    ensures forall t :: t in FirstOccurrences(tags, CleanTag) ==> t != "" && Stripped(t)
  {
    FirstOccurrencesMembers(tags, CleanTag);
  }

  // ---------------------------------------------------------------------------
  // Status

  /** `process_status`: "Draft" for an empty status, otherwise the mapping's
      entry for the trimmed, lower-cased status, "Draft" when it has none. */
  function ProcessStatus(status: string, statusMapping: map<string, string>): (r: string)
    ensures r == "Draft" || r in statusMapping.Values
    ensures status == "" ==> r == "Draft"
  {
    if status == "" then "Draft"
    else
      var key := ToLower(Strip(status));
      if key in statusMapping then statusMapping[key] else "Draft"
  }

  /** Status lookup ignores case. */
  lemma ProcessStatusIgnoresCase(status: string, statusMapping: map<string, string>)
    ensures ProcessStatus(ToLower(status), statusMapping) == ProcessStatus(status, statusMapping)
  {
    StripLower(status);
    ToLowerIdempotent(Strip(status));
  }

  /** With a built-in platform's vocabulary the status is always "Published" or "Draft". */
  lemma DefaultStatusOutcome(status: string, i: nat)
    requires i < |DefaultPlatforms|
    ensures ProcessStatus(status, DefaultPlatforms[i].1.statusMapping) in {"Published", "Draft"}
  {
    DefaultStatusValuesCanonical();
  }

  // ---------------------------------------------------------------------------
  // Attributes

  const SafeAttributeNames: set<string> :=
    {"href", "src", "alt", "title", "class", "id", "style", "width", "height", "target", "rel"}

  /** The literal patterns of `_is_safe_attribute`, all lower-case. */
  const DangerousSubstrings: seq<string> :=
    ["javascript:", "vbscript:", "data:", "file:", "<script", "<iframe"]

  /** The first index at or after `i` whose character fails `p`. */
  function RunEnd(s: string, i: nat, p: char -> bool): (r: nat)
    requires i <= |s|
    ensures i <= r <= |s|
    ensures forall k :: i <= k < r ==> p(s[k])
    ensures r < |s| ==> !p(s[r])
    decreases |s| - i
  {
    if i < |s| && p(s[i]) then RunEnd(s, i + 1, p) else i
  }

  /** `on\w+\s*=` matches at `i`: "on", a run of word characters, optional
      whitespace, then "=". The greedy run is the only candidate, since a word
      character is neither whitespace nor "=". */
  predicate HandlerAt(s: string, i: nat) {
    i + 2 < |s| && s[i] == 'o' && s[i + 1] == 'n' && IsWordChar(s[i + 2])
    && var k := RunEnd(s, RunEnd(s, i + 2, IsWordChar), IsSpace);
    k < |s| && s[k] == '='
  }

  /** `re.search` of any of the patterns in text already case-folded. Every
      pattern needs a ':', a '<' or an '='. */
  predicate Dangerous(lowered: string)
    ensures Dangerous(lowered) ==> ':' in lowered || '<' in lowered || '=' in lowered
  {
    DangerNeedsMark(lowered);
    (exists p :: p in DangerousSubstrings && Contains(lowered, p))
    || (exists i :: 0 <= i < |lowered| && HandlerAt(lowered, i))
  }

  lemma DangerNeedsMark(s: string)
    ensures (exists p :: p in DangerousSubstrings && Contains(s, p)) ==> ':' in s || '<' in s
    ensures (exists i :: 0 <= i < |s| && HandlerAt(s, i)) ==> '=' in s
  {
    if p :| p in DangerousSubstrings && Contains(s, p) {
      var c := if p[0] == '<' then '<' else ':';
      assert c in p;
      ContainedCharsOccur(s, p);
    }
    if i :| 0 <= i < |s| && HandlerAt(s, i) {
      var k := RunEnd(s, RunEnd(s, i + 2, IsWordChar), IsSpace);
      assert s[k] == '=';
    }
  }

  /** How `re.IGNORECASE` matches a character of the value against the
      lower-case ASCII letters of the patterns: an ASCII capital folds to its
      lower case, and so do four letters outside ASCII: 'İ' (U+0130) and the
      dotless 'ı' (U+0131) to 'i', the long 'ſ' (U+017F) to 's', and the Kelvin
      sign (U+212A) to 'k'. Every other character matches only itself. */
  function FoldCase(c: char): (r: char)
    ensures IsAsciiUpper(c) ==> r == Lower(c)
    ensures !IsAsciiUpper(r)
    ensures r == c || IsAsciiLower(r)
    ensures IsSpace(r) == IsSpace(c)
  {
    if IsAsciiUpper(c) then Lower(c)
    else if c == '\U{130}' || c == '\U{131}' then 'i'
    else if c == '\U{17F}' then 's'
    else if c == '\U{212A}' then 'k'
    else c
  }

  function FoldedCase(s: string): (r: string)
    ensures |r| == |s|
    ensures forall i :: 0 <= i < |s| ==> r[i] == FoldCase(s[i])
  {
    seq(|s|, i requires 0 <= i < |s| => FoldCase(s[i]))
  }

  /** An occurrence of `q` in `s` is an occurrence of `q` folded in `s` folded. */
  lemma ContainsFolded(s: string, q: string)
    requires Contains(s, q)
    ensures Contains(FoldedCase(s), FoldedCase(q))
  {
    var k := ContainsWitness(s, q);
    assert FoldedCase(s)[k..k + |q|] == FoldedCase(q);
    ContainsAt(FoldedCase(s), FoldedCase(q), k);
  }

  /** `_is_safe_attribute`: a whitelisted name whose value, compared without
      regard to case, matches none of the dangerous patterns. So no piece of a
      safe value folds onto one of the literal patterns. */
  predicate IsSafeAttribute(name: string, value: string)
    ensures IsSafeAttribute(name, value) ==>
      forall q :: Contains(value, q) ==> FoldedCase(q) !in DangerousSubstrings
  {
    FoldedPatternFree(value);
    name in SafeAttributeNames && !Dangerous(FoldedCase(value))
  }

  lemma FoldedPatternFree(value: string)
    ensures (forall p :: p in DangerousSubstrings ==> !Contains(FoldedCase(value), p)) ==>
      forall q :: Contains(value, q) ==> FoldedCase(q) !in DangerousSubstrings
  {
    forall q | Contains(value, q)
      ensures Contains(FoldedCase(value), FoldedCase(q))
    {
      ContainsFolded(value, q);
    }
  }

  /** A value holding a dangerous pattern in any mix of case is refused. */
  lemma DangerousInAnyCase(name: string, value: string, q: string)
    requires Contains(value, q) && FoldedCase(q) in DangerousSubstrings
    ensures !IsSafeAttribute(name, value)
  {
    ContainsFolded(value, q);
  }

  /** The long 's' matches 's' under `re.IGNORECASE`, so "javaſcript:" is refused. */
  lemma LongSRefused(name: string)
    ensures !IsSafeAttribute(name, "java\U{17F}cript:")
  {
    var q := "java\U{17F}cript:";
    assert FoldedCase(q) == "javascript:";
    ContainsAt(q, q, 0);
    DangerousInAnyCase(name, q, q);
  }

  /** An inline event handler such as `onClick = "…"` is refused, in any case. */
  lemma HandlerRefused(name: string, value: string, i: nat)
    requires HandlerAt(FoldedCase(value), i)
    ensures !IsSafeAttribute(name, value)
  {
  }

  /** The whitelisted values the converter itself writes are safe. */
  lemma WrittenAttributesSafe()
    ensures IsSafeAttribute("alt", "Image")
    ensures IsSafeAttribute("rel", "noopener")
    ensures IsSafeAttribute("target", "_blank")
  {
    PlainValueSafe("alt", "Image");
    PlainValueSafe("rel", "noopener");
    PlainValueSafe("target", "_blank");
  }

  /** A whitelisted attribute whose value has no ':', no '<' and no "on" is safe. */
  lemma PlainValueSafe(name: string, value: string)
    requires name in SafeAttributeNames
    requires forall k :: 0 <= k < |value| ==> value[k] != ':' && value[k] != '<'
    requires forall k :: 0 <= k && k + 1 < |value| ==> !(FoldCase(value[k]) == 'o' && FoldCase(value[k + 1]) == 'n')
    ensures IsSafeAttribute(name, value)
  {
    var lowered := FoldedCase(value);
    assert ':' !in lowered && '<' !in lowered;
    forall p | p in DangerousSubstrings
      ensures !Contains(lowered, p)
    {
      var c := if p[0] == '<' then '<' else ':';
      assert c in p;
      ContainedCharsOccur(lowered, p);
    }
  }

  /** A value that was safe stays safe behind an "https:" prefix: no pattern
      starts with a character of "https:", and no "on" can straddle it. */
  lemma HttpsPrefixSafe(name: string, value: string)
    requires IsSafeAttribute(name, value)
    ensures IsSafeAttribute(name, "https:" + value)
  {
    var x := "https:";
    var w := FoldedCase(value);
    var lowered := FoldedCase(x + value);
    assert lowered == x + w;
    forall p | p in DangerousSubstrings
      ensures !Contains(lowered, p)
    {
      assert p[0] !in x;
      ContainsAfterPrefix(x, w, p);
    }
    forall i: nat | i < |lowered|
      ensures !HandlerAt(lowered, i)
    {
      HandlerAfterPrefix(x, w, i);
    }
  }

  /** `RunEnd` on text behind a prefix is `RunEnd` on the text, shifted. */
  lemma {:induction false} RunEndAfterPrefix(x: string, w: string, i: nat, p: char -> bool)
    requires |x| <= i <= |x| + |w|
    ensures RunEnd(x + w, i, p) == |x| + RunEnd(w, i - |x|, p)
    decreases |x| + |w| - i
  {
    if i < |x| + |w| {
      assert (x + w)[i] == w[i - |x|];
      RunEndAfterPrefix(x, w, i + 1, p);
    }
  }

  /** A handler match in `x + w`, where `x` has no 'o', is a match in `w`. */
  lemma HandlerAfterPrefix(x: string, w: string, i: nat)
    requires 'o' !in x
    ensures HandlerAt(x + w, i) ==> i >= |x| && HandlerAt(w, i - |x|)
  {
    if i < |x| {
      assert (x + w)[i] == x[i];
    } else {
      HandlerShifted(x, w, i);
    }
  }

  /** A handler match in `x + w` at or after `|x|` is one in `w`, shifted. */
  lemma HandlerShifted(x: string, w: string, i: nat)
    requires |x| <= i
    ensures HandlerAt(x + w, i) ==> HandlerAt(w, i - |x|)
  {
    var s := x + w;
    if HandlerAt(s, i) {
      var i' := i - |x|;
      assert s[i] == w[i'] && s[i + 1] == w[i' + 1] && s[i + 2] == w[i' + 2];
      RunEndAfterPrefix(x, w, i + 2, IsWordChar);
      var m := RunEnd(w, i' + 2, IsWordChar);
      RunEndAfterPrefix(x, w, |x| + m, IsSpace);
      var k := RunEnd(w, m, IsSpace);
      assert s[|x| + k] == w[k];
    }
  }

  // ---------------------------------------------------------------------------
  // The HTML passes of the preserve-HTML path, over the parsed forest

  const UnsafeTags: set<string> := {"script", "style", "iframe", "object", "embed", "form", "input"}

  const PreserveTags: set<string> :=
    {"p", "div", "span", "h1", "h2", "h3", "h4", "h5", "h6",
     "strong", "b", "em", "i", "u", "a", "img", "ul", "ol", "li",
     "blockquote", "code", "pre", "br", "hr", "table", "tr", "td", "th"}

  lemma PreservedTagsAreSafe()
    ensures UnsafeTags * PreserveTags == {}
    ensures "span" in PreserveTags && "img" in PreserveTags && "a" in PreserveTags
  {
  }

  /** An element whose tag is not one of the always-removed ones. */
  predicate NotUnsafe(x: Node) {
    x.Element? ==> x.tag !in UnsafeTags
  }

  /** An element with a kept tag name and only safe attributes. */
  predicate Cleaned(x: Node) {
    x.Element? ==> x.tag in PreserveTags && forall a :: a in x.attrs ==> IsSafeAttribute(a.0, a.1)
  }

  /** An image with a non-empty source and alternative text and none of the
      three handlers `_process_images` removes. */
  predicate ImageReady(x: Node) {
    x.Element? && x.tag == "img" ==>
      GetAttr(x.attrs, "src").GetOr("") != "" && GetAttr(x.attrs, "alt").GetOr("") != ""
      && GetAttr(x.attrs, "onload").None? && GetAttr(x.attrs, "onerror").None?
      && GetAttr(x.attrs, "onclick").None?
  }

  /** `soup.find_all(unsafe_tags)` then `decompose()`: each unsafe element goes with its subtree. */
  function RemoveUnsafe(ns: seq<Node>): (r: seq<Node>)
    ensures Every(r, NotUnsafe)
    decreases ns
  {
    if ns == [] then []
    else
      var rest := RemoveUnsafe(ns[1..]);
      match ns[0]
      case TextNode(_) =>
        EveryCons(ns[0], rest, NotUnsafe);
        [ns[0]] + rest
      case Element(tag, attrs, children) =>
        if tag in UnsafeTags then rest
        else
          var e := Element(tag, attrs, RemoveUnsafe(children));
          EveryCons(e, rest, NotUnsafe);
          [e] + rest
  }

  /** A forest without unsafe elements passes through unchanged. */
  lemma {:induction false} RemoveUnsafeNoop(ns: seq<Node>)
    requires Every(ns, NotUnsafe)
    ensures RemoveUnsafe(ns) == ns
    decreases ns
  {
    if ns != [] {
      RemoveUnsafeNoop(ns[1..]);
      if ns[0].Element? {
        RemoveUnsafeNoop(ns[0].children);
      }
      assert ns == [ns[0]] + ns[1..];
    }
  }

  /** The attributes `_clean_html_tags` keeps, in their order. */
  function KeepSafeAttrs(attrs: seq<(string, string)>): (r: seq<(string, string)>)
    ensures forall a :: a in r <==> a in attrs && IsSafeAttribute(a.0, a.1)
    decreases |attrs|
  {
    if attrs == [] then []
    else
      var rest := KeepSafeAttrs(attrs[1..]);
      if IsSafeAttribute(attrs[0].0, attrs[0].1) then [attrs[0]] + rest else rest
  }

  /** `_clean_html_tags`: one pass in document order over the elements found up
      front. An element with no contents (its `.string` is then None) is
      decomposed; any other keeps its safe attributes and is renamed "span"
      unless its tag is preserved. A parent is visited before its children, so
      it is judged by its children as they were: removing an empty child never
      empties the parent in time for it to go too. */
  function CleanTags(ns: seq<Node>): (r: seq<Node>)
    ensures Every(r, Cleaned)
    decreases ns
  {
    if ns == [] then []
    else
      var rest := CleanTags(ns[1..]);
      match ns[0]
      case TextNode(_) =>
        EveryCons(ns[0], rest, Cleaned);
        [ns[0]] + rest
      case Element(tag, attrs, children) =>
        if children == [] then rest
        else
          var name := if tag in PreserveTags then tag else "span";
          var e := Element(name, KeepSafeAttrs(attrs), CleanTags(children));
          EveryCons(e, rest, Cleaned);
          [e] + rest
  }

  /** Only childless elements go, so every piece of text survives, in order. */
  lemma {:induction false} CleanTagsKeepsTexts(ns: seq<Node>)
    ensures Texts(CleanTags(ns)) == Texts(ns)
    decreases ns
  {
    if ns != [] {
      CleanTagsKeepsTexts(ns[1..]);
      var rest := CleanTags(ns[1..]);
      match ns[0]
      case TextNode(c) =>
        assert ([ns[0]] + rest)[1..] == rest;
      case Element(tag, attrs, children) =>
        if children != [] {
          CleanTagsKeepsTexts(children);
          var name := if tag in PreserveTags then tag else "span";
          assert ([Element(name, KeepSafeAttrs(attrs), CleanTags(children))] + rest)[1..] == rest;
        }
    }
  }

  /** The attribute edits of `_process_images` on an image it keeps: the
      handlers go and a missing or empty alt becomes "Image". The rewritten
      `src` is only ever held in a local variable, so the source is untouched. */
  function FixImageAttrs(attrs: seq<(string, string)>): (r: seq<(string, string)>)
    ensures GetAttr(r, "src") == GetAttr(attrs, "src")
    ensures GetAttr(r, "alt").GetOr("") != ""
    ensures GetAttr(attrs, "alt").GetOr("") != "" ==> GetAttr(r, "alt") == GetAttr(attrs, "alt")
    ensures GetAttr(r, "onload").None? && GetAttr(r, "onerror").None? && GetAttr(r, "onclick").None?
    ensures forall a :: a in r ==> a in attrs || a == ("alt", "Image")
  {
    var a := DropAttr(DropAttr(DropAttr(attrs, "onload"), "onerror"), "onclick");
    if GetAttr(a, "alt").GetOr("") == "" then SetAttr(a, "alt", "Image") else a
  }

  /** `_process_images`: an image without a non-empty `src` is decomposed with
      its subtree; the others get `FixImageAttrs`. */
  function ProcessImages(ns: seq<Node>): (r: seq<Node>)
    ensures Every(r, ImageReady)
    decreases ns
  {
    if ns == [] then []
    else
      var rest := ProcessImages(ns[1..]);
      match ns[0]
      case TextNode(_) =>
        EveryCons(ns[0], rest, ImageReady);
        [ns[0]] + rest
      case Element(tag, attrs, children) =>
        if tag == "img" && GetAttr(attrs, "src").GetOr("") == "" then rest
        else
          var fixed := if tag == "img" then FixImageAttrs(attrs) else attrs;
          var e := Element(tag, fixed, ProcessImages(children));
          EveryCons(e, rest, ImageReady);
          [e] + rest
  }

  /** Safe attributes stay safe through the image edits. */
  lemma FixImageAttrsSafe(attrs: seq<(string, string)>)
    requires forall a :: a in attrs ==> IsSafeAttribute(a.0, a.1)
    ensures forall a :: a in FixImageAttrs(attrs) ==> IsSafeAttribute(a.0, a.1)
  {
    WrittenAttributesSafe();
  }

  /** The image pass keeps a cleaned forest cleaned. */
  lemma {:induction false} ProcessImagesKeepsCleaned(ns: seq<Node>)
    requires Every(ns, Cleaned)
    ensures Every(ProcessImages(ns), Cleaned)
    decreases ns
  {
    if ns != [] {
      EveryCons(ns[0], ns[1..], Cleaned);
      assert ns == [ns[0]] + ns[1..];
      ProcessImagesKeepsCleaned(ns[1..]);
      var rest := ProcessImages(ns[1..]);
      match ns[0]
      case TextNode(_) =>
        EveryCons(ns[0], rest, Cleaned);
      case Element(tag, attrs, children) =>
        if !(tag == "img" && GetAttr(attrs, "src").GetOr("") == "") {
          ProcessImagesKeepsCleaned(children);
          if tag == "img" {
            FixImageAttrsSafe(attrs);
          }
          var fixed := if tag == "img" then FixImageAttrs(attrs) else attrs;
          EveryCons(Element(tag, fixed, ProcessImages(children)), rest, Cleaned);
        }
    }
  }

  /** The attribute edits of `_process_links`. Both decisions read the `href`
      as it was before the rewrite. */
  function FixLinkAttrs(attrs: seq<(string, string)>): (r: seq<(string, string)>)
    ensures var href := GetAttr(attrs, "href").GetOr("");
      && (StartsWith(href, "//") ==> GetAttr(r, "href") == Some("https:" + href))
      && (!StartsWith(href, "//") ==> GetAttr(r, "href") == GetAttr(attrs, "href"))
      && (StartsWith(href, "http") && !StartsWith(href, "http://localhost") ==>
            GetAttr(r, "rel") == Some("noopener") && GetAttr(r, "target") == Some("_blank"))
      && (!StartsWith(href, "http") || StartsWith(href, "http://localhost") ==>
            GetAttr(r, "rel") == GetAttr(attrs, "rel") && GetAttr(r, "target") == GetAttr(attrs, "target"))
    ensures forall n :: n != "href" && n != "rel" && n != "target" ==> GetAttr(r, n) == GetAttr(attrs, n)
  {
    var href := GetAttr(attrs, "href").GetOr("");
    var a := if StartsWith(href, "//") then SetAttr(attrs, "href", "https:" + href) else attrs;
    if StartsWith(href, "http") && !StartsWith(href, "http://localhost") then
      SetAttr(SetAttr(a, "rel", "noopener"), "target", "_blank")
    else a
  }

  /** Safe attributes stay safe through the link edits. */
  lemma FixLinkAttrsSafe(attrs: seq<(string, string)>)
    requires forall a :: a in attrs ==> IsSafeAttribute(a.0, a.1)
    ensures forall a :: a in FixLinkAttrs(attrs) ==> IsSafeAttribute(a.0, a.1)
  {
    WrittenAttributesSafe();
    var href := GetAttr(attrs, "href").GetOr("");
    var a := if StartsWith(href, "//") then SetAttr(attrs, "href", "https:" + href) else attrs;
    if StartsWith(href, "//") {
      HttpsPrefixSafe("href", href);
    }
    assert forall b :: b in a ==> IsSafeAttribute(b.0, b.1);
  }

  /** `_process_links`: every link gets `FixLinkAttrs`. */
  function ProcessLinks(ns: seq<Node>): (r: seq<Node>)
    ensures |r| == |ns|
    ensures forall k :: 0 <= k < |ns| && ns[k].TextNode? ==> r[k] == ns[k]
    ensures forall k :: 0 <= k < |ns| && ns[k].Element? ==> r[k].Element? && r[k].tag == ns[k].tag
    decreases ns
  {
    if ns == [] then []
    else
      var rest := ProcessLinks(ns[1..]);
      match ns[0]
      case TextNode(_) => [ns[0]] + rest
      case Element(tag, attrs, children) =>
        var fixed := if tag == "a" then FixLinkAttrs(attrs) else attrs;
        [Element(tag, fixed, ProcessLinks(children))] + rest
  }

  /** The link pass keeps a cleaned forest cleaned and ready images ready. */
  lemma {:induction false} ProcessLinksKeeps(ns: seq<Node>)
    ensures Every(ns, Cleaned) ==> Every(ProcessLinks(ns), Cleaned)
    ensures Every(ns, ImageReady) ==> Every(ProcessLinks(ns), ImageReady)
    decreases ns
  {
    if ns != [] {
      ProcessLinksKeeps(ns[1..]);
      var rest := ProcessLinks(ns[1..]);
      EveryCons(ns[0], ns[1..], Cleaned);
      EveryCons(ns[0], ns[1..], ImageReady);
      assert ns == [ns[0]] + ns[1..];
      match ns[0]
      case TextNode(_) =>
        EveryCons(ns[0], rest, Cleaned);
        EveryCons(ns[0], rest, ImageReady);
      case Element(tag, attrs, children) =>
        ProcessLinksKeeps(children);
        var fixed := if tag == "a" then FixLinkAttrs(attrs) else attrs;
        if tag == "a" && Cleaned(ns[0]) {
          FixLinkAttrsSafe(attrs);
        }
        var e := Element(tag, fixed, ProcessLinks(children));
        EveryCons(e, rest, Cleaned);
        EveryCons(e, rest, ImageReady);
    }
  }

  /** The four passes of `_process_main_content`, in order. Every element they
      leave has a preserved tag (so none is unsafe) and only safe attributes,
      and every image has a source and alt text. */
  function ProcessTree(ns: seq<Node>): (r: seq<Node>)
    ensures forall x :: x in IterAll(r) ==> Cleaned(x) && ImageReady(x) && NotUnsafe(x)
  {
    var cleaned := CleanTags(RemoveUnsafe(ns));
    LastPassesSafe(cleaned);
    ProcessLinks(ProcessImages(cleaned))
  }

  /** The image and link passes over a cleaned forest leave every element
      cleaned, image-ready and not unsafe. */
  lemma LastPassesSafe(cleaned: seq<Node>)
    requires Every(cleaned, Cleaned)
    ensures forall x :: x in IterAll(ProcessLinks(ProcessImages(cleaned))) ==>
      Cleaned(x) && ImageReady(x) && NotUnsafe(x)
  {
    var imaged := ProcessImages(cleaned);
    var r := ProcessLinks(imaged);
    ProcessImagesKeepsCleaned(cleaned);
    ProcessLinksKeeps(imaged);
    EveryImplies(r, Cleaned, NotUnsafe);
    EveryIterAll(r, Cleaned);
    EveryIterAll(r, ImageReady);
    EveryIterAll(r, NotUnsafe);
  }

  /** An element html.parser builds without contents. */
  predicate IsVoidTag(tag: string) { tag == "img" || tag == "br" || tag == "hr" }

  /** Void elements come out of the HTML parser with no children. */
  predicate VoidChildless(x: Node) {
    x.Element? && IsVoidTag(x.tag) ==> x.children == []
  }

  predicate NotVoid(x: Node) {
    x.Element? ==> !IsVoidTag(x.tag)
  }

  /** Removing unsafe elements leaves void elements childless. */
  lemma {:induction false} RemoveUnsafeKeepsVoidChildless(ns: seq<Node>)
    requires Every(ns, VoidChildless)
    ensures Every(RemoveUnsafe(ns), VoidChildless)
    decreases ns
  {
    if ns != [] {
      EveryCons(ns[0], ns[1..], VoidChildless);
      assert ns == [ns[0]] + ns[1..];
      RemoveUnsafeKeepsVoidChildless(ns[1..]);
      var rest := RemoveUnsafe(ns[1..]);
      match ns[0]
      case TextNode(_) =>
        EveryCons(ns[0], rest, VoidChildless);
      case Element(tag, attrs, children) =>
        if tag !in UnsafeTags {
          RemoveUnsafeKeepsVoidChildless(children);
          EveryCons(Element(tag, attrs, RemoveUnsafe(children)), rest, VoidChildless);
        }
    }
  }

  /** The empty-element rule removes every image, line break and rule, since
      the parser gives them no contents. */
  lemma {:induction false} CleanTagsDropsVoid(ns: seq<Node>)
    requires Every(ns, VoidChildless)
    ensures Every(CleanTags(ns), NotVoid)
    decreases ns
  {
    if ns != [] {
      EveryCons(ns[0], ns[1..], VoidChildless);
      assert ns == [ns[0]] + ns[1..];
      CleanTagsDropsVoid(ns[1..]);
      var rest := CleanTags(ns[1..]);
      match ns[0]
      case TextNode(_) =>
        EveryCons(ns[0], rest, NotVoid);
      case Element(tag, attrs, children) =>
        if children != [] {
          CleanTagsDropsVoid(children);
          var name := if tag in PreserveTags then tag else "span";
          EveryCons(Element(name, KeepSafeAttrs(attrs), CleanTags(children)), rest, NotVoid);
        }
    }
  }

  /** With no image left, the image pass changes nothing. */
  lemma {:induction false} ProcessImagesIdle(ns: seq<Node>)
    requires Every(ns, NotVoid)
    ensures ProcessImages(ns) == ns
    decreases ns
  {
    if ns != [] {
      EveryCons(ns[0], ns[1..], NotVoid);
      assert ns == [ns[0]] + ns[1..];
      ProcessImagesIdle(ns[1..]);
      if ns[0].Element? {
        ProcessImagesIdle(ns[0].children);
      }
    }
  }

  /** On any forest the HTML parser can build, the image pass is dead: every
      image is gone before it runs. */
  lemma ImagePassDead(ns: seq<Node>)
    requires Every(ns, VoidChildless)
    ensures ProcessTree(ns) == ProcessLinks(CleanTags(RemoveUnsafe(ns)))
    ensures forall x :: x in IterAll(ProcessTree(ns)) ==> NotVoid(x)
  {
    RemoveUnsafeKeepsVoidChildless(ns);
    var cleaned := CleanTags(RemoveUnsafe(ns));
    CleanTagsDropsVoid(RemoveUnsafe(ns));
    ProcessImagesIdle(cleaned);
    ProcessLinksKeepsNotVoid(cleaned);
    EveryIterAll(ProcessTree(ns), NotVoid);
  }

  /** The link pass renames nothing. */
  lemma {:induction false} ProcessLinksKeepsNotVoid(ns: seq<Node>)
    requires Every(ns, NotVoid)
    ensures Every(ProcessLinks(ns), NotVoid)
    decreases ns
  {
    if ns != [] {
      EveryCons(ns[0], ns[1..], NotVoid);
      assert ns == [ns[0]] + ns[1..];
      ProcessLinksKeepsNotVoid(ns[1..]);
      var rest := ProcessLinks(ns[1..]);
      match ns[0]
      case TextNode(_) =>
        EveryCons(ns[0], rest, NotVoid);
      case Element(tag, attrs, children) =>
        ProcessLinksKeepsNotVoid(children);
        var fixed := if tag == "a" then FixLinkAttrs(attrs) else attrs;
        EveryCons(Element(tag, fixed, ProcessLinks(children)), rest, NotVoid);
    }
  }

  /** A paragraph holding only an image comes out as an empty paragraph. */
  lemma ImageInParagraphDropped()
    ensures ProcessTree([Element("p", [], [Element("img", [("src", "a.png")], [])])]) == [Element("p", [], [])]
  {
    var img := Element("img", [("src", "a.png")], []);
    assert RemoveUnsafe([img]) == [img];
    assert CleanTags([img]) == [];
  }

  /** A protocol-relative link gains "https:" but, judged by its original
      `href`, is not treated as external. */
  lemma ProtocolRelativeLinkNotExternal(attrs: seq<(string, string)>, href: string)
    requires GetAttr(attrs, "href") == Some(href) && StartsWith(href, "//")
    ensures GetAttr(FixLinkAttrs(attrs), "href") == Some("https:" + href)
    ensures GetAttr(FixLinkAttrs(attrs), "rel") == GetAttr(attrs, "rel")
    ensures GetAttr(FixLinkAttrs(attrs), "target") == GetAttr(attrs, "target")
  {
    assert !StartsWith(href, "http") by {
      assert href[0] == '/';
      assert |href| >= 4 ==> href[..4][0] == '/';
    }
  }

  // ---------------------------------------------------------------------------
  // The entry point

  /** The HTML parser and serialiser, which are not part of this model. */
  datatype HtmlCodec = HtmlCodec(parse: string -> seq<Node>, render: seq<Node> -> string)

  /** `_process_main_content`: with HTML preservation off the tags are
      stripped; otherwise the parsed forest goes through the four passes and is
      serialised. The length check only prints a warning. */
  function ProcessMainContent(config: ConverterConfig, codec: HtmlCodec, content: string): (r: string)
    ensures !config.preserveHtml ==> r == StripHtmlTags(content) && Collapsed(r)
    ensures config.preserveHtml ==>
      (exists ns :: r == codec.render(ns) && forall x :: x in IterAll(ns) ==> Cleaned(x) && ImageReady(x) && NotUnsafe(x))
  {
    if !config.preserveHtml then
      StripHtmlTags(content)
    else
      var ns := ProcessTree(codec.parse(content));
      codec.render(ns)
  }

  /** `process_content`: "" for empty content; otherwise the CDATA section is
      unwrapped (when configured), character references are decoded, and the
      text goes to the excerpt, title or main-content rule by its kind. */
  function ProcessContent(config: ConverterConfig, codec: HtmlCodec, content: string, contentType: string): (r: string)
    ensures content == "" ==> r == ""
    ensures content != "" && contentType == "excerpt" ==> |r| <= 300
    ensures content != "" && contentType == "title" ==> Stripped(r) && forall c :: c in r ==> IsTitleChar(c)
    ensures content != "" && contentType != "excerpt" && contentType != "title" ==>
      r == ProcessMainContent(config, codec, Unescape(if config.handleCdata then ExtractCdata(content) else content))
  {
    if content == "" then ""
    else
      var unwrapped := if config.handleCdata then ExtractCdata(content) else content;
      var decoded := Unescape(unwrapped);
      if contentType == "excerpt" then ProcessExcerpt(decoded)
      else if contentType == "title" then ProcessTitle(decoded)
      else ProcessMainContent(config, codec, decoded)
  }

  /** A title wrapped in a CDATA section comes out as the cleaned inner title. */
  lemma CdataTitle(config: ConverterConfig, codec: HtmlCodec, inner: string)
    requires config.handleCdata && !Contains(inner, CdataClose) && '&' !in inner
    ensures ProcessContent(config, codec, CdataOpen + inner + CdataClose, "title") == ProcessTitle(inner)
  {
    CdataRoundTrip(inner);
  }

  // ---------------------------------------------------------------------------
  // Length validation

  /** The dictionary `validate_content_length` returns. */
  datatype LengthReport = LengthReport(valid: bool, warnings: seq<string>, length: nat)

  /** `validate_content_length` as written: the "extremely long" branch sits
      behind the "very long" one, whose threshold is lower, so it is never taken. */
  function ValidateContentLength(content: string, contentType: string): (r: LengthReport)
    ensures r.length == |content| && |r.warnings| <= 1
    ensures r.warnings != [] <==>
      (contentType == "title" && |content| > 100)
      || (contentType == "excerpt" && |content| > 300)
      || (contentType == "content" && |content| > 10000)
  {
    var n: nat := |content|;
    if contentType == "title" && n > 100 then
      LengthReport(true, ["Title is very long (over 100 characters)"], n)
    else if contentType == "excerpt" && n > 300 then
      LengthReport(true, ["Excerpt is very long (over 300 characters)"], n)
    else if contentType == "content" then
      if n > 10000 then LengthReport(true, ["Content is very long (over 10,000 characters)"], n)
      else if n > 50000 then LengthReport(false, ["Content is extremely long (over 50,000 characters)"], n)
      else LengthReport(true, [], n)
    else LengthReport(true, [], n)
  }

  /** As written, no content is ever reported invalid. */
  lemma ValidateContentLengthNeverInvalid(content: string, contentType: string)
    ensures ValidateContentLength(content, contentType).valid
  {
  }

  /** Content of 50,001 characters, which the code's own message calls
      extremely long, is still reported valid. */
  lemma ExtremelyLongContentAccepted()
    ensures var long := seq(50001, _ => 'a');
      ValidateContentLength(long, "content").valid
      && !ValidateContentLengthCorrected(long, "content").valid
  {
  }

  /** `validate_content_length` with the two content thresholds tested from
      the higher down, so that the "extremely long" case is reachable. */
  function ValidateContentLengthCorrected(content: string, contentType: string): (r: LengthReport)
    ensures r.length == |content| && |r.warnings| <= 1
    ensures !r.valid <==> contentType == "content" && |content| > 50000
    ensures r.warnings != [] <==>
      (contentType == "title" && |content| > 100)
      || (contentType == "excerpt" && |content| > 300)
      || (contentType == "content" && |content| > 10000)
  {
    var n: nat := |content|;
    if contentType == "title" && n > 100 then
      LengthReport(true, ["Title is very long (over 100 characters)"], n)
    else if contentType == "excerpt" && n > 300 then
      LengthReport(true, ["Excerpt is very long (over 300 characters)"], n)
    else if contentType == "content" then
      if n > 50000 then LengthReport(false, ["Content is extremely long (over 50,000 characters)"], n)
      else if n > 10000 then LengthReport(true, ["Content is very long (over 10,000 characters)"], n)
      else LengthReport(true, [], n)
    else LengthReport(true, [], n)
  }

  /** The correction changes nothing at or below 50,000 characters. */
  lemma ValidateContentLengthCorrectedAgrees(content: string, contentType: string)
    requires !(contentType == "content" && |content| > 50000)
    ensures ValidateContentLengthCorrected(content, contentType) == ValidateContentLength(content, contentType)
  {
  }
}
