/** The string helpers of `src/utils.py`: file-name sanitising, link
    normalisation without a base URL, truncation for previews and whitespace
    normalisation. All four are straight-line expressions over `str`. */
module Utils {
  import opened Text

  // ---------------------------------------------------------------------------
  // sanitize_filename

  /** The characters of the class `[<>:"/\\|?*]`, each of which becomes `_`. */
  predicate IsUnsafeFileChar(c: char) {
    c == '<' || c == '>' || c == ':' || c == '"' || c == '/' || c == '\\'
    || c == '|' || c == '?' || c == '*'
  }

  /** The characters `strip(' .')` removes from both ends. */
  predicate IsEdgeFileChar(c: char) { c == ' ' || c == '.' }

  const MaxFilenameLength := 200

  function ReplaceUnsafe(s: string): (r: string)
    ensures |r| == |s|
    ensures forall i :: 0 <= i < |s| ==> r[i] == if IsUnsafeFileChar(s[i]) then '_' else s[i]
    ensures forall c :: c in r ==> !IsUnsafeFileChar(c)
  {
    seq(|s|, i requires 0 <= i < |s| => if IsUnsafeFileChar(s[i]) then '_' else s[i])
  }

  /** `sanitize_filename`: unsafe characters replaced, spaces and dots stripped
      from both ends, then cut to 200 characters. The cut comes after the strip,
      so only the start is guaranteed free of spaces and dots. */
  function SanitizeFilename(name: string): (r: string)
    ensures |r| <= MaxFilenameLength
    ensures forall i :: 0 <= i < |r| ==> !IsUnsafeFileChar(r[i])
    ensures r != [] ==> !IsEdgeFileChar(r[0])
  {
    var t := Trim(ReplaceUnsafe(name), IsEdgeFileChar);
    var r := if |t| > MaxFilenameLength then t[..MaxFilenameLength] else t;
    forall i | 0 <= i < |r|
      ensures !IsUnsafeFileChar(r[i])
    {
      assert r[i] in t;
    }
    r
  }

  /** A name that is already safe, trimmed and short enough comes back unchanged. */
  lemma SanitizeKeepsSafeNames(name: string)
    requires forall i :: 0 <= i < |name| ==> !IsUnsafeFileChar(name[i])
    requires name != [] ==> !IsEdgeFileChar(name[0]) && !IsEdgeFileChar(name[|name| - 1])
    requires |name| <= MaxFilenameLength
    ensures SanitizeFilename(name) == name
  {
    assert ReplaceUnsafe(name) == name;
    TrimUnchanged(name, IsEdgeFileChar);
  }

  /** Because the cut follows the strip, a 201-character name whose second-last
      character is a dot comes out ending in that dot. */
  lemma SanitizeMayEndWithDot(w: string, c: char)
    requires |w| == MaxFilenameLength - 1
    requires forall i :: 0 <= i < |w| ==> !IsUnsafeFileChar(w[i])
    requires !IsEdgeFileChar(w[0]) && !IsUnsafeFileChar(c) && !IsEdgeFileChar(c)
    ensures SanitizeFilename(w + "." + [c]) == w + "."
  {
    var name := w + "." + [c];
    assert ReplaceUnsafe(name) == name;
    TrimUnchanged(name, IsEdgeFileChar);
    assert name[..MaxFilenameLength] == w + ".";
  }

  // ---------------------------------------------------------------------------
  // normalize_url (no base URL)

  predicate HasScheme(u: string) {
    StartsWith(u, "http://") || StartsWith(u, "https://")
  }

  /** `normalize_url(url)` with `base_url=None`: "" stays "", the rest is
      stripped, a protocol-relative `//host` gets `https:`, and anything without
      an `http://` or `https://` prefix gets `https://`. With no base URL the
      `/path` branch is skipped, so `/path` also falls through to `https://`. */
  function NormalizeUrl(url: string): (r: string)
    ensures url == [] <==> r == []
    ensures url != [] ==> HasScheme(r) && Stripped(r)
  {
    if url == [] then []
    else
      var u := Strip(url);
      if StartsWith(u, "//") then
        HttpsBeforeRelative(u);
        "https:" + u
      else if !HasScheme(u) then
        HttpsBefore(u);
        "https://" + u
      else u
  }

  lemma HttpsBefore(u: string)
    requires Stripped(u)
    ensures HasScheme("https://" + u) && Stripped("https://" + u)
  {
    PrefixStartsWith("https://", u);
    var r := "https://" + u;
    assert r[0] == 'h';
    assert r[|r| - 1] == if u == [] then '/' else u[|u| - 1];
  }

  lemma HttpsBeforeRelative(u: string)
    requires StartsWith(u, "//") && Stripped(u)
    ensures HasScheme("https:" + u) && Stripped("https:" + u)
  {
    var host := u[2..];
    assert u == "//" + host;
    HttpsBeforeSlashes(host);
    PrefixStartsWith("https://", host);
    var r := "https:" + u;
    assert r[0] == 'h';
    assert r[|r| - 1] == u[|u| - 1];
  }

  /** `//host` becomes `https://host`. */
  lemma ProtocolRelativeUrl(host: string)
    requires host == [] || !IsSpace(host[|host| - 1])
    ensures NormalizeUrl("//" + host) == "https://" + host
  {
    var u := "//" + host;
    SlashesStripped(host);
    StripUnchanged(u);
    PrefixStartsWith("//", host);
    HttpsBeforeSlashes(host);
  }

  lemma HttpsBeforeSlashes(host: string)
    ensures "https:" + ("//" + host) == "https://" + host
  {
    assert "https:" + "//" == "https://";
    ConcatAssoc("https:", "//", host);
  }

  lemma SlashesStripped(host: string)
    requires host == [] || !IsSpace(host[|host| - 1])
    ensures Stripped("//" + host)
  {
    var u := "//" + host;
    assert u[0] == '/';
    assert u[|u| - 1] == if host == [] then '/' else host[|host| - 1];
  }

  /** A link with a scheme starts with `h`, so it is not protocol-relative. */
  lemma SchemeNotProtocolRelative(url: string)
    requires HasScheme(url)
    ensures url[0] == 'h' && !StartsWith(url, "//")
  {
    if StartsWith(url, "http://") {
      assert url[..7][0] == url[0];
    } else {
      assert url[..8][0] == url[0];
    }
    assert url[..2][0] == url[0];
  }

  /** A stripped link that already names its scheme is left alone. */
  lemma AbsoluteUrlUnchanged(url: string)
    requires HasScheme(url) && Stripped(url)
    ensures NormalizeUrl(url) == url
  {
    SchemeNotProtocolRelative(url);
    StripUnchanged(url);
  }

  lemma NormalizeUrlIdempotent(url: string)
    ensures NormalizeUrl(NormalizeUrl(url)) == NormalizeUrl(url)
  {
    if url != [] {
      AbsoluteUrlUnchanged(NormalizeUrl(url));
    }
  }

  // ---------------------------------------------------------------------------
  // truncate_text

  /** `truncate_text(text, max_length, suffix)`. Python's `text[:max_length - len(suffix)]`
      and `truncated[:last_space]` are slices that count from the end when their
      bound is negative; `last_space > max_length * 0.8` is compared exactly as
      `5 * last_space > 4 * max_length`. */
  function TruncateText(text: string, maxLength: int, suffix: string): (r: string)
    ensures |text| <= maxLength ==> r == text
    ensures |text| > maxLength ==> EndsWith(r, suffix)
    ensures |text| > maxLength ==> |suffix| <= |r| <= |text| + |suffix| && r == text[..|r| - |suffix|] + suffix
    ensures |text| > maxLength >= |suffix| ==> |r| <= maxLength
  {
    if |text| <= maxLength then text
    else
      var cut := TakePy(text, maxLength - |suffix|);
      var lastSpace := RFind(cut, ' ');
      var kept := if 5 * lastSpace > 4 * maxLength then TakePy(cut, lastSpace) else cut;
      assert kept == text[..|kept|];
      assert (kept + suffix)[|kept + suffix| - |suffix|..] == suffix;
      kept + suffix
  }

  /** When the text is cut, the kept part is either the full `max_length - len(suffix)`
      prefix or stops at the last space of that prefix; it stops there exactly
      when that space lies past four fifths of `max_length`. */
  lemma TruncateAtWordBoundary(text: string, maxLength: int, suffix: string)
    requires |text| > maxLength >= |suffix|
    ensures var k := |TruncateText(text, maxLength, suffix)| - |suffix|;
      (k == maxLength - |suffix| && forall p :: 0 <= p < k && text[p] == ' ' ==> 5 * p <= 4 * maxLength)
      || (5 * k > 4 * maxLength && k < maxLength - |suffix| && text[k] == ' '
          && forall j :: k < j < maxLength - |suffix| ==> text[j] != ' ')
  {
    var cut := TakePy(text, maxLength - |suffix|);
    var lastSpace := RFind(cut, ' ');
    var k := |TruncateText(text, maxLength, suffix)| - |suffix|;
    if 5 * lastSpace > 4 * maxLength {
      assert k == lastSpace;
      assert text[k] == cut[k];
      forall j | k < j < maxLength - |suffix|
        ensures text[j] != ' '
      {
        assert text[j] == cut[j];
      }
    } else {
      assert k == maxLength - |suffix|;
      forall p | 0 <= p < k && text[p] == ' '
        ensures 5 * p <= 4 * maxLength
      {
        assert cut[p] == text[p];
        assert p <= lastSpace;
      }
    }
  }

  // ---------------------------------------------------------------------------
  // normalize_whitespace

  predicate NotSpace(c: char) { !IsSpace(c) }

  /** `re.sub(r'\s+', ' ', s)`: each maximal run of whitespace becomes one space. */
  function SquashSpaces(s: string): (r: string)
    ensures |r| <= |s|
    ensures r == [] <==> s == []
    ensures r != [] ==> r[0] == if IsSpace(s[0]) then ' ' else s[0]
    ensures SingleSpaced(r)
    decreases |s|
  {
    if s == [] then []
    else if IsSpace(s[0]) then
      var t := TrimLeft(s[1..], IsSpace);
      var rest := SquashSpaces(t);
      assert rest != [] ==> !IsSpace(rest[0]);
      ConsSingleSpaced(' ', rest);
      [' '] + rest
    else
      var rest := SquashSpaces(s[1..]);
      ConsSingleSpaced(s[0], rest);
      [s[0]] + rest
  }

  /** Putting a non-space, or a plain space before a non-space, in front of a
      single-spaced string keeps it single-spaced. */
  lemma ConsSingleSpaced(c: char, rest: string)
    requires SingleSpaced(rest)
    requires IsSpace(c) ==> c == ' ' && (rest != [] ==> !IsSpace(rest[0]))
    ensures SingleSpaced([c] + rest)
  {
    var r := [c] + rest;
    forall i | 0 <= i < |r| && IsSpace(r[i])
      ensures r[i] == ' ' && (i + 1 < |r| ==> !IsSpace(r[i + 1]))
    {
      if i > 0 {
        assert r[i] == rest[i - 1];
        if i + 1 < |r| {
          assert r[i + 1] == rest[i];
        }
      }
    }
  }

  /** A piece of a single-spaced string is single-spaced. */
  lemma SingleSpacedSlice(s: string, a: nat, b: nat)
    requires a <= b <= |s| && SingleSpaced(s)
    ensures SingleSpaced(s[a..b])
  {
    assert forall i :: 0 <= i < b - a ==> s[a..b][i] == s[a + i];
  }

  lemma TrimSingleSpaced(s: string, drop: char -> bool)
    requires SingleSpaced(s)
    ensures SingleSpaced(Trim(s, drop))
  {
    var a := |s| - |TrimLeft(s, drop)|;
    var r := Trim(s, drop);
    SingleSpacedSlice(s, a, a + |r|);
  }

  lemma StripSingleSpaced(s: string)
    requires SingleSpaced(s)
    ensures SingleSpaced(Strip(s))
  {
    TrimSingleSpaced(s, IsSpace);
  }

  /** `normalize_whitespace(text)`: whitespace runs squashed to one space, then stripped. */
  function NormalizeWhitespace(text: string): (r: string)
    ensures Collapsed(r)
    ensures |r| <= |text|
  {
    if text == [] then []
    else
      StripSingleSpaced(SquashSpaces(text));
      Strip(SquashSpaces(text))
  }

  lemma {:induction false} TrimLeftKeepsWords(s: string)
    ensures Filter(TrimLeft(s, IsSpace), NotSpace) == Filter(s, NotSpace)
    decreases |s|
  {
    if s != [] && IsSpace(s[0]) {
      TrimLeftKeepsWords(s[1..]);
    }
  }

  lemma {:induction false} TrimRightKeepsWords(s: string)
    ensures Filter(TrimRight(s, IsSpace), NotSpace) == Filter(s, NotSpace)
    decreases |s|
  {
    if s != [] && IsSpace(s[|s| - 1]) {
      var init, last := s[..|s| - 1], s[|s| - 1];
      TrimRightKeepsWords(init);
      assert s == init + [last];
      FilterConcat(init, [last], NotSpace);
      assert Filter([last], NotSpace) == [];
    }
  }

  /** Stripping whitespace keeps every other character. */
  lemma StripKeepsWords(s: string)
    ensures Filter(Strip(s), NotSpace) == Filter(s, NotSpace)
  {
    TrimLeftKeepsWords(s);
    TrimRightKeepsWords(TrimLeft(s, IsSpace));
  }

  lemma {:induction false} SquashKeepsWords(s: string)
    ensures Filter(SquashSpaces(s), NotSpace) == Filter(s, NotSpace)
    decreases |s|
  {
    if s != [] {
      if IsSpace(s[0]) {
        var t := TrimLeft(s[1..], IsSpace);
        SquashKeepsWords(t);
        TrimLeftKeepsWords(s[1..]);
        var x := " " + SquashSpaces(t);
        assert x[1..] == SquashSpaces(t);
        assert Filter(x, NotSpace) == Filter(SquashSpaces(t), NotSpace);
      } else {
        SquashKeepsWords(s[1..]);
        var x := [s[0]] + SquashSpaces(s[1..]);
        assert x[1..] == SquashSpaces(s[1..]);
      }
    }
  }

  /** Normalising keeps every non-whitespace character, in order. */
  lemma NormalizeKeepsWords(text: string)
    ensures Filter(NormalizeWhitespace(text), NotSpace) == Filter(text, NotSpace)
  {
    if text != [] {
      SquashKeepsWords(text);
      StripKeepsWords(SquashSpaces(text));
    }
  }

  lemma {:induction false} SquashSingleSpaced(s: string)
    requires SingleSpaced(s)
    ensures SquashSpaces(s) == s
    decreases |s|
  {
    if s != [] {
      SingleSpacedSlice(s, 1, |s|);
      SquashSingleSpaced(s[1..]);
      if IsSpace(s[0]) {
        assert s[1..] == [] || !IsSpace(s[1..][0]);
        assert TrimLeft(s[1..], IsSpace) == s[1..];
      }
    }
  }

  /** An already collapsed string is its own normal form, so normalising twice
      changes nothing. */
  lemma NormalizeCollapsedUnchanged(s: string)
    requires Collapsed(s)
    ensures NormalizeWhitespace(s) == s
  {
    if s != [] {
      SquashSingleSpaced(s);
      StripUnchanged(s);
    }
  }

  lemma NormalizeWhitespaceIdempotent(text: string)
    ensures NormalizeWhitespace(NormalizeWhitespace(text)) == NormalizeWhitespace(text)
  {
    NormalizeCollapsedUnchanged(NormalizeWhitespace(text));
  }
}
