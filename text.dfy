/** The parts of Python's `str` behaviour the converter relies on: character
    classes (`\s`, `\w`), case mapping, `strip`, `split`, `join`, `replace`,
    `startswith`/`endswith`, `in`, `find`/`rfind` and slicing with a possibly
    negative bound. Strings are `seq<char>`; every function here follows the
    Python definition for the characters it covers. */
module Text {

  // ---------------------------------------------------------------------------
  // Character classes

  /** Python's `str.isspace()`, which is also what `\s` matches in a `str` pattern
      and where `str.split()` / `str.strip()` cut. */
  predicate IsSpace(c: char) {
    c == ' ' || c == '\t' || c == '\n' || c == '\r' || c == '\U{0B}' || c == '\U{0C}'
    || ('\U{1C}' <= c <= '\U{1F}') || c == '\U{85}' || c == '\U{A0}' || c == '\U{1680}'
    || ('\U{2000}' <= c <= '\U{200A}') || c == '\U{2028}' || c == '\U{2029}'
    || c == '\U{202F}' || c == '\U{205F}' || c == '\U{3000}'
  }

  predicate IsAsciiUpper(c: char) { 'A' <= c <= 'Z' }
  predicate IsAsciiLower(c: char) { 'a' <= c <= 'z' }
  predicate IsAsciiDigit(c: char) { '0' <= c <= '9' }

  /** `\w`: letters, digits and `_`. Exact for ASCII and Latin-1 (where it also
      admits the letters and the numeric characters ª ² ³ µ ¹ º ¼ ½ ¾). */
  predicate IsWordChar(c: char) {
    IsAsciiUpper(c) || IsAsciiLower(c) || IsAsciiDigit(c) || c == '_'
    || c == '\U{AA}' || c == '\U{B2}' || c == '\U{B3}' || c == '\U{B5}' || c == '\U{B9}'
    || c == '\U{BA}' || ('\U{BC}' <= c <= '\U{BE}')
    || ('\U{C0}' <= c <= '\U{FF}' && c != '\U{D7}' && c != '\U{F7}')
  }

  lemma WordCharIsNotSpace(c: char)
    ensures IsWordChar(c) ==> !IsSpace(c)
  {
  }

  /** Letters that have case, as `str.title()` tests them: exact for ASCII and
      Latin-1, where every letter is cased (ª and º are lower-case letters too). */
  predicate IsCased(c: char) {
    IsAsciiUpper(c) || IsAsciiLower(c)
    || c == '\U{AA}' || c == '\U{B5}' || c == '\U{BA}'
    || ('\U{C0}' <= c <= '\U{FF}' && c != '\U{D7}' && c != '\U{F7}')
  }

  /** Every cased letter is a word character. */
  lemma CasedIsWordChar(c: char)
    ensures IsCased(c) ==> IsWordChar(c)
  {
  }

  function Lower(c: char): (r: char)
    ensures !IsAsciiUpper(r)
    ensures IsWordChar(c) <==> IsWordChar(r)
    ensures IsSpace(c) <==> IsSpace(r)
    ensures IsCased(c) <==> IsCased(r)
    ensures !IsAsciiUpper(c) ==> r == c
  {
    if IsAsciiUpper(c) then (c as int + 32) as char else c
  }

  function Upper(c: char): (r: char)
    ensures !IsAsciiLower(r)
    ensures IsCased(c) <==> IsCased(r)
    ensures !IsAsciiLower(c) ==> r == c
  {
    if IsAsciiLower(c) then (c as int - 32) as char else c
  }

  /** `str.lower()`. */
  function ToLower(s: string): (r: string)
    ensures |r| == |s|
    ensures forall i :: 0 <= i < |s| ==> r[i] == Lower(s[i])
  {
    seq(|s|, i requires 0 <= i < |s| => Lower(s[i]))
  }

  lemma ToLowerIdempotent(s: string)
    ensures ToLower(ToLower(s)) == ToLower(s)
  {
  }

  /** Lower-casing keeps whitespace where it is, so it commutes with trimming. */
  lemma {:induction false} TrimLeftLower(s: string)
    ensures TrimLeft(ToLower(s), IsSpace) == ToLower(TrimLeft(s, IsSpace))
    decreases |s|
  {
    if s != [] {
      assert ToLower(s)[1..] == ToLower(s[1..]);
      TrimLeftLower(s[1..]);
    }
  }

  lemma {:induction false} TrimRightLower(s: string)
    ensures TrimRight(ToLower(s), IsSpace) == ToLower(TrimRight(s, IsSpace))
    decreases |s|
  {
    if s != [] {
      assert ToLower(s)[..|s| - 1] == ToLower(s[..|s| - 1]);
      TrimRightLower(s[..|s| - 1]);
    }
  }

  lemma StripLower(s: string)
    ensures Strip(ToLower(s)) == ToLower(Strip(s))
  {
    TrimLeftLower(s);
    TrimRightLower(TrimLeft(s, IsSpace));
  }

  /** An occurrence of `p` in `s` is an occurrence of `p` lower-cased in `s` lower-cased. */
  lemma ContainsLower(s: string, p: string)
    requires Contains(s, p)
    ensures Contains(ToLower(s), ToLower(p))
  {
    var k := ContainsWitness(s, p);
    assert ToLower(s)[k..k + |p|] == ToLower(p);
    ContainsAt(ToLower(s), ToLower(p), k);
  }

  /** `str.title()`: a cased letter right after a cased letter is lower-cased,
      every other character upper-cased (so "it's 1st" becomes "It'S 1St"). */
  function TitleCase(s: string): (r: string)
    ensures |r| == |s|
    ensures forall i :: 0 <= i < |s| ==> IsCased(r[i]) == IsCased(s[i])
    ensures forall i :: 0 <= i < |s| && !IsCased(s[i]) ==> r[i] == s[i]
  {
    seq(|s|, i requires 0 <= i < |s| => if i > 0 && IsCased(s[i - 1]) then Lower(s[i]) else Upper(s[i]))
  }

  /** An accented letter is cased, so the letter after it is lower-cased:
      "müLLER" becomes "Müller", not "MüLler". */
  lemma TitleCaseAfterAccent()
    ensures TitleCase("m\U{FC}LLER") == "M\U{FC}ller"
  {
    var r := TitleCase("m\U{FC}LLER");
    assert r[0] == 'M' && r[1] == '\U{FC}' && r[2] == 'l' && r[3] == 'l' && r[4] == 'e' && r[5] == 'r';
  }

  /** Lower-casing never puts whitespace at either end of stripped text. */
  lemma LowerStripped(s: string)
    requires Stripped(s)
    ensures Stripped(ToLower(s))
  {
    if s != [] {
      assert ToLower(s)[0] == Lower(s[0]);
      assert ToLower(s)[|s| - 1] == Lower(s[|s| - 1]);
    }
  }

  /** Title-casing never puts whitespace at either end of stripped text. */
  lemma TitleCaseStripped(s: string)
    requires Stripped(s)
    ensures Stripped(TitleCase(s))
  {
    var r := TitleCase(s);
    if s != [] {
      assert !IsSpace(r[0]) by {
        if !IsCased(s[0]) { assert r[0] == s[0]; }
      }
      assert !IsSpace(r[|r| - 1]) by {
        if !IsCased(s[|s| - 1]) { assert r[|r| - 1] == s[|s| - 1]; }
      }
    }
  }

  // ---------------------------------------------------------------------------
  // Searching

  /** `s.startswith(p)`. */
  predicate StartsWith(s: string, p: string) {
    |p| <= |s| && s[..|p|] == p
  }

  /** A string starts with whatever was put in front of it. */
  lemma PrefixStartsWith(p: string, x: string)
    ensures StartsWith(p + x, p)
  {
    assert (p + x)[..|p|] == p;
  }

  lemma ConcatAssoc(a: string, b: string, c: string)
    ensures a + (b + c) == (a + b) + c
  {
  }

  /** `s.endswith(p)`. */
  predicate EndsWith(s: string, p: string) {
    |p| <= |s| && s[|s| - |p|..] == p
  }

  /** `sub in s`. */
  predicate Contains(s: string, sub: string)
    decreases |s|
  {
    StartsWith(s, sub) || (s != [] && Contains(s[1..], sub))
  }

  /** `sub in s` holds exactly when `sub` occurs at some position of `s`. */
  lemma {:induction false} ContainsAt(s: string, sub: string, k: nat)
    requires k + |sub| <= |s| && s[k..k + |sub|] == sub
    ensures Contains(s, sub)
    decreases k
  {
    if k == 0 {
      assert s[..|sub|] == sub;
    } else {
      assert s[1..][k - 1..k - 1 + |sub|] == s[k..k + |sub|];
      ContainsAt(s[1..], sub, k - 1);
    }
  }

  lemma {:induction false} ContainsWitness(s: string, sub: string) returns (k: nat)
    requires Contains(s, sub)
    ensures k + |sub| <= |s| && s[k..k + |sub|] == sub
    decreases |s|
  {
    if StartsWith(s, sub) {
      k := 0;
    } else {
      var j := ContainsWitness(s[1..], sub);
      assert s[1..][j..j + |sub|] == s[j + 1..j + 1 + |sub|];
      k := j + 1;
    }
  }

  /** Every character of a contained `sub` occurs in `s`, so text lacking one
      of them does not contain `sub`. */
  lemma ContainedCharsOccur(s: string, sub: string)
    ensures Contains(s, sub) ==> forall c :: c in sub ==> c in s
  {
    if Contains(s, sub) {
      var k := ContainsWitness(s, sub);
      forall c | c in sub
        ensures c in s
      {
        var j :| 0 <= j < |sub| && sub[j] == c;
        assert s[k + j] == c;
      }
    }
  }

  /** An occurrence of `sub` in `x + w` cannot start inside `x` when `x` lacks
      the first character of `sub`, so it lies in `w`. */
  lemma ContainsAfterPrefix(x: string, w: string, sub: string)
    requires sub != [] && sub[0] !in x
    ensures Contains(x + w, sub) ==> Contains(w, sub)
  {
    if Contains(x + w, sub) {
      var s := x + w;
      var k := ContainsWitness(s, sub);
      assert forall j :: 0 <= j < |x| ==> s[j] == x[j];
      assert sub[0] == s[k];
      assert s[k..k + |sub|] == w[k - |x|..k - |x| + |sub|];
      ContainsAt(w, sub, k - |x|);
    }
  }

  /** `sub` occurs in `s` at position `j`. */
  predicate OccursAt(s: string, sub: string, j: int) {
    0 <= j && j + |sub| <= |s| && s[j..j + |sub|] == sub
  }

  /** Positions in a suffix of `s` are positions in `s` shifted by where the suffix starts. */
  lemma OccursInSuffix(s: string, sub: string, b: nat)
    requires b <= |s|
    ensures forall j :: b <= j ==> (OccursAt(s[b..], sub, j - b) <==> OccursAt(s, sub, j))
  {
    forall j | b <= j
      ensures OccursAt(s[b..], sub, j - b) <==> OccursAt(s, sub, j)
    {
      if j + |sub| <= |s| {
        assert s[b..][j - b..j - b + |sub|] == s[j..j + |sub|];
      }
    }
  }

  /** `s.find(sub)`: the first position where `sub` occurs, or -1. */
  function Find(s: string, sub: string): (r: int)
    ensures r == -1 || OccursAt(s, sub, r)
    ensures forall j :: 0 <= j && (r < 0 || j < r) ==> !OccursAt(s, sub, j)
    ensures r >= 0 <==> Contains(s, sub)
    decreases |s|
  {
    if StartsWith(s, sub) then 0
    else if s == [] then -1
    else
      var r := Find(s[1..], sub);
      assert forall j :: 1 <= j ==> (OccursAt(s, sub, j) <==> OccursAt(s[1..], sub, j - 1)) by {
        forall j | 1 <= j && j + |sub| <= |s|
          ensures OccursAt(s, sub, j) <==> OccursAt(s[1..], sub, j - 1)
        {
          assert s[1..][j - 1..j - 1 + |sub|] == s[j..j + |sub|];
        }
      }
      if r < 0 then -1 else r + 1
  }

  /** `find` returns a position where `sub` occurs when nothing occurs before it. */
  lemma FindIs(s: string, sub: string, k: nat)
    requires OccursAt(s, sub, k)
    requires forall j :: 0 <= j < k ==> !OccursAt(s, sub, j)
    ensures Find(s, sub) == k
  {
  }

  /** A one-character `c in s` is plain membership. */
  lemma {:induction false} ContainsChar(s: string, c: char)
    ensures Contains(s, [c]) <==> c in s
    decreases |s|
  {
    if s != [] {
      ContainsChar(s[1..], c);
      assert s == [s[0]] + s[1..];
    }
  }

  /** `s.find(c)` when it succeeds; `|s|` when `c` does not occur. */
  function IndexOf(s: string, c: char): (r: nat)
    ensures r <= |s|
    ensures r < |s| ==> s[r] == c
    ensures forall j :: 0 <= j < r ==> s[j] != c
    ensures r == |s| <==> c !in s
  {
    if s == [] then 0
    else if s[0] == c then 0
    else 1 + IndexOf(s[1..], c)
  }

  /** `s.rfind(c)`: the last index of `c`, or -1. */
  function RFind(s: string, c: char): (r: int)
    ensures -1 <= r < |s|
    ensures r >= 0 ==> s[r] == c
    ensures forall j :: r < j < |s| ==> s[j] != c
  {
    if s == [] then -1
    else if s[|s| - 1] == c then |s| - 1
    else RFind(s[..|s| - 1], c)
  }

  // ---------------------------------------------------------------------------
  // Slicing

  /** `s[:m]` for any integer `m` (a negative bound counts from the end). */
  function TakePy(s: string, m: int): (r: string)
    ensures 0 <= m ==> |r| == if m < |s| then m else |s|
    ensures |r| <= |s| && r == s[..|r|]
  {
    if m >= 0 then (if m < |s| then s[..m] else s)
    else if |s| + m > 0 then s[..|s| + m] else []
  }

  // ---------------------------------------------------------------------------
  // Stripping

  /** `s.lstrip(chars)` where `drop` says which characters are in `chars`. */
  function TrimLeft(s: string, drop: char -> bool): (r: string)
    ensures |r| <= |s| && r == s[|s| - |r|..]
    ensures forall i :: 0 <= i < |s| - |r| ==> drop(s[i])
    ensures r != [] ==> !drop(r[0])
    decreases |s|
  {
    if s != [] && drop(s[0]) then
      var r := TrimLeft(s[1..], drop);
      assert s[1..][|s| - 1 - |r|..] == s[|s| - |r|..];
      assert forall i :: 1 <= i < |s| ==> s[1..][i - 1] == s[i];
      r
    else s
  }

  /** `s.rstrip(chars)`. */
  function TrimRight(s: string, drop: char -> bool): (r: string)
    ensures |r| <= |s| && r == s[..|r|]
    ensures forall i :: |r| <= i < |s| ==> drop(s[i])
    ensures r != [] ==> !drop(r[|r| - 1])
    decreases |s|
  {
    if s != [] && drop(s[|s| - 1]) then
      var r := TrimRight(s[..|s| - 1], drop);
      assert s[..|s| - 1][..|r|] == s[..|r|];
      assert forall i :: 0 <= i < |s| - 1 ==> s[..|s| - 1][i] == s[i];
      r
    else s
  }

  /** `s.strip(chars)`: a contiguous piece of `s` that neither starts nor ends
      with a dropped character, everything cut away being dropped characters. */
  function Trim(s: string, drop: char -> bool): (r: string)
    ensures r != [] ==> !drop(r[0]) && !drop(r[|r| - 1])
    ensures var a := |s| - |TrimLeft(s, drop)|; a + |r| <= |s| && r == s[a..a + |r|]
    ensures forall c :: c in r ==> c in s
  {
    var t := TrimLeft(s, drop);
    var r := TrimRight(t, drop);
    TrimPiece(s, t, r);
    TrimEnds(t, r, drop);
    r
  }

  /** A prefix of `t` that does not end with a dropped character, where `t`
      does not start with one, has neither end dropped. */
  lemma TrimEnds(t: string, r: string, drop: char -> bool)
    requires t != [] ==> !drop(t[0])
    requires |r| <= |t| && r == t[..|r|]
    requires r != [] ==> !drop(r[|r| - 1])
    ensures r != [] ==> !drop(r[0]) && !drop(r[|r| - 1])
  {
    if r != [] {
      assert r[0] == t[0];
    }
  }

  /** A prefix of a suffix of `s` is a slice of `s` made of its characters. */
  lemma TrimPiece(s: string, t: string, r: string)
    requires |t| <= |s| && t == s[|s| - |t|..]
    requires |r| <= |t| && r == t[..|r|]
    ensures var a := |s| - |t|; a + |r| <= |s| && r == s[a..a + |r|]
    ensures forall c :: c in r ==> c in s
  {
    SliceOfSuffix(s, |s| - |t|, |r|);
  }

  /** A prefix of a suffix is a slice, and its elements are elements of the whole. */
  lemma SliceOfSuffix<T>(s: seq<T>, a: nat, n: nat)
    requires a + n <= |s|
    ensures s[a..][..n] == s[a..a + n]
    ensures forall x :: x in s[a..a + n] ==> x in s
  {
    forall x | x in s[a..a + n]
      ensures x in s
    {
      var i :| 0 <= i < n && s[a..a + n][i] == x;
      assert s[a + i] == x;
    }
  }

  /** A string that neither starts nor ends with a dropped character is its own strip. */
  lemma TrimUnchanged(s: string, drop: char -> bool)
    requires s != [] ==> !drop(s[0]) && !drop(s[|s| - 1])
    ensures Trim(s, drop) == s
  {
  }

  /** `s.strip()`. */
  function Strip(s: string): (r: string)
    ensures r != [] ==> !IsSpace(r[0]) && !IsSpace(r[|r| - 1])
    ensures |r| <= |s|
    ensures forall c :: c in r ==> c in s
  {
    Trim(s, IsSpace)
  }

  /** No whitespace at either end. */
  predicate Stripped(s: string) {
    s != [] ==> !IsSpace(s[0]) && !IsSpace(s[|s| - 1])
  }

  lemma StripUnchanged(s: string)
    requires Stripped(s)
    ensures Strip(s) == s
  {
    TrimUnchanged(s, IsSpace);
  }

  // ---------------------------------------------------------------------------
  // Whitespace collapsing

  /** Every whitespace character is a plain space and no two are adjacent. */
  predicate SingleSpaced(s: string) {
    forall i :: 0 <= i < |s| && IsSpace(s[i]) ==> s[i] == ' ' && (i + 1 < |s| ==> !IsSpace(s[i + 1]))
  }

  /** What `' '.join(s.split())` produces: single plain spaces between non-blank
      runs, none at either end. */
  predicate Collapsed(s: string) {
    SingleSpaced(s) && Stripped(s)
  }

  predicate NoSpace(w: string) {
    forall i :: 0 <= i < |w| ==> !IsSpace(w[i])
  }

  /** End of the non-blank run of `s` that starts at `i`. */
  function WordEnd(s: string, i: nat): (r: nat)
    requires i <= |s|
    ensures i <= r <= |s|
    ensures forall j :: i <= j < r ==> !IsSpace(s[j])
    ensures r < |s| ==> IsSpace(s[r])
    decreases |s| - i
  {
    if i < |s| && !IsSpace(s[i]) then WordEnd(s, i + 1) else i
  }

  /** `s.split()`: the maximal non-blank runs of `s`, in order. */
  function SplitWhitespace(s: string): (r: seq<string>)
    ensures forall k :: 0 <= k < |r| ==> r[k] != [] && NoSpace(r[k])
    decreases |s|
  {
    if s == [] then []
    else if IsSpace(s[0]) then SplitWhitespace(s[1..])
    else
      var k := WordEnd(s, 0);
      [s[..k]] + SplitWhitespace(s[k..])
  }

  /** `sep.join(parts)`. */
  function JoinWith(sep: string, parts: seq<string>): string
    decreases |parts|
  {
    if |parts| == 0 then ""
    else if |parts| == 1 then parts[0]
    else parts[0] + sep + JoinWith(sep, parts[1..])
  }

  /** Joining blank-free, non-empty words with one space gives a collapsed string
      that starts with the first word and ends with the last. */
  lemma {:induction false} JoinWordsCollapsed(words: seq<string>)
    requires forall k :: 0 <= k < |words| ==> words[k] != [] && NoSpace(words[k])
    ensures Collapsed(JoinWith(" ", words))
    ensures |words| > 0 ==> JoinWith(" ", words) != [] && !IsSpace(JoinWith(" ", words)[0])
    decreases |words|
  {
    if |words| > 1 {
      JoinWordsCollapsed(words[1..]);
      var w, t := words[0], JoinWith(" ", words[1..]);
      var j := w + " " + t;
      assert JoinWith(" ", words) == j;
      assert forall i :: 0 <= i < |w| ==> j[i] == w[i];
      forall i | 0 <= i < |j| && IsSpace(j[i])
        ensures j[i] == ' ' && (i + 1 < |j| ==> !IsSpace(j[i + 1]))
      {
        if i > |w| {
          assert j[i] == t[i - |w| - 1];
          if i + 1 < |j| { assert j[i + 1] == t[i - |w|]; }
        } else {
          assert j[i + 1] == t[0];
        }
      }
      assert j[|j| - 1] == t[|t| - 1];
    }
  }

  /** `' '.join(s.split())`. */
  function CollapseWhitespace(s: string): (r: string)
    ensures Collapsed(r)
  {
    JoinWordsCollapsed(SplitWhitespace(s));
    JoinWith(" ", SplitWhitespace(s))
  }

  /** No word of `s.split()` holds a character `s` lacks. */
  lemma {:induction false} SplitWhitespaceAbsent(s: string, c: char)
    requires c !in s
    ensures forall k :: 0 <= k < |SplitWhitespace(s)| ==> c !in SplitWhitespace(s)[k]
    decreases |s|
  {
    if s != [] {
      SplitWhitespaceAbsent(s[1..], c);
      if !IsSpace(s[0]) {
        var k := WordEnd(s, 0);
        assert c !in s[..k] && s[k..] == s[1..][k - 1..];
        SplitWhitespaceAbsent(s[k..], c);
      }
    }
  }

  /** Joining parts that lack `c` with a separator that lacks it gives text without `c`. */
  lemma {:induction false} JoinAbsent(sep: string, parts: seq<string>, c: char)
    requires c !in sep && forall k :: 0 <= k < |parts| ==> c !in parts[k]
    ensures c !in JoinWith(sep, parts)
    decreases |parts|
  {
    if |parts| > 1 {
      JoinAbsent(sep, parts[1..], c);
    }
  }

  /** Collapsing whitespace brings in no character but ' '. */
  lemma CollapseAbsent(s: string, c: char)
    requires c !in s && c != ' '
    ensures c !in CollapseWhitespace(s)
  {
    SplitWhitespaceAbsent(s, c);
    JoinAbsent(" ", SplitWhitespace(s), c);
  }

  /** A collapsed string is its own `' '.join(s.split())`. */
  lemma {:induction false} CollapseCollapsed(s: string)
    requires Collapsed(s)
    ensures CollapseWhitespace(s) == s
    decreases |s|
  {
    if s != [] {
      var k := WordEnd(s, 0);
      assert SplitWhitespace(s) == [s[..k]] + SplitWhitespace(s[k..]);
      if k < |s| {
        var t := s[k + 1..];
        assert s[k] == ' ' && k + 1 < |s|;
        assert s[k..][1..] == t;
        assert SplitWhitespace(s[k..]) == SplitWhitespace(t);
        assert Collapsed(t) by {
          forall i | 0 <= i < |t| && IsSpace(t[i])
            ensures t[i] == ' ' && (i + 1 < |t| ==> !IsSpace(t[i + 1]))
          {
            assert t[i] == s[k + 1 + i];
            if i + 1 < |t| { assert t[i + 1] == s[k + 2 + i]; }
          }
        }
        CollapseCollapsed(t);
        var w := SplitWhitespace(t);
        assert t[0] == s[k + 1] && !IsSpace(t[0]);
        assert w != [];
        assert JoinWith(" ", [s[..k]] + w) == s[..k] + " " + JoinWith(" ", w);
        assert s == s[..k] + " " + t;
      } else {
        assert s[k..] == [];
        assert s[..k] == s;
      }
    }
  }

  // ---------------------------------------------------------------------------
  // Filtering

  /** The characters of `s` that satisfy `keep`, in order: what
      `re.sub('[^…]', '', s)` leaves. */
  function Filter(s: string, keep: char -> bool): (r: string)
    ensures |r| <= |s|
    ensures forall c :: c in r <==> c in s && keep(c)
    decreases |s|
  {
    if s == [] then []
    else
      var rest := Filter(s[1..], keep);
      assert forall c :: c in s <==> c == s[0] || c in s[1..];
      if keep(s[0]) then [s[0]] + rest else rest
  }

  /** Filtering works piecewise. */
  lemma {:induction false} FilterConcat(a: string, b: string, keep: char -> bool)
    ensures Filter(a + b, keep) == Filter(a, keep) + Filter(b, keep)
    decreases |a|
  {
    if a != [] {
      assert (a + b)[1..] == a[1..] + b;
      FilterConcat(a[1..], b, keep);
    } else {
      assert a + b == b;
    }
  }

  /** A string made only of kept characters comes through `Filter` unchanged. */
  lemma {:induction false} FilterKeepsAll(s: string, keep: char -> bool)
    requires forall i :: 0 <= i < |s| ==> keep(s[i])
    ensures Filter(s, keep) == s
    decreases |s|
  {
    if s != [] {
      FilterKeepsAll(s[1..], keep);
      assert s == [s[0]] + s[1..];
    }
  }

  // ---------------------------------------------------------------------------
  // Splitting on one character

  /** `s.split(sep)` for a one-character separator: the pieces between the
      separators, empty pieces kept. */
  function SplitOn(s: string, sep: char): (r: seq<string>)
    ensures |r| >= 1
    ensures forall k :: 0 <= k < |r| ==> sep !in r[k]
    decreases |s|
  {
    var k := IndexOf(s, sep);
    if k == |s| then [s] else [s[..k]] + SplitOn(s[k + 1..], sep)
  }

  /** `sep.join(s.split(sep)) == s`. */
  lemma {:induction false} JoinSplitOn(s: string, sep: char)
    ensures JoinWith([sep], SplitOn(s, sep)) == s
    decreases |s|
  {
    var k := IndexOf(s, sep);
    if k < |s| {
      JoinSplitOn(s[k + 1..], sep);
      var rest := SplitOn(s[k + 1..], sep);
      assert SplitOn(s, sep) == [s[..k]] + rest;
      assert JoinWith([sep], [s[..k]] + rest) == s[..k] + [sep] + JoinWith([sep], rest);
      assert s == s[..k] + [sep] + s[k + 1..];
    }
  }

  // ---------------------------------------------------------------------------
  // Replacing

  /** `s.replace(pat, rep)`: occurrences of `pat` replaced left to right,
      without overlaps. */
  function Replace(s: string, pat: string, rep: string): (r: string)
    requires pat != []
    decreases |s|
  {
    if |s| < |pat| then s
    else if s[..|pat|] == pat then rep + Replace(s[|pat|..], pat, rep)
    else [s[0]] + Replace(s[1..], pat, rep)
  }

  /** A string in which `pat` does not occur comes back unchanged. */
  lemma {:induction false} ReplaceAbsent(s: string, pat: string, rep: string)
    requires pat != [] && !Contains(s, pat)
    ensures Replace(s, pat, rep) == s
    decreases |s|
  {
    if |s| >= |pat| {
      ReplaceAbsent(s[1..], pat, rep);
    }
  }

  /** Replacing a character by text without it removes every occurrence of it. */
  lemma {:induction false} ReplaceRemovesChar(s: string, c: char, rep: string)
    requires c !in rep
    ensures c !in Replace(s, [c], rep)
    decreases |s|
  {
    if |s| >= 1 {
      ReplaceRemovesChar(s[|[c]|..], c, rep);
    }
  }

  /** Replacing never brings in a character that is in neither the input nor the replacement. */
  lemma {:induction false} ReplaceKeepsAbsent(s: string, pat: string, rep: string, c: char)
    requires pat != [] && c !in s && c !in rep
    ensures c !in Replace(s, pat, rep)
    decreases |s|
  {
    if |s| >= |pat| {
      if s[..|pat|] == pat {
        ReplaceKeepsAbsent(s[|pat|..], pat, rep, c);
      } else {
        ReplaceKeepsAbsent(s[1..], pat, rep, c);
      }
    }
  }

  /** A leading stretch holding no first character of `pat` passes through untouched. */
  lemma {:induction false} ReplaceSkips(x: string, rest: string, pat: string, rep: string)
    requires pat != [] && pat[0] !in x
    ensures Replace(x + rest, pat, rep) == x + Replace(rest, pat, rep)
    decreases |x|
  {
    if x != [] {
      var s := x + rest;
      assert s[0] == x[0];
      if |s| < |pat| {
        ReplaceAbsentShort(rest, pat, rep);
      } else {
        assert s[..|pat|][0] == x[0];
        assert s[..|pat|] != pat;
        assert s[1..] == x[1..] + rest;
        ReplaceSkips(x[1..], rest, pat, rep);
        assert Replace(s, pat, rep) == [x[0]] + Replace(x[1..] + rest, pat, rep);
        assert x == [x[0]] + x[1..];
      }
    } else {
      assert x + rest == rest;
    }
  }

  lemma ReplaceAbsentShort(s: string, pat: string, rep: string)
    requires pat != [] && |s| < |pat|
    ensures Replace(s, pat, rep) == s
  {
  }

  /** When the input starts with `pat`, the replacement comes first. */
  lemma ReplaceAtStart(rest: string, pat: string, rep: string)
    requires pat != []
    ensures Replace(pat + rest, pat, rep) == rep + Replace(rest, pat, rep)
  {
    assert (pat + rest)[..|pat|] == pat;
    assert (pat + rest)[|pat|..] == rest;
  }

  // ---------------------------------------------------------------------------
  // Numbers in messages

  function DigitChar(d: nat): char
    requires d < 10
  {
    "0123456789"[d]
  }

  /** `str(n)` for a natural number. */
  function NatToString(n: nat): (r: string)
    ensures r != []
    ensures forall i :: 0 <= i < |r| ==> IsAsciiDigit(r[i])
  {
    if n < 10 then [DigitChar(n)] else NatToString(n / 10) + [DigitChar(n % 10)]
  }
}
