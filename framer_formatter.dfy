/** The Framer row: the fixed column set, the per-field formatting of a post
    and the validation report over all rows
    (framer_blog_converter/src/framer_formatter.py). */
module FramerFormatter {
  import opened Wrappers
  import opened Text
  import opened Markup
  import opened Config
  import opened ContentProcessor
  import opened PostData

  /** The twelve columns of a Framer row. */
  datatype Column =
    | Title | Slug | Content | Excerpt | Author | PublishedDate
    | FeaturedImage | Categories | Tags | Status | SeoTitle | SeoDescription

  /** The column's header text. */
  function ColumnName(c: Column): string {
    match c
    case Title => "Title"
    case Slug => "Slug"
    case Content => "Content"
    case Excerpt => "Excerpt"
    case Author => "Author"
    case PublishedDate => "Published Date"
    case FeaturedImage => "Featured Image"
    case Categories => "Categories"
    case Tags => "Tags"
    case Status => "Status"
    case SeoTitle => "SEO Title"
    case SeoDescription => "SEO Description"
  }

  /** REQUIRED_COLUMNS, in output order. */
  const RequiredColumns: seq<Column> := [
    Title, Slug, Content, Excerpt, Author, PublishedDate,
    FeaturedImage, Categories, Tags, Status, SeoTitle, SeoDescription]

  /** The columns as a set. */
  const AllColumns: set<Column> := {
    Title, Slug, Content, Excerpt, Author, PublishedDate,
    FeaturedImage, Categories, Tags, Status, SeoTitle, SeoDescription}

  /** One row of the output, keyed by column. */
  type Row = map<Column, string>

  /** Every column appears in REQUIRED_COLUMNS and in the column set. */
  lemma RequiredColumnsComplete()
    ensures forall c: Column :: c in RequiredColumns && c in AllColumns
  {
    forall c: Column
      ensures c in RequiredColumns && c in AllColumns
    {
      match c
      case Title => assert RequiredColumns[0] == c;
      case Slug => assert RequiredColumns[1] == c;
      case Content => assert RequiredColumns[2] == c;
      case Excerpt => assert RequiredColumns[3] == c;
      case Author => assert RequiredColumns[4] == c;
      case PublishedDate => assert RequiredColumns[5] == c;
      case FeaturedImage => assert RequiredColumns[6] == c;
      case Categories => assert RequiredColumns[7] == c;
      case Tags => assert RequiredColumns[8] == c;
      case Status => assert RequiredColumns[9] == c;
      case SeoTitle => assert RequiredColumns[10] == c;
      case SeoDescription => assert RequiredColumns[11] == c;
    }
  }

  /** The twelve columns are listed once each, under distinct headers. */
  lemma RequiredColumnsDistinct()
    ensures |RequiredColumns| == 12
    ensures forall i, j :: 0 <= i < j < |RequiredColumns| ==> RequiredColumns[i] != RequiredColumns[j]
    ensures forall c, d :: ColumnName(c) == ColumnName(d) ==> c == d
  {
  }

  // ---------------------------------------------------------------------------
  // Field helpers

  /** `_format_title`: "Untitled Post" for an empty title; otherwise the angle
      brackets are escaped and whitespace collapsed. A title of whitespace only
      is not empty, so it comes out as "". */
  function FormatTitle(title: string): (r: string)
    ensures title == "" ==> r == "Untitled Post"
    ensures '<' !in r && '>' !in r
    ensures title != "" ==> Collapsed(r)
  {
    if title == "" then "Untitled Post"
    else
      var lt := Replace(title, "<", "&lt;");
      var escaped := Replace(lt, ">", "&gt;");
      ReplaceRemovesChar(title, '<', "&lt;");
      ReplaceRemovesChar(lt, '>', "&gt;");
      ReplaceKeepsAbsent(lt, ">", "&gt;", '<');
      CollapseAbsent(escaped, '<');
      CollapseAbsent(escaped, '>');
      StripUnchanged(CollapseWhitespace(escaped));
      Strip(CollapseWhitespace(escaped))
  }

  /** A title that is already collapsed and free of angle brackets is kept as it is. */
  lemma FormatTitleKeepsPlain(title: string)
    requires title != "" && Collapsed(title) && '<' !in title && '>' !in title
    ensures FormatTitle(title) == title
  {
    ContainedCharsOccur(title, "<");
    ReplaceAbsent(title, "<", "&lt;");
    ContainedCharsOccur(title, ">");
    ReplaceAbsent(title, ">", "&gt;");
    CollapseCollapsed(title);
    StripUnchanged(title);
  }

  /** Formatting a formatted title again changes nothing, unless the first pass
      emptied it (a title of whitespace only). */
  lemma FormatTitleIdempotent(title: string)
    requires FormatTitle(title) != ""
    ensures FormatTitle(FormatTitle(title)) == FormatTitle(title)
  {
    var r := FormatTitle(title);
    if title == "" {
      assert r == "Untitled Post";
      assert Collapsed(r) by {
        JoinWordsCollapsed(["Untitled", "Post"]);
        assert JoinWith(" ", ["Untitled", "Post"]) == r;
      }
    }
    FormatTitleKeepsPlain(r);
  }

  /** `_format_image_url`: "" stays ""; otherwise the URL is trimmed and a
      protocol-relative one gets "https:" in front. */
  function FormatImageUrl(imageUrl: string): (r: string)
    ensures Stripped(r)
    ensures !StartsWith(r, "//")
    ensures Strip(imageUrl) == "" <==> r == ""
    ensures !StartsWith(Strip(imageUrl), "//") ==> r == Strip(imageUrl)
    ensures StartsWith(Strip(imageUrl), "//") ==> r == "https:" + Strip(imageUrl)
  {
    if imageUrl == "" then ""
    else
      var u := Strip(imageUrl);
      if StartsWith(u, "//") then
        var r := "https:" + u;
        assert r[|r| - 1] == u[|u| - 1];
        assert r[0] == 'h';
        r
      else u
  }

  /** A formatted image URL is its own format. */
  lemma FormatImageUrlIdempotent(imageUrl: string)
    ensures FormatImageUrl(FormatImageUrl(imageUrl)) == FormatImageUrl(imageUrl)
  {
    StripUnchanged(FormatImageUrl(imageUrl));
  }

  // ---------------------------------------------------------------------------
  // Excerpts

  /** The loop of `_generate_excerpt`: sentences are appended, each with its
      '.', while the total stays within `maxLength`; the first that does not
      fit ends it. */
  function Accumulate(acc: string, sentences: seq<string>, maxLength: int): (r: string)
    ensures acc <= r
    ensures |acc| <= maxLength ==> |r| <= maxLength
    decreases |sentences|
  {
    if sentences == [] then acc
    else if |acc + sentences[0] + "."| <= maxLength then
      Accumulate(acc + sentences[0] + ".", sentences[1..], maxLength)
    else acc
  }

  /** The accumulated text never exceeds the bound it started within. */
  lemma {:induction false} AccumulateBound(acc: string, sentences: seq<string>, maxLength: int)
    requires |acc| <= maxLength
    ensures |Accumulate(acc, sentences, maxLength)| <= maxLength
    decreases |sentences|
  {
    if sentences != [] && |acc + sentences[0] + "."| <= maxLength {
      AccumulateBound(acc + sentences[0] + ".", sentences[1..], maxLength);
    }
  }

  /** The accumulated text is a prefix of the sentences put back together with
      a final '.'. */
  lemma {:induction false} AccumulatePrefix(acc: string, sentences: seq<string>, maxLength: int)
    requires sentences != []
    ensures var r := Accumulate(acc, sentences, maxLength);
      |r| <= |acc + JoinWith(".", sentences) + "."| && r == (acc + JoinWith(".", sentences) + ".")[..|r|]
    decreases |sentences|
  {
    var whole := acc + JoinWith(".", sentences) + ".";
    if |acc + sentences[0] + "."| <= maxLength {
      var next := acc + sentences[0] + ".";
      if |sentences| == 1 {
        assert Accumulate(next, sentences[1..], maxLength) == next == whole;
      } else {
        AccumulatePrefix(next, sentences[1..], maxLength);
        assert next + JoinWith(".", sentences[1..]) + "." == whole;
      }
    } else {
      assert whole[..|acc|] == acc;
    }
  }

  /** `_generate_excerpt`: tags are removed, whole sentences are kept while
      they fit, and when not even the first fits the text is cut to
      `maxLength - 3` characters and "..." appended. */
  function ExcerptOf(content: string, maxLength: int): (r: string)
    ensures maxLength >= 3 ==> |r| <= maxLength
  {
    var clean := RemoveTags(content);
    var acc := Accumulate("", SplitOn(clean, '.'), maxLength);
    if acc != "" then
      AccumulateBound("", SplitOn(clean, '.'), maxLength);
      Strip(acc)
    else
      Strip(TakePy(clean, maxLength - 3) + "...")
  }

  /** When some sentences fit, the excerpt is a prefix of the tag-free text
      (with a final '.'), trimmed. */
  lemma ExcerptFromSentences(content: string, maxLength: int)
    requires Accumulate("", SplitOn(RemoveTags(content), '.'), maxLength) != ""
    ensures var clean := RemoveTags(content);
      var acc := Accumulate("", SplitOn(clean, '.'), maxLength);
      ExcerptOf(content, maxLength) == Strip(acc)
      && |acc| <= |clean| + 1 && acc == (clean + ".")[..|acc|]
  {
    var clean := RemoveTags(content);
    AccumulatePrefix("", SplitOn(clean, '.'), maxLength);
    JoinSplitOn(clean, '.');
    assert "" + JoinWith(".", SplitOn(clean, '.')) + "." == clean + ".";
  }

  method GenerateExcerpt(content: string, maxLength: int) returns (r: string)
    ensures r == ExcerptOf(content, maxLength)
  {
    var clean := RemoveTags(content);
    var sentences := SplitOn(clean, '.');
    var excerpt := "";
    var i := 0;
    while i < |sentences|
      invariant 0 <= i <= |sentences|
      invariant Accumulate(excerpt, sentences[i..], maxLength) == Accumulate("", sentences, maxLength)
    {
      assert sentences[i..][0] == sentences[i] && sentences[i..][1..] == sentences[i + 1..];
      if |excerpt + sentences[i] + "."| <= maxLength {
        excerpt := excerpt + sentences[i] + ".";
      } else {
        break;
      }
      i := i + 1;
    }
    assert excerpt == Accumulate("", sentences, maxLength);
    if excerpt == "" {
      excerpt := TakePy(clean, maxLength - 3) + "...";
    }
    r := Strip(excerpt);
  }

  // ---------------------------------------------------------------------------
  // The row

  /** The slug rule of `format_blog_post`: the post's own slug when non-empty,
      else a generated one when slugs are generated, else "". */
  function RowSlug(config: ConverterConfig, post: Record, title: string): (r: string)
    ensures GetStr(post, "slug") != "" ==> r == GetStr(post, "slug")
    ensures GetStr(post, "slug") == "" && config.generateSlugs ==>
      IsSlug(r) && (config.slugMaxLength >= 0 ==> |r| <= config.slugMaxLength)
    ensures GetStr(post, "slug") == "" && !config.generateSlugs ==> r == ""
  {
    var slug := GetStr(post, "slug");
    if slug == "" && config.generateSlugs then GenerateSlug(title, config.slugMaxLength) else slug
  }

  /** The Excerpt cell: the post's excerpt, or one generated from the
      processed content when the post has none, processed as an excerpt. */
  function RowExcerpt(config: ConverterConfig, codec: HtmlCodec, post: Record, content: string): (r: string)
    ensures |r| <= 300
    ensures GetStr(post, "excerpt") == "" && content != "" ==>
      r == ProcessContent(config, codec, ExcerptOf(content, 300), "excerpt")
    ensures GetStr(post, "excerpt") == "" && content == "" ==> r == ""
  {
    var source := if GetStr(post, "excerpt") == "" && content != "" then ExcerptOf(content, 300) else GetStr(post, "excerpt");
    ProcessContent(config, codec, source, "excerpt")
  }

  /** The SEO Title cell: the post's SEO title, else the formatted title,
      processed as a title. */
  function RowSeoTitle(config: ConverterConfig, codec: HtmlCodec, post: Record, title: string): (r: string)
    ensures Stripped(r) && forall c :: c in r ==> IsTitleChar(c)
    ensures GetStr(post, "seo_title") == "" ==> r == ProcessContent(config, codec, title, "title")
  {
    var source := if GetStr(post, "seo_title") == "" then title else GetStr(post, "seo_title");
    ProcessContent(config, codec, source, "title")
  }

  /** The SEO Description cell: the post's SEO description, else the Excerpt
      cell, processed as an excerpt. */
  function RowSeoDescription(config: ConverterConfig, codec: HtmlCodec, post: Record, excerpt: string): (r: string)
    ensures |r| <= 300
    ensures GetStr(post, "seo_description") == "" ==> r == ProcessContent(config, codec, excerpt, "excerpt")
  {
    var source := if GetStr(post, "seo_description") == "" then excerpt else GetStr(post, "seo_description");
    ProcessContent(config, codec, source, "excerpt")
  }

  /** The dictionary `format_blog_post` returns, one field per column. */
  datatype FramerRow = FramerRow(
    title: string, slug: string, content: string, excerpt: string,
    author: string, publishedDate: string, featuredImage: string,
    categories: string, tags: string, status: string,
    seoTitle: string, seoDescription: string)
  {
    /** The cell under column `c`. */
    function Cell(c: Column): string {
      match c
      case Title => title
      case Slug => slug
      case Content => content
      case Excerpt => excerpt
      case Author => author
      case PublishedDate => publishedDate
      case FeaturedImage => featuredImage
      case Categories => categories
      case Tags => tags
      case Status => status
      case SeoTitle => seoTitle
      case SeoDescription => seoDescription
    }

    /** The row as a dictionary keyed by column: every column is present. */
    function AsRow(): (r: Row)
      ensures r.Keys == AllColumns
      ensures forall c :: c in r ==> r[c] == Cell(c)
    {
      map c | c in AllColumns :: Cell(c)
    }
  }

  /** `format_blog_post`. `formatDate` stands for `_format_date`, which reads
      the clock and a date-parsing library. */
  function FormattedRow(config: ConverterConfig, codec: HtmlCodec,
                        formatDate: (string, seq<string>) -> string, post: Record): (r: FramerRow)
    ensures '<' !in r.title && '>' !in r.title
    ensures GetStr(post, "title") == "" ==> r.title == "Untitled Post"
    ensures |r.excerpt| <= 300 && |r.seoDescription| <= 300
    ensures Stripped(r.seoTitle)
    ensures r.status == "Draft" || r.status in GetVocabulary(post, "status_mapping").Values
  {
    var title := FormatTitle(GetStr(post, "title"));
    var content := ProcessContent(config, codec, GetStr(post, "content"), "content");
    var excerpt := RowExcerpt(config, codec, post, content);
    FramerRow(
      title,
      RowSlug(config, post, title),
      content,
      excerpt,
      ProcessAuthor(GetStr(post, "author")),
      formatDate(GetStr(post, "date"), GetList(post, "date_formats")),
      FormatImageUrl(GetStr(post, "featured_image")),
      JoinWith(", ", FirstOccurrences(GetList(post, "categories"), CleanCategory)),
      JoinWith(", ", FirstOccurrences(GetList(post, "tags"), CleanTag)),
      ProcessStatus(GetStr(post, "status"), GetVocabulary(post, "status_mapping")),
      RowSeoTitle(config, codec, post, title),
      RowSeoDescription(config, codec, post, excerpt))
  }

  /** What the row promises, column by column: an escaped title ("Untitled
      Post" when there is none), the slug rule, excerpts of at most 300
      characters, the SEO fallbacks, and a status from the vocabulary. */
  lemma FormattedRowCells(config: ConverterConfig, codec: HtmlCodec,
                          formatDate: (string, seq<string>) -> string, post: Record)
    ensures var r := FormattedRow(config, codec, formatDate, post);
      && '<' !in r.title && '>' !in r.title
      && (GetStr(post, "title") == "" ==> r.title == "Untitled Post")
      && r.slug == RowSlug(config, post, r.title)
      && r.content == ProcessContent(config, codec, GetStr(post, "content"), "content")
      && |r.excerpt| <= 300 && |r.seoDescription| <= 300
      && (GetStr(post, "excerpt") == "" && r.content != "" ==>
            r.excerpt == ProcessContent(config, codec, ExcerptOf(r.content, 300), "excerpt"))
      && (GetStr(post, "seo_title") == "" ==> r.seoTitle == ProcessContent(config, codec, r.title, "title"))
      && Stripped(r.seoTitle)
      && (GetStr(post, "seo_description") == "" ==>
            r.seoDescription == ProcessContent(config, codec, r.excerpt, "excerpt"))
      && (r.status == "Draft" || r.status in GetVocabulary(post, "status_mapping").Values)
      && r.publishedDate == formatDate(GetStr(post, "date"), GetList(post, "date_formats"))
  {
  }

  /** The Excerpt cell, generating an excerpt from the content when the post has none. */
  method ExcerptCell(config: ConverterConfig, codec: HtmlCodec, post: Record, content: string) returns (r: string)
    ensures r == RowExcerpt(config, codec, post, content)
  {
    var excerpt := GetStr(post, "excerpt");
    if excerpt == "" && content != "" {
      excerpt := GenerateExcerpt(content, 300);
    }
    r := ProcessContent(config, codec, excerpt, "excerpt");
  }

  /** `format_blog_post`: computes the cells one column at a time. */
  method FormatBlogPost(config: ConverterConfig, codec: HtmlCodec,
                        formatDate: (string, seq<string>) -> string, post: Record) returns (row: FramerRow)
    ensures row == FormattedRow(config, codec, formatDate, post)
  {
    var title := FormatTitle(GetStr(post, "title"));
    var content := ProcessContent(config, codec, GetStr(post, "content"), "content");
    var excerpt := ExcerptCell(config, codec, post, content);
    var categories := NormalizeCategories(GetList(post, "categories"));
    var tags := NormalizeTags(GetList(post, "tags"));
    row := FramerRow(
      title,
      RowSlug(config, post, title),
      content,
      excerpt,
      ProcessAuthor(GetStr(post, "author")),
      formatDate(GetStr(post, "date"), GetList(post, "date_formats")),
      FormatImageUrl(GetStr(post, "featured_image")),
      categories,
      tags,
      ProcessStatus(GetStr(post, "status"), GetVocabulary(post, "status_mapping")),
      RowSeoTitle(config, codec, post, title),
      RowSeoDescription(config, codec, post, excerpt));
  }

  // ---------------------------------------------------------------------------
  // Validation

  datatype Stats = Stats(
    totalPosts: nat, publishedPosts: nat, draftPosts: nat,
    postsWithImages: nat, postsWithCategories: nat, postsWithTags: nat)

  /** The dictionary `validate_csv_data` returns. */
  datatype CsvReport = CsvReport(valid: bool, errors: seq<string>, warnings: seq<string>, stats: Stats)

  /** `post.get(column, "")`. */
  function Cell(row: Row, column: Column): string {
    if column in row then row[column] else ""
  }

  /** The error for a missing column of the row numbered `postNum` (from 1). */
  function MissingFieldError(postNum: nat, column: Column): string {
    "Post " + NatToString(postNum) + ": Missing required field '" + ColumnName(column) + "'"
  }

  /** The errors for one row: one per missing column, in column order. */
  function MissingFieldErrors(row: Row, postNum: nat, columns: seq<Column>): (r: seq<string>)
    ensures |r| <= |columns|
    ensures r == [] <==> forall k :: 0 <= k < |columns| ==> columns[k] in row
    decreases |columns|
  {
    if columns == [] then []
    else
      var last := columns[|columns| - 1];
      var prev := MissingFieldErrors(row, postNum, columns[..|columns| - 1]);
      assert forall k :: 0 <= k < |columns| - 1 ==> columns[..|columns| - 1][k] == columns[k];
      if last !in row then prev + [MissingFieldError(postNum, last)] else prev
  }

  /** The length warnings for one row: content, then title, then excerpt. */
  function RowWarnings(row: Row, postNum: nat): (r: seq<string>)
    ensures |r| <= 3
  {
    var n := "Post " + NatToString(postNum);
    var content := Cell(row, Content);
    var title := Cell(row, Title);
    var excerpt := Cell(row, Excerpt);
    (if |content| > 100000 then [n + ": Content is very long (" + NatToString(|content|) + " characters)"] else [])
    + (if |title| > 200 then [n + ": Title is very long (" + NatToString(|title|) + " characters)"] else [])
    + (if |excerpt| > 500 then [n + ": Excerpt is very long (" + NatToString(|excerpt|) + " characters)"] else [])
  }

  function ErrorsOf(posts: seq<Row>): seq<string>
    decreases |posts|
  {
    if posts == [] then []
    else ErrorsOf(posts[..|posts| - 1]) + MissingFieldErrors(posts[|posts| - 1], |posts|, RequiredColumns)
  }

  function WarningsOf(posts: seq<Row>): seq<string>
    decreases |posts|
  {
    if posts == [] then []
    else WarningsOf(posts[..|posts| - 1]) + RowWarnings(posts[|posts| - 1], |posts|)
  }

  /** The number of rows satisfying `p`. */
  function CountWhere(posts: seq<Row>, p: Row -> bool): (r: nat)
    ensures r <= |posts|
    decreases |posts|
  {
    if posts == [] then 0
    else CountWhere(posts[..|posts| - 1], p) + (if p(posts[|posts| - 1]) then 1 else 0)
  }

  predicate IsPublished(row: Row) { Status in row && row[Status] == "Published" }
  predicate IsDraft(row: Row) { !IsPublished(row) }
  predicate HasImage(row: Row) { Cell(row, FeaturedImage) != "" }
  predicate HasCategories(row: Row) { Cell(row, Categories) != "" }
  predicate HasTags(row: Row) { Cell(row, Tags) != "" }

  /** What `validate_csv_data` reports: for no rows, the single error "No posts
      to validate"; otherwise the per-row errors and warnings in row order, the
      verdict "no errors", and the counters. */
  function CsvReportOf(posts: seq<Row>): (r: CsvReport)
    ensures r.valid <==> posts != [] && forall i :: 0 <= i < |posts| ==> HasAllColumns(posts[i])
    ensures r.stats.totalPosts == |posts|
    ensures r.stats.publishedPosts + r.stats.draftPosts == |posts|
  {
    ErrorsOfEmpty(posts);
    CountsAddUp(posts);
    if posts == [] then CsvReport(false, ["No posts to validate"], [], Stats(0, 0, 0, 0, 0, 0))
    else
      CsvReport(ErrorsOf(posts) == [], ErrorsOf(posts), WarningsOf(posts),
        Stats(|posts|, CountWhere(posts, IsPublished), CountWhere(posts, IsDraft),
          CountWhere(posts, HasImage), CountWhere(posts, HasCategories), CountWhere(posts, HasTags)))
  }

  /** The inner loop of `validate_csv_data`: one error per missing column. */
  method RowErrors(post: Row, postNum: nat) returns (rowErrors: seq<string>)
    ensures rowErrors == MissingFieldErrors(post, postNum, RequiredColumns)
  {
    rowErrors := [];
    var j := 0;
    while j < |RequiredColumns|
      invariant 0 <= j <= |RequiredColumns|
      invariant rowErrors == MissingFieldErrors(post, postNum, RequiredColumns[..j])
    {
      assert RequiredColumns[..j + 1][..j] == RequiredColumns[..j];
      var field := RequiredColumns[j];
      if field !in post {
        rowErrors := rowErrors + [MissingFieldError(postNum, field)];
      }
      j := j + 1;
    }
    assert RequiredColumns[..j] == RequiredColumns;
  }

  /** The report's pieces over one more row. */
  lemma ReportSnoc(posts: seq<Row>, i: nat)
    requires i < |posts|
    ensures var prefix := posts[..i + 1];
      && ErrorsOf(prefix) == ErrorsOf(posts[..i]) + MissingFieldErrors(posts[i], i + 1, RequiredColumns)
      && WarningsOf(prefix) == WarningsOf(posts[..i]) + RowWarnings(posts[i], i + 1)
  {
    assert posts[..i + 1][..i] == posts[..i];
  }

  /** A counter over one more row. */
  lemma CountSnoc(posts: seq<Row>, i: nat, p: Row -> bool)
    requires i < |posts|
    ensures CountWhere(posts[..i + 1], p) == CountWhere(posts[..i], p) + if p(posts[i]) then 1 else 0
  {
    assert posts[..i + 1][..i] == posts[..i];
  }

  /** The status counters read the `Status` cell, a missing one counting as a draft. */
  lemma StatusCell(row: Row)
    ensures IsPublished(row) == (Cell(row, Status) == "Published")
    ensures IsDraft(row) == (Cell(row, Status) != "Published")
  {
  }

  /** `validate_csv_data`. */
  method ValidateCsvData(posts: seq<Row>) returns (report: CsvReport)
    ensures report == CsvReportOf(posts)
  {
    var valid := true;
    var errors: seq<string> := [];
    var warnings: seq<string> := [];
    var published, draft, images, categories, tags := 0, 0, 0, 0, 0;
    if posts == [] {
      errors := errors + ["No posts to validate"];
      valid := false;
      return CsvReport(valid, errors, warnings, Stats(|posts|, published, draft, images, categories, tags));
    }
    var i := 0;
    while i < |posts|
      invariant 0 <= i <= |posts|
      invariant errors == ErrorsOf(posts[..i])
      invariant valid == (errors == [])
      invariant warnings == WarningsOf(posts[..i])
      invariant published == CountWhere(posts[..i], IsPublished) && draft == CountWhere(posts[..i], IsDraft)
      invariant images == CountWhere(posts[..i], HasImage)
      invariant categories == CountWhere(posts[..i], HasCategories) && tags == CountWhere(posts[..i], HasTags)
    {
      var post := posts[i];
      ReportSnoc(posts, i);
      CountSnoc(posts, i, IsPublished);
      CountSnoc(posts, i, IsDraft);
      CountSnoc(posts, i, HasImage);
      CountSnoc(posts, i, HasCategories);
      CountSnoc(posts, i, HasTags);
      StatusCell(post);
      var rowErrors := RowErrors(post, i + 1);
      if rowErrors != [] {
        valid := false;
      }
      assert errors + rowErrors == ErrorsOf(posts[..i + 1]);
      errors := errors + rowErrors;
      warnings := warnings + RowWarnings(post, i + 1);
      if Cell(post, Status) == "Published" {
        published := published + 1;
      } else {
        draft := draft + 1;
      }
      if HasImage(post) {
        images := images + 1;
      }
      if HasCategories(post) {
        categories := categories + 1;
      }
      if HasTags(post) {
        tags := tags + 1;
      }
      i := i + 1;
    }
    assert posts[..i] == posts;
    report := CsvReport(valid, errors, warnings, Stats(|posts|, published, draft, images, categories, tags));
  }

  /** Every row is either published or a draft. */
  lemma {:induction false} CountsAddUp(posts: seq<Row>)
    ensures CountWhere(posts, IsPublished) + CountWhere(posts, IsDraft) == |posts|
    decreases |posts|
  {
    if posts != [] {
      CountsAddUp(posts[..|posts| - 1]);
    }
  }

  /** The published and draft counters add up to the total. */
  lemma ReportCountsAddUp(posts: seq<Row>)
    ensures var s := CsvReportOf(posts).stats;
      s.publishedPosts + s.draftPosts == s.totalPosts == |posts|
  {
    CountsAddUp(posts);
  }

  /** The row has a cell under every column. */
  predicate HasAllColumns(row: Row) {
    forall c: Column :: c in row
  }

  /** A row yields no missing-field errors exactly when it has every column. */
  lemma MissingFieldErrorsEmpty(row: Row, postNum: nat)
    ensures MissingFieldErrors(row, postNum, RequiredColumns) == [] <==> HasAllColumns(row)
  {
    RequiredColumnsComplete();
    if MissingFieldErrors(row, postNum, RequiredColumns) == [] {
      forall c: Column
        ensures c in row
      {
        var k :| 0 <= k < |RequiredColumns| && RequiredColumns[k] == c;
      }
    }
  }

  /** There are errors exactly when some row lacks some column. */
  lemma {:induction false} ErrorsOfEmpty(posts: seq<Row>)
    ensures ErrorsOf(posts) == [] <==> forall i :: 0 <= i < |posts| ==> HasAllColumns(posts[i])
    decreases |posts|
  {
    if posts != [] {
      var init := posts[..|posts| - 1];
      ErrorsOfEmpty(init);
      MissingFieldErrorsEmpty(posts[|posts| - 1], |posts|);
      assert forall i :: 0 <= i < |init| ==> init[i] == posts[i];
    }
  }

  /** A non-empty list of rows is valid exactly when every row has every
      column; lengths, which only raise warnings, play no part. */
  lemma ValidIffComplete(posts: seq<Row>)
    requires posts != []
    ensures CsvReportOf(posts).valid <==> forall i :: 0 <= i < |posts| ==> HasAllColumns(posts[i])
  {
    ErrorsOfEmpty(posts);
  }

  /** Rows with the same columns get the same verdict, whatever their cells hold. */
  lemma ValidityIgnoresCells(posts: seq<Row>, others: seq<Row>)
    requires |posts| == |others|
    requires forall i :: 0 <= i < |posts| ==> posts[i].Keys == others[i].Keys
    ensures CsvReportOf(posts).valid == CsvReportOf(others).valid
  {
    if posts != [] {
      ValidIffComplete(posts);
      ValidIffComplete(others);
    }
  }

  /** The report for no rows. */
  lemma EmptyReport()
    ensures CsvReportOf([]) == CsvReport(false, ["No posts to validate"], [], Stats(0, 0, 0, 0, 0, 0))
  {
  }

  /** Rows made by `format_blog_post` always pass validation. */
  lemma FormattedRowsValid(rows: seq<FramerRow>, posts: seq<Row>)
    requires rows != [] && |posts| == |rows|
    requires forall i :: 0 <= i < |rows| ==> posts[i] == rows[i].AsRow()
    ensures CsvReportOf(posts).valid
  {
    RequiredColumnsComplete();
    ValidIffComplete(posts);
  }
}
