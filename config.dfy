/** Platform mappings, converter settings and the registry that holds the
    mappings by name (framer_blog_converter/src/config.py). */
module Config {
  import opened Wrappers
  import opened Text

  /** One platform's declarative description: the element that delimits a post,
      the path of each canonical field, the date formats to try, the status
      vocabulary, and the optional list-valued taxonomy paths. */
  datatype PlatformMapping = PlatformMapping(
    name: string,
    description: string,
    itemTag: string,
    fieldMappings: map<string, string>,
    dateFormats: seq<string>,
    statusMapping: map<string, string>,
    contentField: string,
    excerptField: Option<string>,
    authorField: Option<string>,
    dateField: Option<string>,
    imageField: Option<string>,
    categoryField: Option<string>,
    tagField: Option<string>)

  /** The converter's settings (`ConverterConfig`). */
  datatype ConverterConfig = ConverterConfig(
    outputEncoding: string,
    preserveHtml: bool,
    stripHtmlTags: seq<string>,
    maxContentLength: Option<int>,
    generateSlugs: bool,
    slugMaxLength: int,
    handleCdata: bool,
    validateUrls: bool,
    downloadImages: bool,
    imageDownloadPath: Option<string>)

  /** `ConverterConfig()` with every field at its declared default. */
  const DefaultConverterConfig: ConverterConfig :=
    ConverterConfig("utf-8", true, [], None, true, 60, true, false, false, None)

  lemma DefaultConverterConfigValues()
    ensures DefaultConverterConfig.preserveHtml && DefaultConverterConfig.generateSlugs
    ensures DefaultConverterConfig.slugMaxLength == 60 && DefaultConverterConfig.handleCdata
    ensures DefaultConverterConfig.maxContentLength == None
    ensures !DefaultConverterConfig.validateUrls && !DefaultConverterConfig.downloadImages
  {
  }

  // ---------------------------------------------------------------------------
  // The three built-in platforms (DEFAULT_PLATFORMS)

  const WordPress: PlatformMapping := PlatformMapping(
    "WordPress",
    "WordPress XML export format",
    "item",
    map[
      "title" := "title",
      "content" := "{http://purl.org/rss/1.0/modules/content/}encoded",
      "excerpt" := "{http://wordpress.org/export/1.2/excerpt/}encoded",
      "author" := "{http://purl.org/dc/elements/1.1/}creator",
      "date" := "pubDate",
      "status" := "{http://wordpress.org/export/1.2/}status",
      "categories" := "category",
      "tags" := "post_tag",
      "featured_image" := "{http://wordpress.org/export/1.2/}attachment_url",
      "slug" := "{http://wordpress.org/export/1.2/}post_name",
      "seo_title" := "yoast_wpseo_title",
      "seo_description" := "yoast_wpseo_metadesc"],
    ["%a, %d %b %Y %H:%M:%S %z", "%Y-%m-%d %H:%M:%S"],
    map["publish" := "Published", "draft" := "Draft", "private" := "Draft", "pending" := "Draft"],
    "{http://purl.org/rss/1.0/modules/content/}encoded",
    Some("{http://wordpress.org/export/1.2/excerpt/}encoded"),
    Some("{http://purl.org/dc/elements/1.1/}creator"),
    Some("pubDate"),
    Some("{http://wordpress.org/export/1.2/}attachment_url"),
    Some("category"),
    Some("post_tag"))

  const Ghost: PlatformMapping := PlatformMapping(
    "Ghost",
    "Ghost JSON export format (converted to XML)",
    "post",
    map[
      "title" := "title",
      "content" := "html",
      "excerpt" := "excerpt",
      "author" := "author",
      "date" := "published_at",
      "status" := "status",
      "tags" := "tags",
      "slug" := "slug",
      "featured_image" := "feature_image"],
    ["%Y-%m-%dT%H:%M:%S.%fZ", "%Y-%m-%d %H:%M:%S"],
    map["published" := "Published", "draft" := "Draft"],
    "html",
    Some("excerpt"),
    Some("author"),
    Some("published_at"),
    Some("feature_image"),
    None,
    Some("tags"))

  const Jekyll: PlatformMapping := PlatformMapping(
    "Jekyll",
    "Jekyll front matter and markdown",
    "post",
    map[
      "title" := "title",
      "content" := "content",
      "excerpt" := "excerpt",
      "author" := "author",
      "date" := "date",
      "categories" := "categories",
      "tags" := "tags",
      "slug" := "slug",
      "featured_image" := "image"],
    ["%Y-%m-%d", "%Y-%m-%d %H:%M:%S"],
    map["published" := "Published", "draft" := "Draft"],
    "content",
    Some("excerpt"),
    Some("author"),
    Some("date"),
    Some("image"),
    Some("categories"),
    Some("tags"))

  /** DEFAULT_PLATFORMS, in its declaration order. */
  const DefaultPlatforms: seq<(string, PlatformMapping)> :=
    [("wordpress", WordPress), ("ghost", Ghost), ("jekyll", Jekyll)]

  /** Every built-in status vocabulary maps onto the two canonical statuses. */
  lemma DefaultStatusValuesCanonical()
    ensures forall i, v :: 0 <= i < |DefaultPlatforms| && v in DefaultPlatforms[i].1.statusMapping.Values ==>
      v == "Published" || v == "Draft"
  {
    forall i, v | 0 <= i < |DefaultPlatforms| && v in DefaultPlatforms[i].1.statusMapping.Values
      ensures v == "Published" || v == "Draft"
    {
      var vocabulary := DefaultPlatforms[i].1.statusMapping;
      var k :| k in vocabulary && vocabulary[k] == v;
    }
  }

  /** WordPress's vocabulary: only "publish" is published. */
  lemma WordPressStatusVocabulary()
    ensures WordPress.statusMapping.Keys == {"publish", "draft", "private", "pending"}
    ensures WordPress.statusMapping["publish"] == "Published"
    ensures forall k :: k in WordPress.statusMapping && k != "publish" ==> WordPress.statusMapping[k] == "Draft"
  {
  }

  /** The built-in record tags: "item" for WordPress, "post" for Ghost and Jekyll. */
  lemma DefaultItemTags()
    ensures forall i :: 0 <= i < |DefaultPlatforms| ==> DefaultPlatforms[i].1.itemTag != ""
    ensures WordPress.itemTag == "item" && Ghost.itemTag == "post" && Jekyll.itemTag == "post"
    ensures forall i :: 0 <= i < |DefaultPlatforms| ==> DefaultPlatforms[i].0 == ToLower(DefaultPlatforms[i].0)
  {
  }

  // ---------------------------------------------------------------------------
  // The registry (ConfigManager)

  /** A `*.json` file of the templates directory: its stem, and the mapping it
      holds, or None when reading or validating it failed. */
  datatype TemplateFile = TemplateFile(stem: string, parsed: Option<PlatformMapping>)

  /** The registry after loading `files` in order: each readable file is stored
      under its stem as written (not lower-cased); unreadable ones are skipped. */
  function LoadedTemplates(m: map<string, PlatformMapping>, files: seq<TemplateFile>): (r: map<string, PlatformMapping>)
    ensures r.Keys == m.Keys + Stems(files)
    ensures forall i :: 0 <= i < |files| && files[i].parsed.Some? && LastLoaded(files, i) ==>
      r[files[i].stem] == files[i].parsed.value
    ensures forall k :: k in m && !LoadsStem(files, k) ==> r[k] == m[k]
    decreases |files|
  {
    if files == [] then m
    else
      var init := files[..|files| - 1];
      var prev := LoadedTemplates(m, init);
      var f := files[|files| - 1];
      var r := if f.parsed.Some? then prev[f.stem := f.parsed.value] else prev;
      LoadedSnoc(m, files, prev, r);
      r
  }

  /** The three facts of `LoadedTemplates` carry over from the files before
      the last one to all of them. */
  lemma LoadedSnoc(m: map<string, PlatformMapping>, files: seq<TemplateFile>,
                   prev: map<string, PlatformMapping>, r: map<string, PlatformMapping>)
    requires files != []
    requires var init := files[..|files| - 1];
      && prev.Keys == m.Keys + Stems(init)
      && (forall i :: 0 <= i < |init| && init[i].parsed.Some? && LastLoaded(init, i) ==>
            prev[init[i].stem] == init[i].parsed.value)
      && (forall k :: k in m && !LoadsStem(init, k) ==> prev[k] == m[k])
    requires var f := files[|files| - 1];
      r == if f.parsed.Some? then prev[f.stem := f.parsed.value] else prev
    ensures r.Keys == m.Keys + Stems(files)
    ensures forall i :: 0 <= i < |files| && files[i].parsed.Some? && LastLoaded(files, i) ==>
      r[files[i].stem] == files[i].parsed.value
    ensures forall k :: k in m && !LoadsStem(files, k) ==> r[k] == m[k]
  {
    StemsSnoc(files);
    LoadedSnocLast(files, prev, r);
    LoadedSnocKept(m, files, prev, r);
  }

  /** Each readable file loaded last is found under its stem. */
  lemma LoadedSnocLast(files: seq<TemplateFile>, prev: map<string, PlatformMapping>, r: map<string, PlatformMapping>)
    requires files != []
    requires var init := files[..|files| - 1];
      forall i :: 0 <= i < |init| && init[i].parsed.Some? && LastLoaded(init, i) ==>
        init[i].stem in prev && prev[init[i].stem] == init[i].parsed.value
    requires var f := files[|files| - 1];
      r == if f.parsed.Some? then prev[f.stem := f.parsed.value] else prev
    ensures forall i :: 0 <= i < |files| && files[i].parsed.Some? && LastLoaded(files, i) ==>
      files[i].stem in r && r[files[i].stem] == files[i].parsed.value
  {
    var n := |files| - 1;
    LastLoadedSnoc(files);
    forall i | 0 <= i < |files| && files[i].parsed.Some? && LastLoaded(files, i)
      ensures files[i].stem in r && r[files[i].stem] == files[i].parsed.value
    {
      if i < n {
        assert files[..n][i] == files[i];
      }
    }
  }

  /** An entry no readable file names keeps its value. */
  lemma LoadedSnocKept(m: map<string, PlatformMapping>, files: seq<TemplateFile>,
                       prev: map<string, PlatformMapping>, r: map<string, PlatformMapping>)
    requires files != []
    requires forall k :: k in m && !LoadsStem(files[..|files| - 1], k) ==> k in prev && prev[k] == m[k]
    requires var f := files[|files| - 1];
      r == if f.parsed.Some? then prev[f.stem := f.parsed.value] else prev
    ensures forall k :: k in m && !LoadsStem(files, k) ==> k in r && r[k] == m[k]
  {
    var init := files[..|files| - 1];
    assert forall i :: 0 <= i < |init| ==> init[i] == files[i];
  }

  /** The stems of the readable files. */
  function Stems(files: seq<TemplateFile>): set<string> {
    set i | 0 <= i < |files| && files[i].parsed.Some? :: files[i].stem
  }

  lemma StemsSnoc(files: seq<TemplateFile>)
    requires files != []
    ensures var init := files[..|files| - 1];
      && (forall i :: 0 <= i < |init| ==> init[i] == files[i])
      && Stems(files) == Stems(init) + (if files[|files| - 1].parsed.Some? then {files[|files| - 1].stem} else {})
  {
    var init := files[..|files| - 1];
    assert forall i :: 0 <= i < |init| ==> init[i] == files[i];
  }

  /** A file loaded last among `files` but the final one is loaded last among
      the files before it, and the final file, if readable, has another stem. */
  lemma LastLoadedSnoc(files: seq<TemplateFile>)
    requires files != []
    ensures var n := |files| - 1;
      forall i :: 0 <= i < n && LastLoaded(files, i) ==>
        LastLoaded(files[..n], i) && (files[n].parsed.Some? ==> files[n].stem != files[i].stem)
  {
  }

  /** Some readable file has the stem `k`. */
  predicate LoadsStem(files: seq<TemplateFile>, k: string) {
    exists i :: 0 <= i < |files| && files[i].parsed.Some? && files[i].stem == k
  }

  /** No readable file after the one at `i` has its stem. */
  predicate LastLoaded(files: seq<TemplateFile>, i: nat)
    requires i < |files|
  {
    forall j :: i < j < |files| && files[j].parsed.Some? ==> files[j].stem != files[i].stem
  }

  /** A stem holding an upper-case letter can never be looked up, since lookups
      lower-case the name first. */
  lemma {:induction false} UpperCaseStemUnreachable(name: string, stem: string, i: nat)
    requires i < |stem| && IsAsciiUpper(stem[i])
    ensures ToLower(name) != stem
  {
    if i < |name| {
      assert !IsAsciiUpper(ToLower(name)[i]);
    }
  }

  class ConfigManager {
    /** The registry's keys in insertion order (a Python dict keeps it). */
    var names: seq<string>
    var platforms: map<string, PlatformMapping>
    var config: ConverterConfig

    ghost predicate Valid()
      reads this
    {
      (forall i, j :: 0 <= i < j < |names| ==> names[i] != names[j])
      && (forall k :: k in platforms <==> k in names)
    }

    /** A bare manager knows only the templates found on disk. */
    constructor (files: seq<TemplateFile>)
      ensures Valid()
      ensures config == DefaultConverterConfig
      ensures platforms == LoadedTemplates(map[], files)
    {
      names := [];
      platforms := map[];
      config := DefaultConverterConfig;
      new;
      LoadPlatformTemplates(files);
    }

    /** `self.platforms[key] = p`: a new key goes to the end, an existing one keeps its place. */
    method Put(key: string, p: PlatformMapping)
      requires Valid()
      modifies this
      ensures Valid()
      ensures platforms == old(platforms)[key := p]
      ensures names == if key in old(platforms) then old(names) else old(names) + [key]
      ensures config == old(config)
    {
      if key !in platforms {
        names := names + [key];
      }
      platforms := platforms[key := p];
    }

    /** `_load_platform_templates`. */
    method LoadPlatformTemplates(files: seq<TemplateFile>)
      requires Valid()
      modifies this
      ensures Valid()
      ensures platforms == LoadedTemplates(old(platforms), files)
      ensures config == old(config)
    {
      var i := 0;
      while i < |files|
        invariant 0 <= i <= |files|
        invariant Valid()
        invariant platforms == LoadedTemplates(old(platforms), files[..i])
        invariant config == old(config)
      {
        assert files[..i + 1][..i] == files[..i];
        if files[i].parsed.Some? {
          Put(files[i].stem, files[i].parsed.value);
        }
        i := i + 1;
      }
      assert files[..i] == files;
    }

    /** `get_platform_mapping`: the entry stored under the lower-cased name, if any. */
    function GetPlatformMapping(platformName: string): (r: Option<PlatformMapping>)
      reads this
      ensures r.Some? <==> ToLower(platformName) in platforms
      ensures r.Some? ==> r.value == platforms[ToLower(platformName)]
    {
      if ToLower(platformName) in platforms then Some(platforms[ToLower(platformName)]) else None
    }

    /** `list_platforms`: every key once, in insertion order. */
    function ListPlatforms(): (r: seq<string>)
      reads this
      requires Valid()
      ensures forall k :: k in r <==> k in platforms
      ensures forall i, j :: 0 <= i < j < |r| ==> r[i] != r[j]
    {
      names
    }

    /** `add_custom_mapping`: stores under the lower-cased name, replacing only
        that entry; any casing of the name then finds it. */
    method AddCustomMapping(name: string, mapping: PlatformMapping)
      requires Valid()
      modifies this
      ensures Valid()
      ensures platforms == old(platforms)[ToLower(name) := mapping]
      ensures forall other :: ToLower(other) == ToLower(name) ==> GetPlatformMapping(other) == Some(mapping)
      ensures forall other :: ToLower(other) != ToLower(name) ==> GetPlatformMapping(other) == old(GetPlatformMapping(other))
      ensures config == old(config)
    {
      Put(ToLower(name), mapping);
    }
  }
}
