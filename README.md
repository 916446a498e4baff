# Framer blog converter, modelled in Dafny

This project models the core of the Framer blog converter: the pipeline that
turns a blog export (WordPress, Ghost, Jekyll or a custom platform, as XML)
into the rows of a Framer CMS CSV file, and three stand-alone scripts that
repair broken exports before conversion.

The pieces, one module per source file:

- `Config` (`config.dfy`): platform mappings, the converter settings and their
  defaults, the three built-in platforms, and the `ConfigManager` registry.
  The registry is a class holding a map of platforms: a template file is
  stored under its file stem as written, a custom mapping under its
  lower-cased name, and lookups lower-case the name they are given.
- `BlogConverter` (`blog_converter.dfy`): the three forms of field path
  (`{uri}local`, `prefix:local` and a bare tag), the multi-valued
  extractor, record assembly and its drop rule, and the item stream as a
  filter-map. It also holds platform detection, and a `Converter` class
  whose `LoadPlatformTemplate` and `Convert` update the current platform.
- `ContentProcessor` (`content_processor.dfy`): CDATA unwrapping, entity
  decoding, tag stripping, titles, excerpts, authors, slugs, category and tag
  de-duplication, status mapping, the attribute-safety check, and the
  HTML-tree passes of the preserve-HTML path over a `Markup.Node` tree.
- `FramerFormatter` (`framer_formatter.dfy`): the twelve Framer columns, row
  formatting field by field, excerpt generation, and the validation report.
- `Utils` (`utils.dfy`): file-name sanitising, URL normalisation without a
  base URL, truncation at a word boundary, and whitespace normalisation.
- `ComprehensiveXmlFix`, `RobustXmlParser` and `FixSpecificXml`: the
  character filter and escaping chain of the first repair script, and the
  line-by-line CDATA state machines of the other two.
- Supporting modules:
  - `Text`: Python string semantics (strip, split, join, replace, find, lower,
    title case, and the `\s` and `\w` classes).
  - `Markup`: the element tree and lxml's document order.
  - `PostData`: the post dictionary.
  - `Wrappers`: `Option`.

Loops in the source outside the HTML-tree passes are methods with loop
invariants, proved equal to a specification function. The tree passes
(`RemoveUnsafe`, `CleanTags` with `KeepSafeAttrs`, `ProcessImages`,
`ProcessLinks`) walk the tree in the source and are recursive functions over
the forest here. The properties the source promises are the contracts of
those functions and lemmas about them.

## Model

| member | source | states |
|---|---|---|
| Config.DefaultConverterConfigValues | framer_blog_converter/src/config.py:29-40 | The defaults: HTML preserved, slugs generated at most 60 long, CDATA handled, no content limit, no URL validation, no image download |
| Config.DefaultStatusValuesCanonical | framer_blog_converter/src/config.py:111-173 | Every status value of every built-in platform is "Published" or "Draft" |
| Config.WordPressStatusVocabulary | framer_blog_converter/src/config.py:111-116 | WordPress maps exactly publish, draft, private and pending: "publish" to Published and the other three to Draft |
| Config.DefaultItemTags | framer_blog_converter/src/config.py:91-181 | Built-in item tags are non-empty: "item" for WordPress and "post" for Ghost and Jekyll; built-in names are lower case |
| Config.UpperCaseStemUnreachable | framer_blog_converter/src/config.py:61-68 | A template stored under a file stem with an upper-case letter is never found by name lookup, because lookup lower-cases the name |
| Config.ConfigManager.constructor | framer_blog_converter/src/config.py:46-50 | A fresh registry holds the default settings and exactly the templates loaded from disk |
| Config.ConfigManager.LoadPlatformTemplates | framer_blog_converter/src/config.py:52-64 | Each template file that parses is stored under its file stem, in file order; files that fail are skipped; settings are unchanged |
| Config.LoadedTemplates | framer_blog_converter/src/config.py:52-64 | The keys are the old keys plus the stems of the readable files, not lower-cased; each stem holds the last readable file with it; every other entry is kept |
| Config.ConfigManager.Put | framer_blog_converter/src/config.py:62 | Storing under a key replaces only that entry; a new key is added at the end of the key order, an existing key keeps its place |
| Config.ConfigManager.GetPlatformMapping | framer_blog_converter/src/config.py:66-68 | Found exactly when the lower-cased name is a key, and then it returns that entry, so any casing of a stored name gives the same mapping |
| Config.ConfigManager.ListPlatforms | framer_blog_converter/src/config.py:70-72 | Lists exactly the registry's keys, each once |
| Config.ConfigManager.AddCustomMapping | framer_blog_converter/src/config.py:74-76 | Stores under the lower-cased name and replaces only that entry; a later lookup in any casing returns it; every other name looks up as before |
| BlogConverter.QualifiedNameRebuilt | framer_blog_converter/src/blog_converter.py:263-267 | Splitting a `{uri}local` path at the first `}` and rebuilding it gives back the path |
| BlogConverter.ExtractFieldValue | framer_blog_converter/src/blog_converter.py:260-294 | Any value the resolver returns is stripped of surrounding whitespace |
| BlogConverter.QualifiedPathValue | framer_blog_converter/src/blog_converter.py:263-274 | A `{uri}local` path takes the first descendant (not the record) with that exact tag: its stripped text, "" when it has no text, None when there is none |
| BlogConverter.QualifiedPathSkipsRecord | framer_blog_converter/src/blog_converter.py:270 | A record whose own tag matches the path, with no such descendant, gives None |
| BlogConverter.ShorthandPathValue | framer_blog_converter/src/blog_converter.py:275-283 | A `prefix:local` path gives a value exactly when some element of the record's document-order walk has a tag ending in `{local}` |
| BlogConverter.ShorthandMissesClarkNames | framer_blog_converter/src/blog_converter.py:279-283 | When no tag ends in `}`, as no lxml name `{uri}local` does, a `prefix:local` path always gives None |
| BlogConverter.BarePathValue | framer_blog_converter/src/blog_converter.py:284-290 | A bare path takes the first direct child with that tag: its stripped text when its text is non-empty, None (not "") otherwise |
| BlogConverter.HarvestSound | framer_blog_converter/src/blog_converter.py:303-311 | Every extracted value is the stripped, non-blank text of a matching element |
| BlogConverter.Harvest | framer_blog_converter/src/blog_converter.py:303-311 | At most one value per examined element, and every value is non-empty and stripped of surrounding whitespace |
| BlogConverter.HarvestComplete | framer_blog_converter/src/blog_converter.py:303-311 | Every matching element with non-blank text contributes its stripped text |
| BlogConverter.HarvestAppend | framer_blog_converter/src/blog_converter.py:303-311 | Values come in document order: the values of a concatenation are the values of each part, in turn |
| BlogConverter.HarvestKeepsDuplicates | framer_blog_converter/src/blog_converter.py:305-306 | Two equal matching elements give the value twice; duplicates are kept |
| BlogConverter.PlainNameDirectChildren | framer_blog_converter/src/blog_converter.py:307-311 | A name without ':' matches direct children only |
| BlogConverter.ExtractMultipleValues | framer_blog_converter/src/blog_converter.py:296-313 | The appending loop computes the specified list of values |
| BlogConverter.HarvestLoop | framer_blog_converter/src/blog_converter.py:303-311 | Appending the stripped text of each matching, non-blank candidate in turn yields exactly the harvest of the candidates, in document order |
| BlogConverter.PostDataOf | framer_blog_converter/src/blog_converter.py:224-254 | The record is dropped exactly when both title and content are missing or empty; otherwise it is the assembled record |
| BlogConverter.AssembledFields | framer_blog_converter/src/blog_converter.py:229-248 | A mapped field is present exactly when its resolver gives a value (possibly ""); categories and tags are replaced only by non-empty lists; date formats and status mapping are always attached |
| BlogConverter.EmptyListKeepsField | framer_blog_converter/src/blog_converter.py:236-239 | An empty category list leaves whatever the field mappings put under "categories" |
| BlogConverter.ExtractFields | framer_blog_converter/src/blog_converter.py:230-233 | The loop over the field mappings computes the specified dictionary |
| BlogConverter.ExtractPostData | framer_blog_converter/src/blog_converter.py:224-254 | Builds the record step by step and returns exactly the specified record or None |
| BlogConverter.StreamOf | framer_blog_converter/src/blog_converter.py:198-213 | The stream yields at most one record per item |
| BlogConverter.StreamAppend | framer_blog_converter/src/blog_converter.py:204-208 | Records come in document order: the stream of a concatenation is the streams of its parts, in turn |
| BlogConverter.StreamPostsEssential | framer_blog_converter/src/blog_converter.py:206-208 | Every yielded record has a non-empty title or content |
| BlogConverter.ParseXmlStream | framer_blog_converter/src/blog_converter.py:198-213 | The generator loop yields exactly the specified filter-map of the items |
| BlogConverter.DetectedNames | framer_blog_converter/src/blog_converter.py:319-347 | Detection answers wordpress, ghost, jekyll, custom or nothing; custom comes only from a `blog` root, and no built-in platform is called custom |
| BlogConverter.DetectReadsPrefix | framer_blog_converter/src/blog_converter.py:338-345 | Only the first 1000 characters of the file matter |
| BlogConverter.DetectGhostAnyCase | framer_blog_converter/src/blog_converter.py:340-343 | With an unknown root and no WordPress marker, "ghost" in any casing within the first 1000 characters detects Ghost |
| BlogConverter.DetectPlatform | framer_blog_converter/src/blog_converter.py:319-347 | No root tag (the parse failed) gives None; any answer is wordpress, ghost, jekyll or custom |
| BlogConverter.DetectByRootTag | framer_blog_converter/src/blog_converter.py:324-333 | The root tag decides alone: rss gives wordpress, ghost gives ghost, jekyll gives jekyll and blog gives custom, whatever the text |
| BlogConverter.WordPressMarkerFirst | framer_blog_converter/src/blog_converter.py:338-345 | With any other root, "wp:post_type" in the first 1000 characters gives wordpress even when "ghost" or "jekyll" occur too |
| BlogConverter.DefaultsRegistered | framer_blog_converter/src/blog_converter.py:27-29 | Registering the defaults adds exactly wordpress, ghost and jekyll with their mappings, and keeps every other loaded template |
| BlogConverter.Registered | framer_blog_converter/src/blog_converter.py:28-29 | Registering platforms in order stores each under its lower-cased name, the last of a name winning; the keys are the old keys plus those names; every other entry is kept |
| BlogConverter.FormattedRowsPass | framer_blog_converter/src/blog_converter.py:116-130 | Rows produced by formatting always pass validation when there is at least one, so the validation guard of `convert` never fails |
| BlogConverter.FormatPosts | framer_blog_converter/src/blog_converter.py:116-122 | The formatting loop gives one formatted row per post, in order |
| BlogConverter.Converter.constructor | framer_blog_converter/src/blog_converter.py:20-36 | The registry holds the loaded templates with the three defaults registered on top; settings are the defaults; no platform is current |
| BlogConverter.Converter.LoadPlatformTemplate | framer_blog_converter/src/blog_converter.py:63-73 | Succeeds exactly when the name is registered, and then sets the current platform and mapping; on failure both are unchanged |
| BlogConverter.Converter.Convert | framer_blog_converter/src/blog_converter.py:88-156 | Succeeds exactly when the input exists, a named platform loads, a mapping is current, the file parses and at least one post is found; the current platform changes only when a named platform loads |
| ContentProcessor.EntityAt | framer_blog_converter/src/content_processor.py:42 | A recognised entity starts with '&' and spans at least two characters of the input |
| ContentProcessor.Unescape | framer_blog_converter/src/content_processor.py:42 | Decoding never lengthens the text, and text without '&' is unchanged |
| ContentProcessor.RemoveTags | framer_blog_converter/src/content_processor.py:112 | Removing `<...>` tags leaves no complete tag and never lengthens the text |
| ContentProcessor.RemoveTagsTagFree | framer_blog_converter/src/content_processor.py:112 | Text holding no complete tag is unchanged |
| ContentProcessor.RemoveTagsIdempotent | framer_blog_converter/src/content_processor.py:112 | Removing tags twice is removing them once |
| ContentProcessor.StripHtmlTags | framer_blog_converter/src/content_processor.py:109-117 | The result has no leading, trailing or repeated whitespace |
| ContentProcessor.StripHtmlTagsPlain | framer_blog_converter/src/content_processor.py:109-117 | Collapsed text without '<' or '&' is unchanged |
| ContentProcessor.ExtractCdata | framer_blog_converter/src/content_processor.py:52-58 | When an opener is later followed by `]]>`, the result is the text between the first opener and the first closer after it; otherwise the input |
| ContentProcessor.CdataRoundTrip | framer_blog_converter/src/content_processor.py:52-58 | Wrapping text without `]]>` in a CDATA section and extracting it gives the text back |
| ContentProcessor.CleanText | framer_blog_converter/src/content_processor.py:60-68 | The result holds only allowed characters and has no surrounding whitespace |
| ContentProcessor.ProcessTitle | framer_blog_converter/src/content_processor.py:60-68 | A processed title holds only word characters, whitespace and `- _ . , ! ? ( )`, with no surrounding whitespace |
| ContentProcessor.ProcessTitleFixes | framer_blog_converter/src/content_processor.py:60-68 | A collapsed title made of allowed characters is unchanged |
| ContentProcessor.ProcessAuthor | framer_blog_converter/src/content_processor.py:262-274 | "" stays ""; a processed author holds only word characters, whitespace and `- _ .`, with no surrounding whitespace |
| ContentProcessor.ProcessAuthorFixes | framer_blog_converter/src/content_processor.py:262-274 | A collapsed author name made of allowed characters is unchanged |
| ContentProcessor.ProcessExcerpt | framer_blog_converter/src/content_processor.py:70-77 | At most 300 characters; tag-stripped text longer than 300 becomes its first 297 characters plus "...", shorter text is kept |
| ContentProcessor.DashRuns | framer_blog_converter/src/content_processor.py:215 | Each run of dashes and whitespace becomes one '-', so no "--" remains, and a slug alphabet is kept |
| ContentProcessor.StripDashes | framer_blog_converter/src/content_processor.py:218 | Stripping the end dashes gives a slug: word characters and single inner dashes, no dash at either end |
| ContentProcessor.CutSlug | framer_blog_converter/src/content_processor.py:220-222 | Cutting a slug to the maximum length and stripping trailing dashes keeps it a slug within the limit |
| ContentProcessor.GenerateSlug | framer_blog_converter/src/content_processor.py:205-224 | The slug has only word characters and '-', never starts or ends with '-', has no "--", and is no longer than the maximum length |
| ContentProcessor.DashRunsJoin | framer_blog_converter/src/content_processor.py:215 | Words without dashes or whitespace joined by single spaces come out joined by single dashes |
| ContentProcessor.GenerateSlugExample | framer_blog_converter/tests/test_converter.py:125-129 | "Test Blog Post Title!" gives "test-blog-post-title" |
| ContentProcessor.FirstOccurrences | framer_blog_converter/src/content_processor.py:231-240 | De-duplication never gives more items than it was given |
| ContentProcessor.FirstOccurrencesDistinct | framer_blog_converter/src/content_processor.py:239-240 | The kept items are pairwise distinct |
| ContentProcessor.FirstOccurrencesMembers | framer_blog_converter/src/content_processor.py:231-240 | An item is kept exactly when it is non-empty and is the cleaned form of some input item |
| ContentProcessor.FirstOccurrencesOrder | framer_blog_converter/src/content_processor.py:231-240 | Kept items come in the order of their first occurrences: an earlier kept item is the cleaned form of an input before any input that cleans to a later one |
| Text.TitleCaseAfterAccent | framer_blog_converter/src/content_processor.py:238 | An accented letter is cased for `str.title`, so the letter after it is lower-cased: "müLLER" becomes "Müller" |
| ContentProcessor.CleanCategory | framer_blog_converter/src/content_processor.py:236-238 | A cleaned category has no whitespace at either end |
| ContentProcessor.CleanTag | framer_blog_converter/src/content_processor.py:252-256 | A cleaned tag has no whitespace at either end and no upper-case letter |
| ContentProcessor.NormalizeItems | framer_blog_converter/src/content_processor.py:232-242 | The membership-checked appending loop computes the first occurrences, joined with ", " |
| ContentProcessor.NormalizeCategories | framer_blog_converter/src/content_processor.py:226-242 | Categories are cleaned, title-cased, de-duplicated keeping the first occurrence, and joined with ", " |
| ContentProcessor.NormalizeTags | framer_blog_converter/src/content_processor.py:244-260 | Tags are cleaned, lower-cased, de-duplicated keeping the first occurrence, and joined with ", " |
| ContentProcessor.CategoriesStripped | framer_blog_converter/src/content_processor.py:236-240 | Every kept category is non-empty, stripped, and the cleaned form of an input item |
| ContentProcessor.TagsLowerCase | framer_blog_converter/src/content_processor.py:254-258 | Every kept tag is non-empty, stripped, and has no upper-case ASCII letter |
| ContentProcessor.ProcessStatus | framer_blog_converter/src/content_processor.py:276-285 | The result is "Draft" or a value of the mapping; an empty status gives "Draft" |
| ContentProcessor.ProcessStatusIgnoresCase | framer_blog_converter/src/content_processor.py:282 | The status is looked up case-insensitively |
| ContentProcessor.DefaultStatusOutcome | framer_blog_converter/src/content_processor.py:276-285 | With a built-in platform's mapping, any status gives "Published" or "Draft" |
| ContentProcessor.RunEnd | framer_blog_converter/src/content_processor.py:154 | The end of the longest run of matching characters from a position |
| ContentProcessor.DangerousInAnyCase | framer_blog_converter/src/content_processor.py:152-159 | A value containing a dangerous pattern in any casing makes the attribute unsafe |
| ContentProcessor.HandlerRefused | framer_blog_converter/src/content_processor.py:154-159 | A value containing `on`, word characters, optional whitespace and `=` makes the attribute unsafe |
| ContentProcessor.Dangerous | framer_blog_converter/src/content_processor.py:154-159 | A value matching any of the patterns contains a ':', a '<' or an '=' |
| ContentProcessor.IsSafeAttribute | framer_blog_converter/src/content_processor.py:141-161 | A safe value holds no piece that folds, without regard to case, onto javascript:, vbscript:, data:, file:, <script or <iframe |
| ContentProcessor.LongSRefused | framer_blog_converter/src/content_processor.py:157-159 | "javaſcript:" (with the long s, which matches s when case is ignored) is refused |
| ContentProcessor.WrittenAttributesSafe | framer_blog_converter/src/content_processor.py:184-203 | The attributes the passes write ("alt"="Image", "rel"="noopener", "target"="_blank") are themselves safe |
| ContentProcessor.PlainValueSafe | framer_blog_converter/src/content_processor.py:141-161 | An allowed name with a value holding no ':', no '<' and no "on" in any casing is safe |
| ContentProcessor.HttpsPrefixSafe | framer_blog_converter/src/content_processor.py:194-195 | Prefixing "https:" to a safe value keeps it safe |
| ContentProcessor.PreservedTagsAreSafe | framer_blog_converter/src/content_processor.py:25-30 | No unsafe tag is a preserved tag; span, img and a are preserved |
| ContentProcessor.RemoveUnsafe | framer_blog_converter/src/content_processor.py:88-89 | After removal no script, style, iframe, object, embed, form or input element remains anywhere in the tree |
| ContentProcessor.RemoveUnsafeNoop | framer_blog_converter/src/content_processor.py:88-89 | A tree without unsafe elements is unchanged |
| ContentProcessor.KeepSafeAttrs | framer_blog_converter/src/content_processor.py:128-134 | An attribute is kept exactly when it was present and is safe |
| ContentProcessor.CleanTags | framer_blog_converter/src/content_processor.py:119-139 | Elements that had no children are gone; every element left has only safe attributes and a preserved tag name (others renamed "span") |
| ContentProcessor.CleanTagsKeepsTexts | framer_blog_converter/src/content_processor.py:119-139 | The pass keeps every text node, in order |
| ContentProcessor.FixImageAttrs | framer_blog_converter/src/content_processor.py:171-186 | src is kept, the event handlers onload, onerror and onclick are gone, a non-empty alt is kept and a missing one becomes "Image", and nothing else is added |
| ContentProcessor.ProcessImages | framer_blog_converter/src/content_processor.py:163-186 | After the pass every img has a src and a non-empty alt and no event handler |
| ContentProcessor.FixImageAttrsSafe | framer_blog_converter/src/content_processor.py:179-186 | Fixing image attributes keeps every attribute safe |
| ContentProcessor.ProcessImagesKeepsCleaned | framer_blog_converter/src/content_processor.py:163-186 | The image pass keeps a cleaned tree cleaned |
| ContentProcessor.FixLinkAttrs | framer_blog_converter/src/content_processor.py:190-203 | A protocol-relative href gets "https:"; rel and target are set from the href as it was before that rewrite; other attributes are unchanged |
| ContentProcessor.FixLinkAttrsSafe | framer_blog_converter/src/content_processor.py:190-203 | Fixing link attributes keeps every attribute safe |
| ContentProcessor.ProcessLinksKeeps | framer_blog_converter/src/content_processor.py:188-203 | The link pass keeps a cleaned tree cleaned and an image-ready tree image-ready |
| ContentProcessor.ProcessLinks | framer_blog_converter/src/content_processor.py:188-203 | The pass keeps the shape of the forest: text nodes are unchanged and every element keeps its tag |
| ContentProcessor.ProcessTree | framer_blog_converter/src/content_processor.py:86-98 | After the four passes every element is safe, cleaned and image-ready |
| ContentProcessor.ImagePassDead | framer_blog_converter/src/content_processor.py:121-125 | On a tree whose img, br and hr elements have no children, the empty-element rule deletes them all, so the image pass does nothing |
| ContentProcessor.ImageInParagraphDropped | framer_blog_converter/src/content_processor.py:121-125 | `<p><img src="a.png"></p>` comes out as an empty paragraph |
| ContentProcessor.ProtocolRelativeLinkNotExternal | framer_blog_converter/src/content_processor.py:191-203 | A `//host` link gets its https prefix but not rel or target, because the check reads the old href |
| ContentProcessor.ProcessMainContent | framer_blog_converter/src/content_processor.py:79-107 | Without HTML preservation the result is the tag-stripped text; with it, the result renders a tree whose every element is safe, cleaned and image-ready |
| ContentProcessor.ProcessContent | framer_blog_converter/src/content_processor.py:32-50 | "" stays ""; excerpts have at most 300 characters; titles hold only allowed characters; other content is CDATA-unwrapped, entity-decoded and processed as main content |
| ContentProcessor.CdataTitle | framer_blog_converter/src/content_processor.py:37-48 | A title wrapped in a CDATA section is processed as the text inside it |
| ContentProcessor.ValidateContentLength | framer_blog_converter/src/content_processor.py:287-308 | Reports the length and at most one warning, given exactly for titles over 100, excerpts over 300 and content over 10,000 characters |
| ContentProcessor.ValidateContentLengthNeverInvalid | framer_blog_converter/src/content_processor.py:301-306 | As written, no input is ever reported invalid |
| ContentProcessor.ExtremelyLongContentAccepted | framer_blog_converter/src/content_processor.py:301-306 | 50,001 characters of content are reported valid as written and invalid once corrected |
| ContentProcessor.ValidateContentLengthCorrected | framer_blog_converter/src/content_processor.py:301-306 | Corrected: content is invalid exactly when it is over 50,000 characters; the warnings are the same as before |
| ContentProcessor.ValidateContentLengthCorrectedAgrees | framer_blog_converter/src/content_processor.py:287-308 | The correction changes nothing unless content is over 50,000 characters |
| FramerFormatter.RequiredColumnsComplete | framer_blog_converter/src/framer_formatter.py:16-29 | Every column is among the required columns |
| FramerFormatter.RequiredColumnsDistinct | framer_blog_converter/src/framer_formatter.py:16-29 | There are 12 required columns, all distinct, with distinct header names |
| FramerFormatter.FormatTitle | framer_blog_converter/src/framer_formatter.py:115-124 | An empty title gives "Untitled Post"; the result has no '<' or '>'; a non-empty title comes out collapsed |
| FramerFormatter.FormatTitleKeepsPlain | framer_blog_converter/src/framer_formatter.py:115-124 | A collapsed title without '<' or '>' is unchanged |
| FramerFormatter.FormatTitleIdempotent | framer_blog_converter/src/framer_formatter.py:115-124 | Formatting a formatted title changes nothing |
| FramerFormatter.FormatImageUrl | framer_blog_converter/src/framer_formatter.py:173-188 | The URL is stripped; it is "" exactly when the stripped input is; a leading "//" gets "https:" and anything else is kept |
| FramerFormatter.FormatImageUrlIdempotent | framer_blog_converter/src/framer_formatter.py:173-188 | Formatting a formatted URL changes nothing |
| FramerFormatter.AccumulateBound | framer_blog_converter/src/framer_formatter.py:136-140 | The sentences accumulated never exceed the maximum length |
| FramerFormatter.AccumulatePrefix | framer_blog_converter/src/framer_formatter.py:133-140 | The accumulated excerpt is a prefix of the sentences re-joined with '.' |
| FramerFormatter.Accumulate | framer_blog_converter/src/framer_formatter.py:133-140 | The accumulation only extends what it started from, and stays within the maximum when it started within it |
| FramerFormatter.ExcerptOf | framer_blog_converter/src/framer_formatter.py:126-145 | With a maximum of at least 3, the excerpt is no longer than the maximum |
| FramerFormatter.ExcerptFromSentences | framer_blog_converter/src/framer_formatter.py:133-145 | When some sentence fits, the excerpt is the stripped run of whole sentences that fit |
| FramerFormatter.GenerateExcerpt | framer_blog_converter/src/framer_formatter.py:126-145 | The accumulating loop computes the specified excerpt |
| FramerFormatter.RowSlug | framer_blog_converter/src/framer_formatter.py:44-51 | A non-empty source slug is used as is; otherwise, with slug generation on, a valid slug within the limit; otherwise "" |
| FramerFormatter.RowExcerpt | framer_blog_converter/src/framer_formatter.py:59-64 | At most 300 characters; a missing excerpt is generated from non-empty content; with no content it stays "" |
| FramerFormatter.RowSeoTitle | framer_blog_converter/src/framer_formatter.py:99-103 | A missing SEO title falls back to the formatted title; the result is a processed title |
| FramerFormatter.RowSeoDescription | framer_blog_converter/src/framer_formatter.py:105-111 | At most 300 characters; a missing SEO description falls back to the excerpt |
| FramerFormatter.FramerRow.AsRow | framer_blog_converter/src/framer_formatter.py:39-113 | The row dictionary has exactly the 12 required columns |
| FramerFormatter.FormattedRowCells | framer_blog_converter/src/framer_formatter.py:37-113 | Column by column: escaped title, the slug rule, processed content, excerpts of at most 300 characters with their fallbacks, a status from the vocabulary, the date from the date formatter |
| FramerFormatter.ExcerptCell | framer_blog_converter/src/framer_formatter.py:59-64 | Computes the excerpt cell as specified |
| FramerFormatter.FormatBlogPost | framer_blog_converter/src/framer_formatter.py:37-113 | Filling the row field by field gives the specified row |
| FramerFormatter.FormattedRow | framer_blog_converter/src/framer_formatter.py:37-113 | The title holds no '<' or '>' and is "Untitled Post" for a missing title; excerpt and SEO description are at most 300 long; the SEO title is stripped; the status is "Draft" or a value of the post's status mapping |
| FramerFormatter.MissingFieldErrors | framer_blog_converter/src/framer_formatter.py:242-247 | One error per missing column, none exactly when every column is present |
| FramerFormatter.RowWarnings | framer_blog_converter/src/framer_formatter.py:249-268 | At most three warnings per row |
| FramerFormatter.CountWhere | framer_blog_converter/src/framer_formatter.py:270-283 | A counter never exceeds the number of rows |
| FramerFormatter.RowErrors | framer_blog_converter/src/framer_formatter.py:242-247 | The loop over the required columns computes the row's errors |
| FramerFormatter.ValidateCsvData | framer_blog_converter/src/framer_formatter.py:216-285 | The loop over the rows computes the specified report: errors, warnings and counters |
| FramerFormatter.CsvReportOf | framer_blog_converter/src/framer_formatter.py:216-285 | Valid exactly when there are rows and every row has all twelve columns; total is the row count and published + draft = total |
| FramerFormatter.ReportCountsAddUp | framer_blog_converter/src/framer_formatter.py:223-274 | Published plus draft posts equals the total, which is the number of rows |
| FramerFormatter.ErrorsOfEmpty | framer_blog_converter/src/framer_formatter.py:238-247 | There are no errors exactly when every row has all the required columns |
| FramerFormatter.ValidIffComplete | framer_blog_converter/src/framer_formatter.py:232-285 | For rows present, the report is valid exactly when every row has all the required columns |
| FramerFormatter.ValidityIgnoresCells | framer_blog_converter/src/framer_formatter.py:249-268 | Validity depends only on which columns are present, so length warnings never affect it |
| FramerFormatter.EmptyReport | framer_blog_converter/src/framer_formatter.py:232-235 | No rows: invalid, the single error "No posts to validate", every counter 0 |
| FramerFormatter.FormattedRowsValid | framer_blog_converter/src/framer_formatter.py:232-285 | Formatted rows, when there is at least one, always validate |
| Utils.ReplaceUnsafe | framer_blog_converter/src/utils.py:16 | Each of `<>:"/\|?*` becomes '_' and every other character is kept |
| Utils.SanitizeFilename | framer_blog_converter/src/utils.py:13-22 | At most 200 characters, none of them unsafe, and never starting with ' ' or '.' |
| Utils.SanitizeKeepsSafeNames | framer_blog_converter/src/utils.py:13-22 | A short safe name with no space or dot at either end is unchanged |
| Utils.SanitizeMayEndWithDot | framer_blog_converter/src/utils.py:18-21 | The cut comes after the strip, so a sanitised name can end with '.' |
| Utils.NormalizeUrl | framer_blog_converter/src/utils.py:131-153 | "" exactly when the input is ""; otherwise stripped and starting with "http://" or "https://" |
| Utils.ProtocolRelativeUrl | framer_blog_converter/src/utils.py:139-140 | "//host" becomes "https://host" |
| Utils.AbsoluteUrlUnchanged | framer_blog_converter/src/utils.py:147 | A stripped URL with a scheme is unchanged |
| Utils.NormalizeUrlIdempotent | framer_blog_converter/src/utils.py:131-153 | Normalising twice is normalising once |
| Utils.TruncateText | framer_blog_converter/src/utils.py:199-211 | Short text is unchanged; longer text becomes a prefix of itself plus the suffix, within the maximum when the suffix fits |
| Utils.TruncateAtWordBoundary | framer_blog_converter/src/utils.py:205-209 | The cut backs up to the last space exactly when that space lies beyond 0.8 of the maximum length |
| Utils.SquashSpaces | framer_blog_converter/src/utils.py:220 | Every whitespace run becomes one ' ': no adjacent whitespace remains and no whitespace but ' ' |
| Utils.NormalizeWhitespace | framer_blog_converter/src/utils.py:214-224 | No leading, trailing or adjacent whitespace, and only ' ' as whitespace; never longer than the input |
| Utils.NormalizeKeepsWords | framer_blog_converter/src/utils.py:214-224 | The non-whitespace characters are kept, in order |
| Utils.NormalizeCollapsedUnchanged | framer_blog_converter/src/utils.py:214-224 | Already-normalised text is unchanged |
| Utils.NormalizeWhitespaceIdempotent | framer_blog_converter/src/utils.py:214-224 | Normalising twice is normalising once |
| ComprehensiveXmlFix.Cleaned | framer_blog_converter/comprehensive_xml_fix.py:23-31 | The filter keeps the length; each output character is allowed or ' '; a character is kept exactly when it is allowed or ' ' |
| ComprehensiveXmlFix.CleanedIdempotent | framer_blog_converter/comprehensive_xml_fix.py:23-31 | Filtering twice is filtering once |
| ComprehensiveXmlFix.CleanCharacters | framer_blog_converter/comprehensive_xml_fix.py:24-31 | The character loop computes the filtered text |
| ComprehensiveXmlFix.EscapeMarkup | framer_blog_converter/comprehensive_xml_fix.py:66-68 | Escaping '&' first and then '<' and '>' leaves no raw '<' or '>' |
| ComprehensiveXmlFix.EscapeMarkupPerChar | framer_blog_converter/comprehensive_xml_fix.py:41-47 | The three replaces escape each character on its own, with no double escaping |
| ComprehensiveXmlFix.RestoreLt | framer_blog_converter/comprehensive_xml_fix.py:71 | Turning "&lt;" back into '<' undoes exactly the '<' escape |
| ComprehensiveXmlFix.RestoreGt | framer_blog_converter/comprehensive_xml_fix.py:72 | Turning "&gt;" back into '>' undoes exactly the '>' escape |
| ComprehensiveXmlFix.EscapeBareAmpersands | framer_blog_converter/comprehensive_xml_fix.py:66-75 | Every '&' of the result begins "&amp;" |
| ComprehensiveXmlFix.CollapseDoubled | framer_blog_converter/comprehensive_xml_fix.py:75 | Collapsing "&amp;amp;" after doubling every '&' leaves existing "&amp;" as it was and escapes every other '&' |
| ComprehensiveXmlFix.FixStructure | framer_blog_converter/comprehensive_xml_fix.py:62-75 | Net effect of the chain: the markers are removed, every '&' not beginning "&amp;" becomes "&amp;", and '<' and '>' come back unchanged |
| ComprehensiveXmlFix.WithDeclaration | framer_blog_converter/comprehensive_xml_fix.py:83-84 | The output begins "<?xml" and ends with the input |
| ComprehensiveXmlFix.WithDeclarationIdempotent | framer_blog_converter/comprehensive_xml_fix.py:83-84 | The declaration is added only when absent |
| ComprehensiveXmlFix.FixXmlComprehensively | framer_blog_converter/comprehensive_xml_fix.py:23-84 | The script's text is the declaration over the structural fix of the CDATA pass over the filtered text, and it begins "<?xml" |
| RobustXmlParser.FixXmlCdata | framer_blog_converter/robust_xml_parser.py:41-72 | The line loop and final flush compute the specified repaired text |
| RobustXmlParser.Step | framer_blog_converter/robust_xml_parser.py:46-64 | One line: output is only appended to; afterwards a run is open exactly when the line opens one or continues an open run without closing or ending it; an open run has a non-empty buffer |
| RobustXmlParser.StepsAppend | framer_blog_converter/robust_xml_parser.py:45-64 | Scanning two blocks of lines in turn is scanning them together |
| RobustXmlParser.PlainLinesCopied | framer_blog_converter/robust_xml_parser.py:63-64 | Outside a run, lines without an opener are copied in order |
| RobustXmlParser.RunOpen | framer_blog_converter/robust_xml_parser.py:47-49 | An opener starts a run holding exactly the lines after it; whatever was pending is gone |
| RobustXmlParser.RunClosedVerbatim | framer_blog_converter/robust_xml_parser.py:50-56 | A run closed by a later `]]>` line is copied verbatim with nothing added |
| RobustXmlParser.RunEndedByBoundary | framer_blog_converter/robust_xml_parser.py:57-62 | A run cut short by a blank line or a closing tag is copied with that line and an added `]]>` line |
| RobustXmlParser.RunOpenAtEnd | framer_blog_converter/robust_xml_parser.py:66-69 | A run still open at the end is copied followed by a `]]>` line |
| RobustXmlParser.PendingRunDiscarded | framer_blog_converter/robust_xml_parser.py:47-49 | A second opener discards the first run's lines for good |
| RobustXmlParser.FixCdataText | framer_blog_converter/robust_xml_parser.py:41-72 | Text without `<![CDATA[` comes out exactly as it went in |
| FixSpecificXml.FindProblemLine | framer_blog_converter/fix_specific_xml.py:17-23 | Finds the first line numbered 58080 to 58100 that mentions CDATA, or reports that there is none |
| FixSpecificXml.Closed | framer_blog_converter/fix_specific_xml.py:47-48 | The buffer is kept and ends with `]]>`, added only when missing |
| FixSpecificXml.FixUnclosedCdata | framer_blog_converter/fix_specific_xml.py:30-51 | The line loop computes the specified text |
| FixSpecificXml.Step | framer_blog_converter/fix_specific_xml.py:34-51 | One line: output is only appended to; a run is open afterwards exactly when the line opens one or continues one without `]]>`; on the final line an open run is written ending in `]]>` |
| FixSpecificXml.FixedContent | framer_blog_converter/fix_specific_xml.py:30-51 | The written text extends the output of all lines but the last, and ends in `]]>` when the last line continues an open run without opener or closer |
| FixSpecificXml.FixSpecificXmlIssue | framer_blog_converter/fix_specific_xml.py:17-55 | Nothing is written exactly when no line numbered 58080 to 58100 mentions CDATA; otherwise the repaired text is written |
| FixSpecificXml.StepsAppend | framer_blog_converter/fix_specific_xml.py:33-51 | Scanning two blocks of lines in turn is scanning them together |
| FixSpecificXml.PlainLinesAppended | framer_blog_converter/fix_specific_xml.py:50-51 | Outside a run, lines without an opener are appended unchanged and in order |
| FixSpecificXml.NoOpenerUnchanged | framer_blog_converter/fix_specific_xml.py:30-51 | With no opener line, the output is the lines joined as they were |
| FixSpecificXml.RunOpen | framer_blog_converter/fix_specific_xml.py:35-37 | An opener starts a run whose buffer is exactly the lines after it; a pending buffer is replaced |
| FixSpecificXml.RunClosedVerbatim | framer_blog_converter/fix_specific_xml.py:39-44 | A run is emitted verbatim once a later line contains `]]>` |
| FixSpecificXml.RunOpenAtEnd | framer_blog_converter/fix_specific_xml.py:45-49 | A final line inside a run flushes the run with `]]>` added unless it already ends that way |
| FixSpecificXml.FinalOpenerLost | framer_blog_converter/fix_specific_xml.py:34-55 | Nothing is flushed after the loop, so an opener on the final line never reaches the output |
| Markup.Iter | framer_blog_converter/src/blog_converter.py:279 | lxml's `iter()`: the element itself first, then its descendant elements, never text |
| Markup.GetAttr | framer_blog_converter/src/content_processor.py:172 | An attribute is found exactly when present, with its value |
| Markup.SetAttr | framer_blog_converter/src/content_processor.py:186 | Setting an attribute gives it the value and leaves every other attribute as it was |
| Markup.DropAttr | framer_blog_converter/src/content_processor.py:181-182 | Popping an attribute removes it and leaves every other attribute as it was |
| Markup.EveryIterAll | framer_blog_converter/src/content_processor.py:88 | A property holds throughout a tree exactly when it holds for every element `find_all` visits |
| PostData.GetStr | framer_blog_converter/src/framer_formatter.py:42 | `post.get(key, '')`: the stored string, or "" when absent |
| PostData.GetList | framer_blog_converter/src/framer_formatter.py:83-85 | A list is taken as is, a single string becomes a one-item list, and a missing key gives [] |
| PostData.GetVocabulary | framer_blog_converter/src/framer_formatter.py:96 | The stored status mapping, or an empty one |

## Left out

- In-place tree mutation and aliasing: the BeautifulSoup passes (`decompose`, attribute reassignment, renaming) are modelled as functions from tree to tree. The model keeps their visiting order and effects but not the sharing of nodes between a soup and its callers.
- Parsing and serialising HTML: BeautifulSoup's parser and `str(soup)` are the `HtmlCodec` parameter, whose behaviour is not modelled.
- `html.unescape` is modelled for `&amp;`, `&lt;`, `&gt;`, `&quot;`, `&#39;` and `&apos;` only, not the full HTML5 entity table or numeric references in general.
- Regular-expression classes: `\w` is modelled exactly for ASCII and Latin-1 and `\s` as Python's whitespace set; letters beyond Latin-1 are not word characters here. `str.lower` and `str.title` change ASCII letters only; `str.title` treats every ASCII and Latin-1 letter as cased, as Python does, so "müller" becomes "Müller" but "école" stays "école" where Python gives "École".
- ElementPath: only the three path forms the field resolver builds (`.//{uri}local`, `prefix:local`, a bare tag) are modelled; tail text, comments and processing instructions are not part of the element tree.
- ContentProcessor.IsSafeAttribute: the value is searched as one string. BeautifulSoup hands `class` (on every tag) and `rel` (on `a`, `link` and `area`) over as lists of whitespace-separated tokens, and `str(value)` is then the list's repr, so the source refuses a pattern only when it lies inside one token. The model refuses more: `<p class="x onload = y">` loses its `class` here and keeps it in the source. Within one token the two agree. The case-insensitive match is modelled for ASCII letters and for the four letters outside ASCII that fold onto the patterns' letters (İ, ı, ſ and the Kelvin sign).
- ContentProcessor.HandlerRefused: holds of the model's single-string search. For `class`, and for `rel` on `a`, `link` and `area`, the source searches the repr of the token list, so a handler pattern that spans whitespace is not refused there (see ContentProcessor.IsSafeAttribute above).
- ContentProcessor.ProcessTree: "only safe attributes" means safe under ContentProcessor.IsSafeAttribute, which searches `class` and `rel` values as one string (see above).
- `_format_date` reads the clock and a date-parsing library; it is the `formatDate` parameter of row formatting.
- lxml `iterparse`: streaming, `elem.clear()` and memory release are not modelled. The item elements arrive as a sequence; a file that does not parse is `None`.
- File existence, reading, writing, console output, `tqdm` progress bars and exceptions are left out. `Convert` takes whether the input exists and the parsed items as parameters, and does not write the CSV.
- CSV writing, CSV preview, `preview`, `preview_posts` and the conversion statistics are left out: they are output formatting over the csv module, or fail before producing anything.
- Configuration files: `load_config`, `set_content_processing`, `save_custom_mapping` and JSON decoding are left out. Template files arrive already decoded, as `TemplateFile` values.
- `utils.py` helpers other than the four modelled ones, and the `urljoin` branch of `normalize_url`, are left out because they wrap library or I/O calls.
- `comprehensive_xml_fix.py:50-54` is two lazy regular-expression substitutions. They are the uninterpreted `cdataPass` parameter of `FixXmlComprehensively`, and `EscapeMarkup` models the escaping inside `replace_cdata`.
- `robust_xml_parser.py:20-37` computes a value that is never used, so it is not modelled. The file's reading and writing are not modelled either: the method takes and returns the text.
- `fix_specific_xml.py` reads its lines with `readlines`, so every line keeps its own ending. The model takes those lines as input, and the file is not read or written.
- Utils.TruncateText: the source compares `last_space > max_length * 0.8` in floating point. The model uses the exact integer comparison `5 * last_space > 4 * max_length`, which agrees for all lengths a string can have.
- ContentProcessor.ProcessMainContent: the warning printed when content exceeds `max_content_length` has no effect on the result and is not modelled.
- ContentProcessor.ValidateContentLength: the source's test expects 13,000 characters of content to be invalid. That holds under neither threshold, so the model follows the code (see Findings).

## Findings

| source | as written | input that shows it | evidently intended | confidence | as-written member | corrected member |
|---|---|---|---|---|---|---|
| framer_blog_converter/src/content_processor.py:301-306 | The "over 50,000" test sits in an `elif` behind the "over 10,000" test, so it is never reached and `valid` is never set to False | Content of 50,001 characters: reported valid, with only the "very long" warning | Content over 50,000 characters is reported invalid with the "extremely long" warning | not executed | ContentProcessor.ValidateContentLength (ContentProcessor.ValidateContentLengthNeverInvalid, ContentProcessor.ExtremelyLongContentAccepted) | ContentProcessor.ValidateContentLengthCorrected (ContentProcessor.ValidateContentLengthCorrectedAgrees) |
