/** The converter: resolving a platform's field paths against an XML record,
    assembling the post dictionary, the stream of posts, platform detection,
    and the guards of `convert` (framer_blog_converter/src/blog_converter.py).
    XML records are `Markup.Node` elements: lxml's `elem.text` is the leading
    text node, and `iter()`, `find` and `findall` walk element children only. */
module BlogConverter {
  import opened Wrappers
  import opened Text
  import opened Markup
  import opened Config
  import opened PostData
  import ContentProcessor
  import FramerFormatter

  // ---------------------------------------------------------------------------
  // Searching a record

  /** The index of the first element of `ns` whose tag is `name`, or `|ns|`. */
  function FirstWithTag(ns: seq<Node>, name: string): (r: nat)
    ensures r <= |ns|
    ensures r < |ns| ==> ns[r].Element? && ns[r].tag == name
    ensures forall j :: 0 <= j < r ==> !(ns[j].Element? && ns[j].tag == name)
    decreases |ns|
  {
    if ns == [] then 0
    else if ns[0].Element? && ns[0].tag == name then 0
    else 1 + FirstWithTag(ns[1..], name)
  }

  /** The index of the first element of `ns` whose tag ends with `suffix`, or `|ns|`. */
  function FirstEndingWith(ns: seq<Node>, suffix: string): (r: nat)
    ensures r <= |ns|
    ensures r < |ns| ==> ns[r].Element? && EndsWith(ns[r].tag, suffix)
    ensures forall j :: 0 <= j < r ==> !(ns[j].Element? && EndsWith(ns[j].tag, suffix))
    decreases |ns|
  {
    if ns == [] then 0
    else if ns[0].Element? && EndsWith(ns[0].tag, suffix) then 0
    else 1 + FirstEndingWith(ns[1..], suffix)
  }

  /** The element children of a record: what `find(tag)` and `findall(tag)` look at. */
  function ChildElements(elem: Node): (r: seq<Node>)
    requires elem.Element?
    ensures forall x :: x in r ==> x.Element? && x in elem.children
  {
    ElementsOf(elem.children)
  }

  function ElementsOf(ns: seq<Node>): (r: seq<Node>)
    ensures forall x :: x in r ==> x.Element? && x in ns
    decreases |ns|
  {
    if ns == [] then []
    else (if ns[0].Element? then [ns[0]] else []) + ElementsOf(ns[1..])
  }

  /** A path of the form `{namespace}local`. */
  predicate IsQualifiedPath(path: string) {
    StartsWith(path, "{") && '}' in path
  }

  /** The part of a `prefix:local` path after its first ':'. */
  function LocalPart(path: string): string {
    if IndexOf(path, ':') < |path| then path[IndexOf(path, ':') + 1..] else ""
  }

  /** Splitting `{namespace}local` at its first '}' and putting the pieces
      back together, as `_extract_field_value` does, gives the path again. */
  lemma QualifiedNameRebuilt(path: string)
    requires IsQualifiedPath(path)
    ensures var close := IndexOf(path, '}');
      1 <= close < |path| && "{" + path[1..close] + "}" + path[close + 1..] == path
  {
    var close := IndexOf(path, '}');
    assert path[0] == '{' by {
      assert path[..1] == "{";
    }
    assert "{" == [path[0]] && "}" == [path[close]];
    SplitAround(path, close);
  }

  /** A sequence is its first element, the run up to `close`, the element at
      `close`, and the rest. */
  lemma SplitAround<T>(s: seq<T>, close: nat)
    requires 1 <= close < |s|
    ensures [s[0]] + s[1..close] + [s[close]] + s[close + 1..] == s
  {
    assert s == s[..1] + s[1..close] + s[close..close + 1] + s[close + 1..];
  }

  /** The value a found element yields in the qualified and shorthand
      branches: its stripped text, "" when it has none. */
  function FoundText(x: Node): (r: string)
    requires x.Element?
    ensures Stripped(r)
  {
    if HasText(x) then Strip(TextOf(x)) else ""
  }

  /** `_extract_field_value`. A qualified path searches the record's
      descendants (`.//{ns}local`, not the record itself); a `prefix:local`
      path walks the record and its descendants for a tag ending in
      `{local}`; any other path takes the first direct child with that tag,
      and yields None when that child has no text. */
  function ExtractFieldValue(elem: Node, path: string): (r: Option<string>)
    requires elem.Element?
    ensures r.Some? ==> Stripped(r.value)
  {
    if IsQualifiedPath(path) then
      var close := IndexOf(path, '}');
      var name := "{" + path[1..close] + "}" + path[close + 1..];
      var found := IterAll(elem.children);
      var i := FirstWithTag(found, name);
      if i == |found| then None else Some(FoundText(found[i]))
    else if ':' in path then
      var suffix := "{" + LocalPart(path) + "}";
      var nodes := Iter(elem);
      var i := FirstEndingWith(nodes, suffix);
      if i == |nodes| then None else Some(FoundText(nodes[i]))
    else
      var children := ChildElements(elem);
      var i := FirstWithTag(children, path);
      if i < |children| && HasText(children[i]) then Some(Strip(TextOf(children[i]))) else None
  }

  /** A qualified path: None exactly when no descendant carries that name;
      otherwise the text of the first one in document order, "" when it has none. */
  lemma QualifiedPathValue(elem: Node, path: string)
    requires elem.Element? && IsQualifiedPath(path)
    ensures var r := ExtractFieldValue(elem, path);
      var found := IterAll(elem.children);
      && (r.None? <==> forall x :: x in found ==> x.tag != path)
      && (r.Some? ==>
            exists i :: 0 <= i < |found| && found[i].tag == path &&
              (forall j :: 0 <= j < i ==> found[j].tag != path) &&
              r.value == FoundText(found[i]))
  {
    QualifiedNameRebuilt(path);
    var found := IterAll(elem.children);
    assert forall x :: x in found ==> x.Element?;
  }

  /** The record's own tag is never matched by a qualified path: a record
      named like the path, with no children, yields None. */
  lemma QualifiedPathSkipsRecord(path: string, text: string)
    requires IsQualifiedPath(path)
    ensures ExtractFieldValue(Element(path, [], [TextNode(text)]), path) == None
  {
    assert IterAll([TextNode(text)]) == [];
  }

  /** A `prefix:local` path yields a value exactly when the record or one of
      its descendants has a tag ending in `{local}`. */
  lemma ShorthandPathValue(elem: Node, path: string)
    requires elem.Element? && !IsQualifiedPath(path) && ':' in path
    ensures ExtractFieldValue(elem, path).Some? <==>
      exists x :: x in Iter(elem) && EndsWith(x.tag, "{" + LocalPart(path) + "}")
  {
    var nodes := Iter(elem);
    assert forall x :: x in nodes ==> x.Element?;
  }

  /** An lxml name `{uri}local` with a non-empty local part never ends in '}'. */
  lemma ClarkNameEndsInLocal(uri: string, local: string)
    requires local != [] && '}' !in local
    ensures !EndsWith("{" + uri + "}" + local, "}")
  {
    var t := "{" + uri + "}" + local;
    assert t[|t| - 1] == local[|local| - 1];
  }

  /** Hence a `prefix:local` path finds nothing in a record whose tags are all
      lxml names: every tag ends in its local part, never in '}'. */
  lemma ShorthandMissesClarkNames(elem: Node, path: string)
    requires elem.Element? && !IsQualifiedPath(path) && ':' in path
    requires forall x :: x in Iter(elem) ==> !EndsWith(x.tag, "}")
    ensures ExtractFieldValue(elem, path) == None
  {
    forall x | x in Iter(elem)
      ensures !EndsWith(x.tag, "{" + LocalPart(path) + "}")
    {
      BraceSuffix(x.tag, LocalPart(path));
    }
    ShorthandPathValue(elem, path);
  }

  /** A tag ending in `{local}` ends in '}'. */
  lemma BraceSuffix(t: string, local: string)
    ensures EndsWith(t, "{" + local + "}") ==> EndsWith(t, "}")
  {
    var suffix := "{" + local + "}";
    if EndsWith(t, suffix) {
      assert t[|t| - 1] == suffix[|suffix| - 1];
    }
  }

  /** A bare path: a value exactly when the first direct child with that tag
      has text, and then its stripped text; a child without text gives None,
      where a qualified path would give "". */
  lemma BarePathValue(elem: Node, path: string)
    requires elem.Element? && !IsQualifiedPath(path) && ':' !in path
    ensures var r := ExtractFieldValue(elem, path);
      var children := ChildElements(elem);
      var i := FirstWithTag(children, path);
      && (r.Some? <==> i < |children| && HasText(children[i]))
      && (r.Some? ==> r.value == Strip(TextOf(children[i])))
      && (i < |children| && !HasText(children[i]) ==> r == None)
  {
  }

  // ---------------------------------------------------------------------------
  // Several values

  /** Whether `_extract_multiple_values` takes `x` for `tagName`. */
  predicate Matches(x: Node, tagName: string) {
    x.Element? &&
    if ':' in tagName then EndsWith(x.tag, "{" + LocalPart(tagName) + "}") else x.tag == tagName
  }

  /** The nodes `_extract_multiple_values` looks at: the record and its
      descendants for a `prefix:local` name, its direct children otherwise. */
  function Candidates(elem: Node, tagName: string): (r: seq<Node>)
    requires elem.Element?
    ensures forall x :: x in r ==> x.Element?
  {
    if ':' in tagName then Iter(elem) else ChildElements(elem)
  }

  /** Whether `x` yields a value: it matches and its text is not blank. */
  predicate Yields(x: Node, tagName: string) {
    Matches(x, tagName) && HasText(x) && Strip(TextOf(x)) != ""
  }

  /** The stripped, non-blank texts of the matching nodes, in order. */
  function Harvest(nodes: seq<Node>, tagName: string): (r: seq<string>)
    ensures |r| <= |nodes|
    ensures forall k :: 0 <= k < |r| ==> r[k] != "" && Stripped(r[k])
    decreases |nodes|
  {
    if nodes == [] then []
    else
      var prev := Harvest(nodes[..|nodes| - 1], tagName);
      var x := nodes[|nodes| - 1];
      if Yields(x, tagName) then prev + [Strip(TextOf(x))] else prev
  }

  /** Harvesting one more node. */
  lemma HarvestSnoc(nodes: seq<Node>, i: nat, tagName: string)
    requires i < |nodes|
    ensures Harvest(nodes[..i + 1], tagName) ==
      Harvest(nodes[..i], tagName) + if Yields(nodes[i], tagName) then [Strip(TextOf(nodes[i]))] else []
  {
    assert nodes[..i + 1][..i] == nodes[..i];
  }

  /** Harvesting two runs of nodes one after the other gives the two
      harvests one after the other: the values keep document order. */
  lemma {:induction false} HarvestAppend(a: seq<Node>, b: seq<Node>, tagName: string)
    ensures Harvest(a + b, tagName) == Harvest(a, tagName) + Harvest(b, tagName)
    decreases |b|
  {
    if b == [] {
      assert a + b == a;
    } else {
      var b' := b[..|b| - 1];
      assert (a + b)[..|a + b| - 1] == a + b';
      assert (a + b)[|a + b| - 1] == b[|b| - 1];
      HarvestAppend(a, b', tagName);
    }
  }

  /** Every harvested value is the stripped text of some node that yields it. */
  lemma HarvestSound(nodes: seq<Node>, tagName: string)
    ensures forall v :: v in Harvest(nodes, tagName) ==>
      exists i :: 0 <= i < |nodes| && Yields(nodes[i], tagName) && Strip(TextOf(nodes[i])) == v
  {
    forall v | v in Harvest(nodes, tagName)
      ensures exists i :: 0 <= i < |nodes| && Yields(nodes[i], tagName) && Strip(TextOf(nodes[i])) == v
    {
      var i := HarvestSource(nodes, tagName, v);
    }
  }

  /** The position of the node a harvested value came from. */
  lemma {:induction false} HarvestSource(nodes: seq<Node>, tagName: string, v: string) returns (i: nat)
    requires v in Harvest(nodes, tagName)
    ensures i < |nodes| && Yields(nodes[i], tagName) && Strip(TextOf(nodes[i])) == v
    decreases |nodes|
  {
    var init := nodes[..|nodes| - 1];
    HarvestSnoc(nodes, |nodes| - 1, tagName);
    assert nodes[..|nodes|] == nodes;
    if v in Harvest(init, tagName) {
      i := HarvestSource(init, tagName, v);
      assert nodes[i] == init[i];
    } else {
      i := |nodes| - 1;
    }
  }

  /** Every node that yields a value has it harvested. */
  lemma HarvestComplete(nodes: seq<Node>, tagName: string)
    ensures forall i :: 0 <= i < |nodes| && Yields(nodes[i], tagName) ==>
      Strip(TextOf(nodes[i])) in Harvest(nodes, tagName)
  {
    forall i | 0 <= i < |nodes| && Yields(nodes[i], tagName)
      ensures Strip(TextOf(nodes[i])) in Harvest(nodes, tagName)
    {
      HarvestHas(nodes, tagName, i);
    }
  }

  /** The value of the node at `i` is harvested. */
  lemma {:induction false} HarvestHas(nodes: seq<Node>, tagName: string, i: nat)
    requires i < |nodes| && Yields(nodes[i], tagName)
    ensures Strip(TextOf(nodes[i])) in Harvest(nodes, tagName)
    decreases |nodes|
  {
    var init := nodes[..|nodes| - 1];
    var last := nodes[|nodes| - 1];
    var prev := Harvest(init, tagName);
    if i < |init| {
      assert init[i] == nodes[i];
      HarvestHas(init, tagName, i);
    }
    if Yields(last, tagName) {
      assert Harvest(nodes, tagName) == prev + [Strip(TextOf(last))];
    } else {
      assert Harvest(nodes, tagName) == prev;
    }
  }

  /** Nothing is de-duplicated: a node that yields a value, seen twice, gives it twice. */
  lemma HarvestKeepsDuplicates(x: Node, tagName: string)
    requires Yields(x, tagName)
    ensures Harvest([x, x], tagName) == [Strip(TextOf(x)), Strip(TextOf(x))]
  {
    assert [x, x][..1] == [x];
    assert [x][..0] == [];
  }

  /** What `_extract_multiple_values` returns. */
  function MultipleValues(elem: Node, tagName: string): seq<string>
    requires elem.Element?
  {
    Harvest(Candidates(elem, tagName), tagName)
  }

  /** A plain name only looks at the record's direct children. */
  lemma PlainNameDirectChildren(elem: Node, tagName: string, v: string)
    requires elem.Element? && ':' !in tagName
    requires v in MultipleValues(elem, tagName)
    ensures exists x :: x in elem.children && x.Element? && x.tag == tagName && Strip(TextOf(x)) == v
  {
    HarvestSound(ChildElements(elem), tagName);
  }

  /** `_extract_multiple_values`: one pass over the candidates, appending
      each non-blank stripped text. */
  method ExtractMultipleValues(elem: Node, tagName: string) returns (values: seq<string>)
    requires elem.Element?
    ensures values == MultipleValues(elem, tagName)
  {
    var nodes := Candidates(elem, tagName);
    values := HarvestLoop(nodes, tagName);
  }

  /** The loop of `_extract_multiple_values` over the candidate nodes. */
  method HarvestLoop(nodes: seq<Node>, tagName: string) returns (values: seq<string>)
    ensures values == Harvest(nodes, tagName)
  {
    values := [];
    var i := 0;
    while i < |nodes|
      invariant 0 <= i <= |nodes|
      invariant values == Harvest(nodes[..i], tagName)
    {
      HarvestSnoc(nodes, i, tagName);
      var child := nodes[i];
      if Yields(child, tagName) {
        values := values + [Strip(TextOf(child))];
      }
      i := i + 1;
    }
    assert nodes[..i] == nodes;
  }

  // ---------------------------------------------------------------------------
  // The post dictionary

  /** The fields among `names` whose path resolves, each with its value. */
  function FieldsAmong(mapping: PlatformMapping, elem: Node, names: set<string>): Record
    requires elem.Element?
  {
    map f | f in names && f in mapping.fieldMappings && ExtractFieldValue(elem, mapping.fieldMappings[f]).Some?
      :: Str(ExtractFieldValue(elem, mapping.fieldMappings[f]).value)
  }

  /** Python's truth value of an optional mapping entry such as `category_field`. */
  predicate Named(o: Option<string>) {
    o.Some? && o.value != ""
  }

  /** The list under `key`, written only when the field is named and the list is non-empty. */
  function WithList(post: Record, key: string, field: Option<string>, elem: Node): (r: Record)
    requires elem.Element?
  {
    if Named(field) && MultipleValues(elem, field.value) != [] then
      post[key := Strs(MultipleValues(elem, field.value))]
    else post
  }

  /** The dictionary before the essential-data check. */
  function Assembled(mapping: PlatformMapping, elem: Node): Record
    requires elem.Element?
  {
    var fields := FieldsAmong(mapping, elem, mapping.fieldMappings.Keys);
    var listed := WithList(WithList(fields, "categories", mapping.categoryField, elem), "tags", mapping.tagField, elem);
    listed["date_formats" := Strs(mapping.dateFormats)]["status_mapping" := Vocabulary(mapping.statusMapping)]
  }

  /** `post_data.get(key)` is truthy. */
  predicate TruthyAt(post: Record, key: string) {
    key in post && Truthy(post[key])
  }

  /** `_extract_post_data`: None when neither the title nor the content is
      truthy; otherwise the assembled dictionary. */
  function PostDataOf(mapping: PlatformMapping, elem: Node): (r: Option<Record>)
    requires elem.Element?
    ensures r.None? <==> !TruthyAt(Assembled(mapping, elem), "title") && !TruthyAt(Assembled(mapping, elem), "content")
    ensures r.Some? ==> r.value == Assembled(mapping, elem)
  {
    var post := Assembled(mapping, elem);
    if !TruthyAt(post, "title") && !TruthyAt(post, "content") then None else Some(post)
  }

  /** What the assembled dictionary holds: the date formats and the status
      vocabulary always; each other mapped field exactly when its path
      resolves, with the resolved value; and the category and tag lists only
      when the field is named and the list is non-empty. */
  lemma AssembledFields(mapping: PlatformMapping, elem: Node, f: string)
    requires elem.Element?
    ensures var post := Assembled(mapping, elem);
      && post["date_formats"] == Strs(mapping.dateFormats)
      && post["status_mapping"] == Vocabulary(mapping.statusMapping)
      && (f !in {"categories", "tags", "date_formats", "status_mapping"} ==>
            (f in post <==> f in mapping.fieldMappings && ExtractFieldValue(elem, mapping.fieldMappings[f]).Some?)
            && (f in post ==> post[f] == Str(ExtractFieldValue(elem, mapping.fieldMappings[f]).value)))
      && (Named(mapping.categoryField) && MultipleValues(elem, mapping.categoryField.value) != [] ==>
            post["categories"] == Strs(MultipleValues(elem, mapping.categoryField.value)))
      && (Named(mapping.tagField) && MultipleValues(elem, mapping.tagField.value) != [] ==>
            post["tags"] == Strs(MultipleValues(elem, mapping.tagField.value)))
  {
  }

  /** An empty category list leaves whatever the field mappings put under
      "categories" in place. */
  lemma EmptyListKeepsField(mapping: PlatformMapping, elem: Node)
    requires elem.Element?
    requires !Named(mapping.categoryField) || MultipleValues(elem, mapping.categoryField.value) == []
    ensures var fields := FieldsAmong(mapping, elem, mapping.fieldMappings.Keys);
      ("categories" in Assembled(mapping, elem) <==> "categories" in fields)
      && ("categories" in fields ==> Assembled(mapping, elem)["categories"] == fields["categories"])
  {
  }

  /** The entries among `names` that `value` resolves. */
  function Resolved(names: set<string>, value: string -> Option<string>): Record {
    map f | f in names && value(f).Some? :: Str(value(f).value)
  }

  lemma ResolvedAdd(names: set<string>, value: string -> Option<string>, f: string)
    ensures Resolved(names + {f}, value) ==
      if value(f).Some? then Resolved(names, value)[f := Str(value(f).value)]
      else Resolved(names, value) - {f}
  {
  }

  /** The path lookup of one field name, None for a name with no mapping. */
  function FieldLookup(mapping: PlatformMapping, elem: Node): string -> Option<string>
    requires elem.Element?
  {
    f => if f in mapping.fieldMappings then ExtractFieldValue(elem, mapping.fieldMappings[f]) else None
  }

  lemma FieldsAmongResolved(mapping: PlatformMapping, elem: Node, names: set<string>)
    requires elem.Element?
    ensures FieldsAmong(mapping, elem, names) == Resolved(names, FieldLookup(mapping, elem))
  {
  }

  /** Adding one more field name to those already resolved. */
  lemma FieldsAmongAdd(mapping: PlatformMapping, elem: Node, done: set<string>, f: string)
    requires elem.Element? && f in mapping.fieldMappings
    ensures var value := ExtractFieldValue(elem, mapping.fieldMappings[f]);
      FieldsAmong(mapping, elem, done + {f}) ==
        if value.Some? then FieldsAmong(mapping, elem, done)[f := Str(value.value)]
        else FieldsAmong(mapping, elem, done) - {f}
  {
    var lookup := FieldLookup(mapping, elem);
    FieldsAmongResolved(mapping, elem, done);
    FieldsAmongResolved(mapping, elem, done + {f});
    ResolvedAdd(done, lookup, f);
    assert lookup(f) == ExtractFieldValue(elem, mapping.fieldMappings[f]);
  }

  /** The loop of `_extract_post_data` over the field mappings. */
  method ExtractFields(mapping: PlatformMapping, elem: Node) returns (post: Record)
    requires elem.Element?
    ensures post == FieldsAmong(mapping, elem, mapping.fieldMappings.Keys)
  {
    post := map[];
    var remaining := mapping.fieldMappings.Keys;
    while remaining != {}
      invariant remaining <= mapping.fieldMappings.Keys
      invariant post == FieldsAmong(mapping, elem, mapping.fieldMappings.Keys - remaining)
      decreases |remaining|
    {
      var fieldName :| fieldName in remaining;
      ghost var done := mapping.fieldMappings.Keys - remaining;
      FieldsAmongAdd(mapping, elem, done, fieldName);
      assert fieldName !in done;
      var value := ExtractFieldValue(elem, mapping.fieldMappings[fieldName]);
      if value.Some? {
        post := post[fieldName := Str(value.value)];
      }
      remaining := remaining - {fieldName};
      assert mapping.fieldMappings.Keys - remaining == done + {fieldName};
    }
  }

  /** `_extract_post_data`: fills the dictionary one mapped field at a time,
      then the lists, then the platform data. */
  method ExtractPostData(mapping: PlatformMapping, elem: Node) returns (r: Option<Record>)
    requires elem.Element?
    ensures r == PostDataOf(mapping, elem)
  {
    var post := ExtractFields(mapping, elem);
    if Named(mapping.categoryField) {
      var categories := ExtractMultipleValues(elem, mapping.categoryField.value);
      if categories != [] {
        post := post["categories" := Strs(categories)];
      }
    }
    if Named(mapping.tagField) {
      var tags := ExtractMultipleValues(elem, mapping.tagField.value);
      if tags != [] {
        post := post["tags" := Strs(tags)];
      }
    }
    post := post["date_formats" := Strs(mapping.dateFormats)];
    post := post["status_mapping" := Vocabulary(mapping.statusMapping)];
    if !TruthyAt(post, "title") && !TruthyAt(post, "content") {
      return None;
    }
    return Some(post);
  }

  // ---------------------------------------------------------------------------
  // The stream of posts

  /** `_parse_xml_stream` over the elements the parser reports: each element
      carrying the item tag gives its post dictionary, unless extraction
      returned None. */
  function StreamOf(mapping: PlatformMapping, items: seq<Node>): (r: seq<Record>)
    requires forall k :: 0 <= k < |items| ==> items[k].Element?
    ensures |r| <= |items|
    decreases |items|
  {
    if items == [] then []
    else
      var init := items[..|items| - 1];
      var elem := items[|items| - 1];
      var prev := StreamOf(mapping, init);
      if elem.tag == mapping.itemTag && PostDataOf(mapping, elem).Some? then
        prev + [PostDataOf(mapping, elem).value]
      else prev
  }

  /** The stream over one more element. */
  lemma StreamSnoc(mapping: PlatformMapping, items: seq<Node>, i: nat)
    requires forall k :: 0 <= k < |items| ==> items[k].Element?
    requires i < |items|
    ensures StreamOf(mapping, items[..i + 1]) ==
      StreamOf(mapping, items[..i]) +
        if items[i].tag == mapping.itemTag && PostDataOf(mapping, items[i]).Some? then [PostDataOf(mapping, items[i]).value] else []
  {
    assert items[..i + 1][..i] == items[..i];
  }

  /** The stream of two runs of elements is the two streams in order. */
  lemma {:induction false} StreamAppend(mapping: PlatformMapping, a: seq<Node>, b: seq<Node>)
    requires forall k :: 0 <= k < |a| ==> a[k].Element?
    requires forall k :: 0 <= k < |b| ==> b[k].Element?
    ensures forall k :: 0 <= k < |a + b| ==> (a + b)[k].Element?
    ensures StreamOf(mapping, a + b) == StreamOf(mapping, a) + StreamOf(mapping, b)
    decreases |b|
  {
    assert forall k :: 0 <= k < |a + b| ==> (a + b)[k].Element?;
    if b == [] {
      assert a + b == a;
    } else {
      var b' := b[..|b| - 1];
      assert (a + b)[..|a + b| - 1] == a + b';
      assert (a + b)[|a + b| - 1] == b[|b| - 1];
      StreamAppend(mapping, a, b');
    }
  }

  /** Every post in the stream has a truthy title or content and carries the
      platform's date formats and status vocabulary. */
  lemma {:induction false} StreamPostsEssential(mapping: PlatformMapping, items: seq<Node>)
    requires forall k :: 0 <= k < |items| ==> items[k].Element?
    ensures forall k :: 0 <= k < |StreamOf(mapping, items)| ==>
      var post := StreamOf(mapping, items)[k];
      (TruthyAt(post, "title") || TruthyAt(post, "content"))
      && "date_formats" in post && post["date_formats"] == Strs(mapping.dateFormats)
      && "status_mapping" in post && post["status_mapping"] == Vocabulary(mapping.statusMapping)
    decreases |items|
  {
    if items != [] {
      StreamPostsEssential(mapping, items[..|items| - 1]);
    }
  }

  /** `_parse_xml_stream`: one pass over the reported elements. */
  method ParseXmlStream(mapping: PlatformMapping, items: seq<Node>) returns (posts: seq<Record>)
    requires forall k :: 0 <= k < |items| ==> items[k].Element?
    ensures posts == StreamOf(mapping, items)
  {
    posts := [];
    var i := 0;
    while i < |items|
      invariant 0 <= i <= |items|
      invariant posts == StreamOf(mapping, items[..i])
    {
      StreamSnoc(mapping, items, i);
      var elem := items[i];
      if elem.tag == mapping.itemTag {
        var postData := ExtractPostData(mapping, elem);
        if postData.Some? {
          posts := posts + [postData.value];
        }
      }
      i := i + 1;
    }
    assert items[..i] == items;
  }

  // ---------------------------------------------------------------------------
  // Platform detection

  /** `detect_platform`. `rootTag` is the tag of the first element the parser
      reports, None when parsing fails before it; `text` is the file's text.
      The root tag decides alone; otherwise the first 1000 characters are
      searched for markers. */
  function DetectPlatform(rootTag: Option<string>, text: string): (r: Option<string>)
    ensures rootTag.None? ==> r.None?
    ensures r.Some? ==> r.value in {"wordpress", "ghost", "jekyll", "custom"}
  {
    if rootTag.None? then None
    else if rootTag.value == "rss" then Some("wordpress")
    else if rootTag.value == "ghost" then Some("ghost")
    else if rootTag.value == "jekyll" then Some("jekyll")
    else if rootTag.value == "blog" then Some("custom")
    else
      var head := TakePy(text, 1000);
      if Contains(head, "wp:post_type") then Some("wordpress")
      else if Contains(ToLower(head), "ghost") then Some("ghost")
      else if Contains(ToLower(head), "jekyll") then Some("jekyll")
      else None
  }

  /** The answer is one of four names; "custom", which only a `blog` root
      gives, names no built-in platform. */
  lemma DetectedNames(rootTag: Option<string>, text: string)
    ensures var r := DetectPlatform(rootTag, text);
      r.Some? ==> r.value in {"wordpress", "ghost", "jekyll", "custom"}
    ensures DetectPlatform(rootTag, text) == Some("custom") <==> rootTag == Some("blog")
    ensures forall i :: 0 <= i < |DefaultPlatforms| ==> DefaultPlatforms[i].0 != "custom"
  {
  }

  /** The root tag alone decides for the four known roots, whatever the text. */
  lemma DetectByRootTag(text: string)
    ensures DetectPlatform(Some("rss"), text) == Some("wordpress")
    ensures DetectPlatform(Some("ghost"), text) == Some("ghost")
    ensures DetectPlatform(Some("jekyll"), text) == Some("jekyll")
    ensures DetectPlatform(Some("blog"), text) == Some("custom")
  {
  }

  /** With any other root, a "wp:post_type" marker in the first 1000
      characters detects WordPress, even when "ghost" or "jekyll" occur too. */
  lemma WordPressMarkerFirst(rootTag: string, text: string)
    requires rootTag !in {"rss", "ghost", "jekyll", "blog"}
    requires Contains(TakePy(text, 1000), "wp:post_type")
    ensures DetectPlatform(Some(rootTag), text) == Some("wordpress")
  {
  }

  /** Only the first 1000 characters are read. */
  lemma DetectReadsPrefix(rootTag: Option<string>, text: string)
    ensures DetectPlatform(rootTag, text) == DetectPlatform(rootTag, TakePy(text, 1000))
  {
    assert TakePy(TakePy(text, 1000), 1000) == TakePy(text, 1000);
  }

  /** "ghost" in any casing within the first 1000 characters, with no
      WordPress marker and an unknown root, detects Ghost. */
  lemma DetectGhostAnyCase(rootTag: string, text: string, marker: string)
    requires rootTag !in {"rss", "ghost", "jekyll", "blog"}
    requires !Contains(TakePy(text, 1000), "wp:post_type")
    requires ToLower(marker) == "ghost" && Contains(TakePy(text, 1000), marker)
    ensures DetectPlatform(Some(rootTag), text) == Some("ghost")
  {
    ContainsLower(TakePy(text, 1000), marker);
  }

  // ---------------------------------------------------------------------------
  // The converter object

  /** The registry after `add_custom_mapping` for each of `platforms` in order:
      each platform is stored under its lower-cased name, a later one with the
      same name replacing an earlier one, and every other entry is kept. */
  function Registered(m: map<string, PlatformMapping>, platforms: seq<(string, PlatformMapping)>): (r: map<string, PlatformMapping>)
    ensures r.Keys == m.Keys + RegisteredNames(platforms)
    ensures forall i :: 0 <= i < |platforms| && LastNamed(platforms, i) ==> r[ToLower(platforms[i].0)] == platforms[i].1
    ensures forall k :: k in m && !RegistersName(platforms, k) ==> r[k] == m[k]
    decreases |platforms|
  {
    if platforms == [] then m
    else
      var last := platforms[|platforms| - 1];
      RegisteredSnoc(platforms);
      Registered(m, platforms[..|platforms| - 1])[ToLower(last.0) := last.1]
  }

  /** Registering one more platform. */
  lemma RegisteredStep(m: map<string, PlatformMapping>, platforms: seq<(string, PlatformMapping)>, i: nat)
    requires i < |platforms|
    ensures Registered(m, platforms[..i + 1])
         == Registered(m, platforms[..i])[ToLower(platforms[i].0) := platforms[i].1]
  {
    assert platforms[..i + 1][..i] == platforms[..i];
  }

  /** The names of `platforms`, lower-cased. */
  function RegisteredNames(platforms: seq<(string, PlatformMapping)>): set<string> {
    set i | 0 <= i < |platforms| :: ToLower(platforms[i].0)
  }

  /** The facts about the platforms before the last one that `Registered` needs. */
  lemma RegisteredSnoc(platforms: seq<(string, PlatformMapping)>)
    requires platforms != []
    ensures var n := |platforms| - 1;
      && RegisteredNames(platforms) == RegisteredNames(platforms[..n]) + {ToLower(platforms[n].0)}
      && (forall i :: 0 <= i < n && LastNamed(platforms, i) ==>
            LastNamed(platforms[..n], i) && ToLower(platforms[n].0) != ToLower(platforms[i].0))
      && (forall k :: !RegistersName(platforms, k) ==> !RegistersName(platforms[..n], k) && ToLower(platforms[n].0) != k)
  {
    var n := |platforms| - 1;
    assert forall i :: 0 <= i < n ==> platforms[..n][i] == platforms[i];
  }

  /** Some platform is registered under the name `k`. */
  predicate RegistersName(platforms: seq<(string, PlatformMapping)>, k: string) {
    exists i :: 0 <= i < |platforms| && ToLower(platforms[i].0) == k
  }

  /** No platform after the one at `i` has its name. */
  predicate LastNamed(platforms: seq<(string, PlatformMapping)>, i: nat)
    requires i < |platforms|
  {
    forall j :: i < j < |platforms| ==> ToLower(platforms[j].0) != ToLower(platforms[i].0)
  }

  /** After registration each built-in platform is found under its name, and
      the templates loaded from disk keep every other name. */
  lemma DefaultsRegistered(m: map<string, PlatformMapping>)
    ensures var r := Registered(m, DefaultPlatforms);
      && r.Keys == m.Keys + {"wordpress", "ghost", "jekyll"}
      && r["wordpress"] == WordPress && r["ghost"] == Ghost && r["jekyll"] == Jekyll
      && forall k :: k in m && k !in {"wordpress", "ghost", "jekyll"} ==> r[k] == m[k]
  {
    DefaultItemTags();
    var p := DefaultPlatforms;
    assert RegisteredNames(p) == {"wordpress", "ghost", "jekyll"} by {
      assert ToLower(p[0].0) == "wordpress" && ToLower(p[1].0) == "ghost" && ToLower(p[2].0) == "jekyll";
    }
    assert LastNamed(p, 0) && LastNamed(p, 1) && LastNamed(p, 2);
    assert forall k :: RegistersName(p, k) ==> k in {"wordpress", "ghost", "jekyll"};
  }

  /** `convert` succeeds exactly when the input exists, a named platform (if
      any) loads, a mapping is current, the file parses, and the stream holds
      at least one post. */
  predicate ConvertSucceeds(inputExists: bool, platformLoads: bool, mapping: Option<PlatformMapping>,
                            items: Option<seq<Node>>)
    requires items.Some? ==> forall k :: 0 <= k < |items.value| ==> items.value[k].Element?
  {
    inputExists && platformLoads && mapping.Some? && items.Some?
    && StreamOf(mapping.value, items.value) != []
  }

  /** Each post formatted by `format_blog_post`, in order. */
  function FormattedRows(config: ConverterConfig, codec: ContentProcessor.HtmlCodec,
                         formatDate: (string, seq<string>) -> string, posts: seq<Record>): (r: seq<FramerFormatter.FramerRow>)
    ensures |r| == |posts|
    decreases |posts|
  {
    if posts == [] then []
    else
      FormattedRows(config, codec, formatDate, posts[..|posts| - 1])
        + [FramerFormatter.FormattedRow(config, codec, formatDate, posts[|posts| - 1])]
  }

  /** The rows as the dictionaries handed to validation. */
  function AsRows(framed: seq<FramerFormatter.FramerRow>): (r: seq<FramerFormatter.Row>)
    ensures |r| == |framed|
    ensures forall k :: 0 <= k < |framed| ==> r[k] == framed[k].AsRow()
    decreases |framed|
  {
    if framed == [] then [] else AsRows(framed[..|framed| - 1]) + [framed[|framed| - 1].AsRow()]
  }

  /** Rows produced by formatting always pass validation when there is at least one. */
  lemma FormattedRowsPass(framed: seq<FramerFormatter.FramerRow>)
    requires framed != []
    ensures FramerFormatter.CsvReportOf(AsRows(framed)).valid
  {
    FramerFormatter.FormattedRowsValid(framed, AsRows(framed));
  }

  lemma FormattedRowsSnoc(config: ConverterConfig, codec: ContentProcessor.HtmlCodec,
                          formatDate: (string, seq<string>) -> string, posts: seq<Record>, i: nat)
    requires i < |posts|
    ensures FormattedRows(config, codec, formatDate, posts[..i + 1])
         == FormattedRows(config, codec, formatDate, posts[..i])
            + [FramerFormatter.FormattedRow(config, codec, formatDate, posts[i])]
  {
    assert posts[..i + 1][..i] == posts[..i];
  }

  lemma AsRowsSnoc(framed: seq<FramerFormatter.FramerRow>, row: FramerFormatter.FramerRow)
    ensures AsRows(framed + [row]) == AsRows(framed) + [row.AsRow()]
  {
    assert (framed + [row])[..|framed|] == framed;
  }

  /** The formatting loop of `convert`. */
  method FormatPosts(config: ConverterConfig, codec: ContentProcessor.HtmlCodec,
                     formatDate: (string, seq<string>) -> string, posts: seq<Record>)
    returns (rows: seq<FramerFormatter.Row>)
    ensures rows == AsRows(FormattedRows(config, codec, formatDate, posts))
  {
    rows := [];
    ghost var framed: seq<FramerFormatter.FramerRow> := [];
    var i := 0;
    while i < |posts|
      invariant 0 <= i <= |posts|
      invariant framed == FormattedRows(config, codec, formatDate, posts[..i])
      invariant rows == AsRows(framed)
    {
      var formatted := FramerFormatter.FormatBlogPost(config, codec, formatDate, posts[i]);
      FormattedRowsSnoc(config, codec, formatDate, posts, i);
      AsRowsSnoc(framed, formatted);
      rows := rows + [formatted.AsRow()];
      framed := framed + [formatted];
      i := i + 1;
    }
    assert posts[..i] == posts;
  }

  class Converter {
    const manager: ConfigManager
    var currentPlatform: Option<string>
    var currentMapping: Option<PlatformMapping>

    ghost predicate Valid()
      reads this, manager
    {
      manager.Valid()
    }

    /** `FramerBlogConverter()`: the templates on disk, then the three
        built-in platforms registered over them; no platform loaded. */
    constructor (files: seq<TemplateFile>)
      ensures Valid()
      ensures manager.platforms == Registered(LoadedTemplates(map[], files), DefaultPlatforms)
      ensures manager.config == DefaultConverterConfig
      ensures currentPlatform == None && currentMapping == None
    {
      manager := new ConfigManager(files);
      currentPlatform := None;
      currentMapping := None;
      new;
      var i := 0;
      while i < |DefaultPlatforms|
        invariant 0 <= i <= |DefaultPlatforms|
        invariant manager.Valid() && manager.config == DefaultConverterConfig
        invariant manager.platforms == Registered(LoadedTemplates(map[], files), DefaultPlatforms[..i])
        invariant currentPlatform == None && currentMapping == None
      {
        RegisteredStep(LoadedTemplates(map[], files), DefaultPlatforms, i);
        manager.AddCustomMapping(DefaultPlatforms[i].0, DefaultPlatforms[i].1);
        i := i + 1;
      }
      assert DefaultPlatforms[..i] == DefaultPlatforms;
    }

    /** `load_platform_template`: on success the named platform becomes the
        current one; on failure nothing changes. */
    method LoadPlatformTemplate(platformName: string) returns (ok: bool)
      requires Valid()
      modifies this
      ensures Valid()
      ensures ok <==> manager.GetPlatformMapping(platformName).Some?
      ensures ok ==> currentPlatform == Some(platformName) && currentMapping == manager.GetPlatformMapping(platformName)
      ensures !ok ==> currentPlatform == old(currentPlatform) && currentMapping == old(currentMapping)
    {
      var mapping := manager.GetPlatformMapping(platformName);
      if mapping.Some? {
        currentPlatform := Some(platformName);
        currentMapping := mapping;
        return true;
      }
      return false;
    }

    /** A named platform, when `convert` gets as far as loading it, is found. */
    predicate Loads(inputExists: bool, platform: Option<string>)
      reads this, manager
    {
      inputExists && Named(platform) ==> manager.GetPlatformMapping(platform.value).Some?
    }

    /** `convert`. `items` stands for the elements the parser reports, None
        when the file is not well-formed XML (the parse error is caught and
        reported as failure); writing the CSV file is not modelled. */
    method Convert(inputExists: bool, platform: Option<string>, items: Option<seq<Node>>,
                   codec: ContentProcessor.HtmlCodec, formatDate: (string, seq<string>) -> string)
      returns (ok: bool)
      requires Valid()
      requires items.Some? ==> forall k :: 0 <= k < |items.value| ==> items.value[k].Element?
      modifies this
      ensures Valid()
      ensures ok == ConvertSucceeds(inputExists, Loads(inputExists, platform), currentMapping, items)
      ensures inputExists && Named(platform) && Loads(inputExists, platform) ==>
        currentPlatform == platform && currentMapping == manager.GetPlatformMapping(platform.value)
      ensures !(inputExists && Named(platform) && Loads(inputExists, platform)) ==>
        currentPlatform == old(currentPlatform) && currentMapping == old(currentMapping)
    {
      if !inputExists {
        return false;
      }
      if Named(platform) {
        var loaded := LoadPlatformTemplate(platform.value);
        if !loaded {
          return false;
        }
      }
      if currentMapping.None? || items.None? {
        return false;
      }
      var posts := ParseXmlStream(currentMapping.value, items.value);
      if posts == [] {
        return false;
      }
      var rows := FormatPosts(manager.config, codec, formatDate, posts);
      FormattedRowsPass(FormattedRows(manager.config, codec, formatDate, posts));
      var validation := FramerFormatter.ValidateCsvData(rows);
      if !validation.valid {
        return false;
      }
      return true;
    }
  }
}
