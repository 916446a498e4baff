/** The post dictionary the converter hands from extraction to formatting
    (framer_blog_converter/src/blog_converter.py, framer_formatter.py). */
module PostData {

  /** A value of the post dictionary: a string, a list of strings (categories,
      tags, date formats) or the platform's status vocabulary. */
  datatype Value =
    | Str(s: string)
    | Strs(items: seq<string>)
    | Vocabulary(entries: map<string, string>)

  type Record = map<string, Value>

  /** Python's truth value of a dictionary value. */
  predicate Truthy(v: Value) {
    match v
    case Str(s) => s != ""
    case Strs(items) => items != []
    case Vocabulary(entries) => entries != map[]
  }

  /** `post.get(key, '')` for a key holding a string; anything else reads as "". */
  function GetStr(post: Record, key: string): (r: string)
    ensures key in post && post[key].Str? ==> r == post[key].s
    ensures !(key in post && post[key].Str?) ==> r == ""
  {
    if key in post && post[key].Str? then post[key].s else ""
  }

  /** `post.get(key, [])`, with a lone string wrapped in a list as
      `format_blog_post` does for categories and tags. */
  function GetList(post: Record, key: string): (r: seq<string>)
    ensures key !in post ==> r == []
    ensures key in post && post[key].Str? ==> r == [post[key].s]
    ensures key in post && post[key].Strs? ==> r == post[key].items
  {
    if key !in post then []
    else match post[key]
      case Str(s) => [s]
      case Strs(items) => items
      case Vocabulary(_) => []
  }

  /** `post.get(key, {})` for the status vocabulary. */
  function GetVocabulary(post: Record, key: string): (r: map<string, string>)
    ensures key in post && post[key].Vocabulary? ==> r == post[key].entries
    ensures !(key in post && post[key].Vocabulary?) ==> r == map[]
  {
    if key in post && post[key].Vocabulary? then post[key].entries else map[]
  }
}
