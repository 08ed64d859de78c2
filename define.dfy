/**
 * The constant tables of define.js: the two tag kinds and the index each one
 * has into the tables, the markup that wraps an inlined file, and the name of
 * the attribute that holds the referenced file's name.
 */
module Define {

  /** The two kinds of reference tag: `<link …>` (a stylesheet) and `<script …>`. */
  datatype TagKind = Link | Script

  /** TAG_LINK and TAG_SCRIPT: the kinds as indices into the tables below. */
  const TAG_LINK: nat := 0
  const TAG_SCRIPT: nat := 1

  /** TAG_START and TAG_END: the markup placed around an inlined file, by index. */
  const TAG_START: seq<string> := ["<style>", "<script>"]
  const TAG_END: seq<string> := ["</style>", "<" + "/script>"]

  /**
   * ATTR_PATTERN is `name="[^"]*"` with `name` taken from this table by index:
   * `href` for links and `src` for scripts, double-quoted values only.
   */
  const ATTR_NAME: seq<string> := ["href", "src"]

  /** The index of a kind; the only indices the tables are ever read at. */
  function Index(k: TagKind): (i: nat)
    ensures i < |TAG_START| && i < |TAG_END| && i < |ATTR_NAME|
    ensures i == TAG_LINK <==> k == Link
    ensures i == TAG_SCRIPT <==> k == Script
  {
    match k
    case Link => TAG_LINK
    case Script => TAG_SCRIPT
  }

  /** The replacement text for one inlined file: the table's start markup, the file, the end markup. */
  function Wrap(k: TagKind, payload: string): (r: string)
    ensures k == Link ==> r == "<style>" + payload + "</style>"
    ensures k == Script ==> r == "<script>" + payload + "</script>"
    ensures |r| == |TAG_START[Index(k)]| + |payload| + |TAG_END[Index(k)]|
  {
    TAG_START[Index(k)] + payload + TAG_END[Index(k)]
  }

  /** The literal text that opens ATTR_PATTERN for a kind: the attribute name, `=` and a double quote. */
  function AttrOpener(k: TagKind): (r: string)
    ensures k == Link ==> r == "href=\""
    ensures k == Script ==> r == "src=\""
    ensures '"' in r && r[|r| - 1] == '"' && '"' !in r[..|r| - 1]
  {
    ATTR_NAME[Index(k)] + "=\""
  }
}
