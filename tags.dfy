/**
 * getTags and getFileNames (main.js:53-106): the reference tags of a source
 * document, and the file name each one refers to.
 */
module Tags {
  import opened Define
  import opened Matching

  /** One `{data, type}` record of getTags: the matched tag text and its kind. */
  datatype Tag = Tag(data: string, kind: TagKind)

  /** The pattern getTags finds tags of a kind with. */
  function TagPattern(k: TagKind): Pattern
  {
    match k
    case Link => LinkTag
    case Script => ScriptTag
  }

  /** The records pushed for a list of matched texts of one kind. */
  function Tagged(texts: seq<string>, k: TagKind): (r: seq<Tag>)
    ensures |r| == |texts|
  {
    if texts == [] then [] else [Tag(texts[0], k)] + Tagged(texts[1..], k)
  }

  /** Record i holds text i. */
  lemma {:induction false} TaggedAt(texts: seq<string>, k: TagKind, i: nat)
    requires i < |texts|
    ensures Tagged(texts, k)[i] == Tag(texts[i], k)
  {
    if i > 0 {
      TaggedAt(texts[1..], k, i - 1);
    }
  }

  /** One more text pushes one more record. */
  lemma {:induction false} TaggedAppend(texts: seq<string>, t: string, k: TagKind)
    ensures Tagged(texts + [t], k) == Tagged(texts, k) + [Tag(t, k)]
  {
    if texts == [] {
      assert [] + [t] == [t];
    } else {
      assert (texts + [t])[1..] == texts[1..] + [t];
      TaggedAppend(texts[1..], t, k);
    }
  }

  /** What getTags returns: every `<link` match, then every `<script` match. */
  function TagsOf(src: string): seq<Tag>
  {
    Tagged(MatchAll(LinkTag, src), Link) + Tagged(MatchAll(ScriptTag, src), Script)
  }

  /** getTags: push a record per link match, then a record per script match. */
  method GetTags(src: string) returns (tags: seq<Tag>)
    ensures tags == TagsOf(src)
  {
    tags := [];
    var linkTags := MatchAll(LinkTag, src);
    for i := 0 to |linkTags|
      invariant tags == Tagged(linkTags[..i], Link)
    {
      TaggedAppend(linkTags[..i], linkTags[i], Link);
      assert linkTags[..i + 1] == linkTags[..i] + [linkTags[i]];
      tags := tags + [Tag(linkTags[i], Link)];
    }
    assert linkTags[..|linkTags|] == linkTags;
    var scriptTags := MatchAll(ScriptTag, src);
    for i := 0 to |scriptTags|
      invariant tags == Tagged(linkTags, Link) + Tagged(scriptTags[..i], Script)
    {
      TaggedAppend(scriptTags[..i], scriptTags[i], Script);
      assert scriptTags[..i + 1] == scriptTags[..i] + [scriptTags[i]];
      tags := tags + [Tag(scriptTags[i], Script)];
    }
    assert scriptTags[..|scriptTags|] == scriptTags;
  }

  /** The tags of a source, read by index: the link matches, then the script matches. */
  lemma TagAt(src: string, k: nat)
    requires k < |TagsOf(src)|
    ensures var links := Spans(LinkTag, src, 0);
      k < |links| ==> TagsOf(src)[k] == Tag(src[links[k].start..links[k].end], Link)
    ensures var links, scripts := Spans(LinkTag, src, 0), Spans(ScriptTag, src, 0);
      |links| <= k ==> (k - |links| < |scripts| &&
                        TagsOf(src)[k] == Tag(src[scripts[k - |links|].start..scripts[k - |links|].end], Script))
  {
    var links, scripts := MatchAll(LinkTag, src), MatchAll(ScriptTag, src);
    MatchAllSpans(LinkTag, src);
    MatchAllSpans(ScriptTag, src);
    if k < |links| {
      TaggedAt(links, Link, k);
    } else {
      TaggedAt(scripts, Script, k - |links|);
    }
  }

  /** getTags returns every link match before every script match. */
  lemma LinksBeforeScripts(src: string, i: nat, j: nat)
    requires i < j < |TagsOf(src)| && TagsOf(src)[i].kind == Script
    ensures TagsOf(src)[j].kind == Script
  {
    TagAt(src, i);
    TagAt(src, j);
  }

  /**
   * Every tag is the text of a match of its kind's pattern, found at position
   * `a` of the source.
   */
  lemma TagPosition(src: string, k: nat) returns (a: nat)
    requires k < |TagsOf(src)|
    ensures var t := TagsOf(src)[k];
      && a + |t.data| <= |src| && src[a..a + |t.data|] == t.data
      && MatchAt(TagPattern(t.kind), src, a) == Some(a + |t.data|)
  {
    var sp, p, idx := TagSpan(src, k);
    SpanMatchesAt(p, src, idx);
    a := sp.start;
  }


  /** Span k of a global search is the match at its start. */
  lemma SpanMatchesAt(p: Pattern, s: string, k: nat)
    requires Progressing(p) && k < |Spans(p, s, 0)|
    ensures MatchAt(p, s, Spans(p, s, 0)[k].start) == Some(Spans(p, s, 0)[k].end)
  {
    SpansMatch(p, s, 0);
  }

  /** An earlier span of a global search ends before a later one starts. */
  lemma SpanBefore(p: Pattern, s: string, i: nat, j: nat)
    requires Progressing(p) && i < j < |Spans(p, s, 0)|
    ensures Spans(p, s, 0)[i].end <= Spans(p, s, 0)[j].start
  {
    SpansOrdered(p, s, 0);
  }

  /**
   * The span of the source the search reported for entry `k` of getTags:
   * link span k, or script span k minus the number of links.
   */
  function ReadSpan(src: string, k: nat): Span
    requires k < |TagsOf(src)|
  {
    var n := |Spans(LinkTag, src, 0)|;
    if k < n then Spans(LinkTag, src, 0)[k] else Spans(ScriptTag, src, 0)[k - n]
  }

  /**
   * Tag `k` was read from span `idx` of its kind's search: the link tags
   * are numbered from 0, the script tags after the last link tag.
   */
  lemma TagSpan(src: string, k: nat) returns (sp: Span, p: Pattern, idx: nat)
    requires k < |TagsOf(src)|
    ensures p == TagPattern(TagsOf(src)[k].kind)
    ensures idx < |Spans(p, src, 0)| && sp == Spans(p, src, 0)[idx]
    ensures sp.start < sp.end <= |src| && TagsOf(src)[k].data == src[sp.start..sp.end]
    ensures idx + (if p == LinkTag then 0 else |Spans(LinkTag, src, 0)|) == k
  {
    TagAt(src, k);
    var n := |Spans(LinkTag, src, 0)|;
    if k < n {
      p, idx := LinkTag, k;
    } else {
      p, idx := ScriptTag, k - n;
    }
    sp := Spans(p, src, 0)[idx];
  }

  /**
   * Within each kind the tags follow the source from left to right and do
   * not overlap: the match an earlier tag was read from ends before the match
   * of a later tag of its kind starts.
   */
  lemma TagsInSourceOrder(src: string, i: nat, j: nat) returns (ai: nat, aj: nat)
    requires i < j < |TagsOf(src)| && TagsOf(src)[i].kind == TagsOf(src)[j].kind
    ensures ai == ReadSpan(src, i).start && aj == ReadSpan(src, j).start
    ensures var di, dj := TagsOf(src)[i].data, TagsOf(src)[j].data;
      && ai + |di| <= aj && aj + |dj| <= |src|
      && src[ai..ai + |di|] == di && src[aj..aj + |dj|] == dj
  {
    var si, sj := ReadSpan(src, i), ReadSpan(src, j);
    ReadSpansOrdered(src, i, j);
    ReadSpanText(src, i);
    ReadSpanText(src, j);
    ai, aj := si.start, sj.start;
  }

  /** Of two entries of one kind, the earlier one's span ends before the later one's starts. */
  lemma ReadSpansOrdered(src: string, i: nat, j: nat)
    requires i < j < |TagsOf(src)| && TagsOf(src)[i].kind == TagsOf(src)[j].kind
    ensures ReadSpan(src, i).end <= ReadSpan(src, j).start
  {
    var n := |Spans(LinkTag, src, 0)|;
    KindSplit(src, i);
    KindSplit(src, j);
    if i < n {
      SpanBefore(LinkTag, src, i, j);
    } else {
      SpanBefore(ScriptTag, src, i - n, j - n);
    }
  }

  /** Entry `k` is a link exactly when it is among the link matches; otherwise it is a script match. */
  lemma KindSplit(src: string, k: nat)
    requires k < |TagsOf(src)|
    ensures var n := |Spans(LinkTag, src, 0)|;
      && (TagsOf(src)[k].kind == Link <==> k < n)
      && (n <= k ==> k - n < |Spans(ScriptTag, src, 0)|)
  {
    TagAt(src, k);
  }

  /** The text of entry `k` is the text of its span. */
  lemma ReadSpanText(src: string, k: nat)
    requires k < |TagsOf(src)|
    ensures var sp, d := ReadSpan(src, k), TagsOf(src)[k].data;
      sp.start + |d| == sp.end <= |src| && src[sp.start..sp.start + |d|] == d
  {
    var sp, _, _ := TagSpan(src, k);
    assert sp == ReadSpan(src, k);
  }

  /** `<link`, then no `>` until the `>` that ends the text. */
  predicate LinkShaped(d: string)
  {
    |d| > 5 && d[..5] == "<link" && d[|d| - 1] == '>' && forall j :: 5 <= j < |d| - 1 ==> d[j] != '>'
  }

  /**
   * `<script`, then no `>` until the `>` at `q - 1` that ends the start tag;
   * then either nothing, or a body without `<` and `</script>`.
   */
  predicate ScriptShaped(d: string, q: nat)
  {
    && |d| > 7 && d[..7] == "<script"
    && 7 < q <= |d| && d[q - 1] == '>' && (forall j :: 7 <= j < q - 1 ==> d[j] != '>')
    && (q == |d| || (q + 9 <= |d| && d[|d| - 9..] == "</script>" &&
                     forall j :: q <= j < |d| - 9 ==> d[j] != '<'))
  }

  /**
   * A link entry starts with `<link` (lower case: matching is case-sensitive)
   * and ends at the first `>` after it.
   */
  lemma LinkTagShape(src: string, k: nat)
    requires k < |TagsOf(src)| && TagsOf(src)[k].kind == Link
    ensures LinkShaped(TagsOf(src)[k].data)
  {
    var a := TagPosition(src, k);
    LinkTextShape(src, a, a + |TagsOf(src)[k].data|);
  }

  /** The shape of a link match `s[a..z]`. */
  lemma LinkTextShape(s: string, a: nat, z: nat)
    requires MatchAt(LinkTag, s, a) == Some(z)
    ensures LinkShaped(s[a..z])
  {
    var d := s[a..z];
    assert d[..5] == s[a..a + 5];
    forall j | 5 <= j < |d| - 1 ensures d[j] != '>' {
      assert d[j] == s[a + j];
    }
  }

  /**
   * A script entry starts with `<script` and its start tag ends at the first
   * `>` after that, at `q`; either the entry ends there, or it goes on through
   * a body without `<` and ends with `</script>` (ScriptEndIff says when).
   */
  lemma ScriptTagShape(src: string, k: nat) returns (q: nat)
    requires k < |TagsOf(src)| && TagsOf(src)[k].kind == Script
    ensures ScriptShaped(TagsOf(src)[k].data, q)
  {
    var d := TagsOf(src)[k].data;
    var a := TagPosition(src, k);
    assert TagPattern(Script) == ScriptTag;
    q := ScriptTextShape(src, a, a + |d|);
    assert src[a..a + |d|] == d;
  }

  /** The shape of a script match `s[a..z]`. */
  lemma ScriptTextShape(s: string, a: nat, z: nat) returns (q: nat)
    requires MatchAt(ScriptTag, s, a) == Some(z)
    ensures ScriptShaped(s[a..z], q)
  {
    var e := ClosedRunAt(s, a, "<script", '>').value;
    ScriptEndShape(s, e);
    var d := s[a..z];
    q := e - a;
    assert |d| > 7 && d[..7] == "<script" by {
      assert d[..7] == s[a..a + 7];
    }
    assert 7 < q <= |d| && d[q - 1] == '>' by {
      assert d[q - 1] == s[e - 1];
    }
    forall j | 7 <= j < q - 1 ensures d[j] != '>' {
      assert d[j] == s[a + j];
    }
    if q < |d| {
      assert q + 9 <= |d|;
      assert d[|d| - 9..] == "</script>" by {
        assert d[|d| - 9..] == s[z - 9..z];
      }
      forall j | q <= j < |d| - 9 ensures d[j] != '<' {
        assert d[j] == s[a + j];
      }
    }
  }

  /** Every tag is non-empty, so it can serve as a replacement pattern. */
  predicate NonEmptyTags(tags: seq<Tag>)
  {
    forall k :: 0 <= k < |tags| ==> tags[k].data != []
  }

  lemma TagsNonEmpty(src: string)
    ensures NonEmptyTags(TagsOf(src))
  {
    forall k | 0 <= k < |TagsOf(src)| ensures TagsOf(src)[k].data != [] {
      TagAt(src, k);
    }
  }

  /** A source without `<link` and without `<script` has no tags. */
  lemma NoOpenersNoTags(src: string)
    requires forall j: nat :: !HasAt(src, j, "<link") && !HasAt(src, j, "<script")
    ensures TagsOf(src) == []
  {
    NoMatchNoSpans(LinkTag, src, 0);
    NoMatchNoSpans(ScriptTag, src, 0);
  }

  /** The upper-case `<LINK>` is not a link tag. */
  lemma UpperCaseLinkIgnored()
    ensures TagsOf("<LINK>") == []
  {
    var src := "<LINK>";
    forall j: nat ensures !HasAt(src, j, "<link") && !HasAt(src, j, "<script") {
      if j + 5 <= |src| {
        assert src[j..j + 5][1] == src[j + 1];
      }
    }
    NoOpenersNoTags(src);
  }

  // ---------------------------------------------------------------------
  // getFileNames

  /** What getFileNames does with one tag: skip it, take a name, or throw. */
  datatype NameResult = Skip | Name(value: string) | Throw

  /** The characters JavaScript's `.` does not match. */
  predicate LineTerminator(c: char)
  {
    c == '\n' || c == '\r' || c == '\U{2028}' || c == '\U{2029}'
  }

  /**
   * `(?<=").*(?=")` on a quoted value `"v"`: the text between the quotes, or
   * no match (and so a TypeError on `url[0]`) when `.` cannot cross a line
   * terminator inside it.
   */
  function UrlOf(quoted: string): NameResult
  {
    if |quoted| >= 2 && forall j :: 1 <= j < |quoted| - 1 ==> !LineTerminator(quoted[j])
    then Name(quoted[1..|quoted| - 1])
    else Throw
  }

  /**
   * The body of getFileNames' loop for one tag: the first ATTR_PATTERN match,
   * the first quoted string in it, and the text between its quotes.
   */
  function NameOf(t: Tag): NameResult
  {
    var attr := MatchAll(Attr(t.kind), t.data);
    if attr == [] then Skip
    else
      var quot := MatchAll(Quoted, attr[0]);
      if quot == [] then Throw else UrlOf(quot[0])
  }

  /** The first quoted string of `opener + v + "`, with `v` free of quotes, is `"v"`. */
  lemma FirstQuoted(k: TagKind, v: string)
    requires '"' !in v
    ensures var a := AttrOpener(k) + v + "\"";
      MatchAll(Quoted, a) != [] && MatchAll(Quoted, a)[0] == "\"" + v + "\""
  {
    var op := AttrOpener(k);
    var a := op + v + "\"";
    var q := |op| - 1;
    NoQuoteInOpener(k, v);
    QuotedValue(op, v);
    MatchFirst(Quoted, a, q);
    assert a[q..|a|] == "\"" + v + "\"";
  }

  /** No quoted string starts inside the attribute name of `opener + v + "`. */
  lemma NoQuoteInOpener(k: TagKind, v: string)
    ensures var op := AttrOpener(k); var a := op + v + "\"";
      forall j :: 0 <= j < |op| - 1 ==> MatchAt(Quoted, a, j).None?
  {
    var op := AttrOpener(k);
    var a := op + v + "\"";
    forall j | 0 <= j < |op| - 1 ensures MatchAt(Quoted, a, j).None? {
      assert a[j] == op[j];
      assert op[j] in op[..|op| - 1];
      assert a[j..j + 1][0] == a[j];
      assert !HasAt(a, j, "\"");
    }
  }

  /** The quote that ends an opener starts a quoted string running to the closing quote. */
  lemma QuotedValue(op: string, v: string)
    requires |op| > 0 && op[|op| - 1] == '"' && '"' !in v
    ensures var a := op + v + "\""; MatchAt(Quoted, a, |op| - 1) == Some(|a|)
  {
    var a := op + v + "\"";
    var q := |op| - 1;
    assert a[q..q + 1] == "\"";
    forall j | q + 1 <= j < |a| - 1 ensures a[j] != '"' {
      assert a[j] == v[j - q - 1];
    }
    assert a[|a| - 1] == '"';
    assert FindChar(a, q + 1, '"') == Some(|a| - 1);
  }

  /** The attribute match of a tag that starts at `a` and is the first one. */
  predicate FirstAttrAt(t: Tag, a: nat)
  {
    MatchAt(Attr(t.kind), t.data, a).Some? &&
    forall b :: 0 <= b < a ==> MatchAt(Attr(t.kind), t.data, b).None?
  }

  /**
   * The first attribute match of a tag that has one: `opener + v + "` at
   * position `a`, with no quote inside `v`.
   */
  lemma FirstAttr(t: Tag) returns (a: nat, v: string)
    requires MatchAll(Attr(t.kind), t.data) != []
    ensures FirstAttrAt(t, a) && HasAt(t.data, a, AttrOpener(t.kind) + v + "\"") && '"' !in v
    ensures MatchAll(Attr(t.kind), t.data)[0] == AttrOpener(t.kind) + v + "\""
  {
    var e;
    a, e := FirstMatch(Attr(t.kind), t.data);
    v := AttrValue(t.data, a, e, AttrOpener(t.kind));
  }

  /** An attribute match is the opener, a value without quotes, and the closing quote. */
  lemma AttrValue(d: string, a: nat, e: nat, op: string) returns (v: string)
    requires ClosedRunAt(d, a, op, '"') == Some(e)
    ensures d[a..e] == op + v + "\"" && '"' !in v
  {
    v := d[a + |op|..e - 1];
    assert '"' !in v by {
      forall j | 0 <= j < |v| ensures v[j] != '"' {
        assert v[j] == d[a + |op| + j];
      }
    }
    SplitRun(d, a, e, op);
  }

  /** A run that opens with `op` and closes with a quote is `op`, its inside and the quote. */
  lemma SplitRun(d: string, a: nat, e: nat, op: string)
    requires a + |op| < e <= |d| && d[a..a + |op|] == op && d[e - 1] == '"'
    ensures d[a..e] == op + d[a + |op|..e - 1] + "\""
  {
    assert d[a..e] == d[a..a + |op|] + d[a + |op|..e - 1] + d[e - 1..e];
  }

  /**
   * What getFileNames makes of a tag: it is skipped exactly when it has no
   * `href="…"` (link) or `src="…"` (script); otherwise the name is the text
   * between the quotes of the first such attribute, so it has no `"`; and it
   * throws exactly when that text holds a line terminator.
   */
  lemma NameOfMeaning(t: Tag)
    ensures NameOf(t).Skip? <==> forall a: nat :: MatchAt(Attr(t.kind), t.data, a).None?
    ensures NameOf(t).Name? ==> var v := NameOf(t).value;
      && '"' !in v && (forall j :: 0 <= j < |v| ==> !LineTerminator(v[j]))
      && exists a: nat :: FirstAttrAt(t, a) && HasAt(t.data, a, AttrOpener(t.kind) + v + "\"")
    ensures NameOf(t).Throw? ==>
      exists a: nat, v: string :: FirstAttrAt(t, a) && HasAt(t.data, a, AttrOpener(t.kind) + v + "\"") &&
                                  '"' !in v && exists j :: 0 <= j < |v| && LineTerminator(v[j])
  {
    var p := Attr(t.kind);
    if MatchAll(p, t.data) == [] {
      NoAttrSkipped(t);
    } else {
      var a, v := NameOfFirst(t);
      UrlOfQuoted(v);
    }
  }

  /** A tag with no attribute match anywhere is exactly one getFileNames skips. */
  lemma NoAttrSkipped(t: Tag)
    requires MatchAll(Attr(t.kind), t.data) == []
    ensures forall a: nat :: MatchAt(Attr(t.kind), t.data, a).None?
  {
    var p := Attr(t.kind);
    forall a: nat ensures MatchAt(p, t.data, a).None? {
      if MatchAt(p, t.data, a).Some? {
        var _ := SpansComplete(p, t.data, 0, a);
      }
    }
  }

  /** A tag with an attribute match: its result is that of the quoted value of the first one. */
  lemma NameOfFirst(t: Tag) returns (a: nat, v: string)
    requires MatchAll(Attr(t.kind), t.data) != []
    ensures FirstAttrAt(t, a) && HasAt(t.data, a, AttrOpener(t.kind) + v + "\"") && '"' !in v
    ensures NameOf(t) == UrlOf("\"" + v + "\"")
  {
    a, v := FirstAttr(t);
    FirstQuoted(t.kind, v);
  }

  /** The value between two quotes is read back, unless `.` cannot cross it. */
  lemma UrlOfQuoted(v: string)
    ensures UrlOf("\"" + v + "\"") == if forall j :: 0 <= j < |v| ==> !LineTerminator(v[j]) then Name(v) else Throw
  {
    var quoted := "\"" + v + "\"";
    assert quoted[1..|quoted| - 1] == v;
    forall j | 1 <= j < |quoted| - 1 ensures quoted[j] == v[j - 1] { }
  }

  /** Names appended in front of the names of the later tags. */
  function Prepend(r: NameResult, rest: Option<seq<string>>): Option<seq<string>>
  {
    match (r, rest)
    case (Throw, _) => None
    case (_, None) => None
    case (Skip, Some(ns)) => Some(ns)
    case (Name(v), Some(ns)) => Some([v] + ns)
  }

  /**
   * The names getFileNames collects from the per-tag results from index
   * `from` on: the names in order, or None when one of them throws.
   */
  function Collect(rs: seq<NameResult>, from: nat): Option<seq<string>>
    decreases |rs| - from
  {
    if from >= |rs| then Some([])
    else Prepend(rs[from], Collect(rs, from + 1))
  }

  /** The result of getFileNames' loop body for every tag. */
  function Results(tags: seq<Tag>): (rs: seq<NameResult>)
    ensures |rs| == |tags|
  {
    seq(|tags|, k requires 0 <= k < |tags| => NameOf(tags[k]))
  }

  /** What getFileNames returns: the names in tag order, or None when it throws. */
  function FileNamesOf(tags: seq<Tag>): Option<seq<string>>
  {
    Collect(Results(tags), 0)
  }

  /** Joins the names found so far with the names of the remaining tags. */
  function Join(done: seq<string>, rest: Option<seq<string>>): Option<seq<string>>
  {
    match rest
    case None => None
    case Some(ns) => Some(done + ns)
  }

  /** getFileNames: a pass over the tags that pushes each name found. */
  method GetFileNames(tags: seq<Tag>) returns (names: Option<seq<string>>)
    ensures names == FileNamesOf(tags)
  {
    ghost var rs := Results(tags);
    var filenames: seq<string> := [];
    assert Join(filenames, Collect(rs, 0)) == Collect(rs, 0) by {
      if Collect(rs, 0).Some? {
        assert filenames + Collect(rs, 0).value == Collect(rs, 0).value;
      }
    }
    for i := 0 to |tags|
      invariant Collect(rs, 0) == Join(filenames, Collect(rs, i))
    {
      var r := NameOf(tags[i]);
      assert r == rs[i];
      match r
      case Throw =>
        return None;
      case Skip =>
      case Name(v) =>
        if Collect(rs, i + 1).Some? {
          var tail := Collect(rs, i + 1).value;
          assert filenames + [v] + tail == filenames + ([v] + tail);
        }
        filenames := filenames + [v];
    }
    assert filenames + [] == filenames;
    names := Some(filenames);
  }

  /** The indices from `from` on whose result is a name. */
  ghost function NamedIndices(rs: seq<NameResult>, from: nat): seq<nat>
    decreases |rs| - from
  {
    if from >= |rs| then []
    else (if rs[from].Name? then [from] else []) + NamedIndices(rs, from + 1)
  }

  /** getFileNames throws exactly when the loop body throws for one of the tags. */
  lemma {:induction false} CollectDefined(rs: seq<NameResult>, from: nat)
    ensures Collect(rs, from).Some? <==> forall k :: from <= k < |rs| ==> !rs[k].Throw?
    decreases |rs| - from
  {
    if from < |rs| {
      CollectDefined(rs, from + 1);
    }
  }

  /** Each index lies at or after `from` plus its place and is a name. */
  predicate NamedAfter(rs: seq<NameResult>, from: nat, idx: seq<nat>)
  {
    forall m :: 0 <= m < |idx| ==> from + m <= idx[m] < |rs| && rs[idx[m]].Name?
  }

  /** The indices rise strictly. */
  predicate Rising(idx: seq<nat>)
  {
    forall m, m' :: 0 <= m < m' < |idx| ==> idx[m] < idx[m']
  }

  /** The named indices from `from` on lie after `from` and each one is a name. */
  lemma {:induction false} NamedIndicesAfter(rs: seq<NameResult>, from: nat)
    ensures NamedAfter(rs, from, NamedIndices(rs, from))
    decreases |rs| - from
  {
    if from < |rs| {
      NamedIndicesAfter(rs, from + 1);
      var idx, rest := NamedIndices(rs, from), NamedIndices(rs, from + 1);
      if rs[from].Name? {
        assert idx == [from] + rest;
        forall m | 1 <= m < |idx| ensures from + m <= idx[m] < |rs| && rs[idx[m]].Name? {
          assert idx[m] == rest[m - 1];
        }
      } else {
        assert idx == rest;
      }
    }
  }

  /** The named indices rise strictly. */
  lemma {:induction false} NamedIndicesRise(rs: seq<NameResult>, from: nat)
    ensures Rising(NamedIndices(rs, from))
    decreases |rs| - from
  {
    if from < |rs| {
      NamedIndicesRise(rs, from + 1);
      NamedIndicesAfter(rs, from + 1);
      var idx, rest := NamedIndices(rs, from), NamedIndices(rs, from + 1);
      if rs[from].Name? {
        assert idx == [from] + rest;
        forall m, m' | 0 <= m < m' < |idx| ensures idx[m] < idx[m'] {
          assert idx[m'] == rest[m' - 1];
          if m > 0 {
            assert idx[m] == rest[m - 1];
          }
        }
      } else {
        assert idx == rest;
      }
    }
  }

  /** Every index from `from` on whose result is a name is among the named indices. */
  lemma {:induction false} NamedIndicesComplete(rs: seq<NameResult>, from: nat)
    ensures forall k :: from <= k < |rs| && rs[k].Name? ==> k in NamedIndices(rs, from)
    decreases |rs| - from
  {
    if from < |rs| {
      NamedIndicesComplete(rs, from + 1);
    }
  }

  /** Name m of the collected names is the name of the m-th named index. */
  lemma {:induction false} CollectNames(rs: seq<NameResult>, from: nat)
    requires Collect(rs, from).Some?
    ensures var ns, idx := Collect(rs, from).value, NamedIndices(rs, from);
      |ns| == |idx| && forall m :: 0 <= m < |idx| ==> idx[m] < |rs| && rs[idx[m]] == Name(ns[m])
    decreases |rs| - from
  {
    if from < |rs| {
      CollectNames(rs, from + 1);
      var ns, tail := Collect(rs, from).value, Collect(rs, from + 1).value;
      var idx, rest := NamedIndices(rs, from), NamedIndices(rs, from + 1);
      if rs[from].Name? {
        assert ns == [rs[from].value] + tail;
        assert idx == [from] + rest;
        forall m | 1 <= m < |idx| ensures idx[m] < |rs| && rs[idx[m]] == Name(ns[m]) {
          assert idx[m] == rest[m - 1] && ns[m] == tail[m - 1];
        }
      } else {
        assert ns == tail && idx == rest;
      }
    }
  }

  /**
   * getFileNames emits one name per tag that has the attribute, in tag order,
   * and skips the others: name m comes from tag NamedIndices[m], those
   * indices rise, and tag k is among them exactly when it yields a name.
   * Equal tags give equal names, each one kept.
   */
  lemma CollectFollowsTags(rs: seq<NameResult>, from: nat)
    requires from <= |rs| && Collect(rs, from).Some?
    ensures |Collect(rs, from).value| == |NamedIndices(rs, from)| <= |rs| - from
    ensures var ns, idx := Collect(rs, from).value, NamedIndices(rs, from);
      forall m :: 0 <= m < |idx| ==> from + m <= idx[m] < |rs| && rs[idx[m]] == Name(ns[m])
    ensures var idx := NamedIndices(rs, from);
      forall m, m' :: 0 <= m < m' < |idx| ==> idx[m] < idx[m']
    ensures forall k :: from <= k < |rs| && rs[k].Name? ==> k in NamedIndices(rs, from)
  {
    NamedIndicesAfter(rs, from);
    NamedIndicesRise(rs, from);
    NamedIndicesComplete(rs, from);
    CollectNames(rs, from);
    var idx := NamedIndices(rs, from);
    if |idx| > 0 {
      assert from + (|idx| - 1) <= idx[|idx| - 1] < |rs|;
    }
    assert NamedAfter(rs, from, idx) && Rising(idx);
  }

  /**
   * When some tag has no attribute there are fewer names than tags, so name m
   * and tag m (the tag that file m replaces) can be different references.
   */
  lemma {:induction false} SkippedTagShortensNames(rs: seq<NameResult>, from: nat, k: nat)
    requires from <= k < |rs| && rs[k].Skip? && Collect(rs, from).Some?
    ensures |Collect(rs, from).value| < |rs| - from
    decreases |rs| - from
  {
    if from < k {
      SkippedTagShortensNames(rs, from + 1, k);
    } else {
      CollectFollowsTags(rs, from + 1);
    }
  }

  /**
   * A skipped tag before a named tag `j` moves tag j's name to an earlier
   * place `m < j` in the list of names, so the file chosen for name m (which
   * the handler pairs with tag m) is not the file tag j refers to.
   */
  lemma NameMovesUpAfterSkip(rs: seq<NameResult>, k: nat, j: nat) returns (m: nat)
    requires k < j < |rs| && rs[k].Skip? && rs[j].Name? && Collect(rs, 0).Some?
    ensures m < j && m < |Collect(rs, 0).value| && Collect(rs, 0).value[m] == rs[j].value
  {
    m := NamedBelow(rs, 0, k, j);
    CollectNames(rs, 0);
  }

  /** Tag j's place among the named indices from `from` on is below j - from when a skip lies between. */
  lemma {:induction false} NamedBelow(rs: seq<NameResult>, from: nat, k: nat, j: nat) returns (m: nat)
    requires from <= k < j < |rs| && rs[k].Skip? && rs[j].Name?
    ensures m < j - from && m < |NamedIndices(rs, from)| && NamedIndices(rs, from)[m] == j
    decreases k - from
  {
    var idx, rest := NamedIndices(rs, from), NamedIndices(rs, from + 1);
    if from == k {
      assert idx == rest;
      NamedIndicesComplete(rs, from + 1);
      NamedIndicesAfter(rs, from + 1);
      m :| 0 <= m < |rest| && rest[m] == j;
    } else {
      var m' := NamedBelow(rs, from + 1, k, j);
      if rs[from].Name? {
        assert idx == [from] + rest;
        m := m' + 1;
        assert idx[m] == rest[m'];
      } else {
        assert idx == rest;
        m := m';
      }
    }
  }

  /** No file name holds a double quote or a line terminator. */
  lemma FileNamesUnquoted(tags: seq<Tag>)
    requires FileNamesOf(tags).Some?
    ensures forall n :: n in FileNamesOf(tags).value ==>
      '"' !in n && forall j :: 0 <= j < |n| ==> !LineTerminator(n[j])
  {
    var rs := Results(tags);
    CollectFollowsTags(rs, 0);
    var ns := FileNamesOf(tags).value;
    var idx := NamedIndices(rs, 0);
    forall n | n in ns ensures '"' !in n && forall j :: 0 <= j < |n| ==> !LineTerminator(n[j]) {
      var m :| 0 <= m < |ns| && ns[m] == n;
      NameOfMeaning(tags[idx[m]]);
    }
  }
}
