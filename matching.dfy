/**
 * The regular expressions of main.js and define.js as scanners over strings.
 *
 * Each pattern is tried at one position by MatchAt, which gives the end of the
 * match JavaScript's backtracking engine finds there (all of these patterns
 * are greedy runs of one excluded character, so that match is unique).
 * Spans is what `String.prototype.match` does with the `g` flag: it tries the
 * pattern at every position from left to right, and after a match it goes on
 * from the end of that match, so the matches it reports never overlap.
 */
module Matching {
  import opened Define

  datatype Option<T> = None | Some(value: T)

  /** One match: the text from `start` up to, not including, `end`. */
  datatype Span = Span(start: nat, end: nat)

  /** `p` occurs in `s` at position `i`. */
  predicate HasAt(s: string, i: nat, p: string)
  {
    i + |p| <= |s| && s[i..i + |p|] == p
  }

  /** The first position at or after `from` that holds `c`. */
  function FindChar(s: string, from: nat, c: char): (r: Option<nat>)
    decreases |s| - from
    ensures r.Some? ==> from <= r.value < |s| && s[r.value] == c
    ensures forall j :: from <= j < |s| && (r.None? || j < r.value) ==> s[j] != c
  {
    if from >= |s| then None
    else if s[from] == c then Some(from)
    else FindChar(s, from + 1, c)
  }

  /** The first position at or after `from` where `p` occurs. */
  function FindText(s: string, from: nat, p: string): (r: Option<nat>)
    decreases |s| - from
    ensures r.Some? ==> from <= r.value && HasAt(s, r.value, p)
    ensures forall j :: from <= j && (r.None? || j < r.value) ==> !HasAt(s, j, p)
  {
    if from + |p| > |s| then None
    else if HasAt(s, from, p) then Some(from)
    else FindText(s, from + 1, p)
  }

  /**
   * The expression `prefix[^stop]*stop` tried at position `i`: the literal
   * prefix, then greedily every character that is not `stop`, then `stop`.
   * When no `stop` follows there is no match here: giving back characters of
   * the run leaves a character that is not `stop` where `stop` is needed.
   */
  function ClosedRunAt(s: string, i: nat, prefix: string, stop: char): (r: Option<nat>)
    ensures r.Some? ==> HasAt(s, i, prefix) && i + |prefix| < r.value <= |s| && s[r.value - 1] == stop
    ensures r.Some? ==> forall j :: i + |prefix| <= j < r.value - 1 ==> s[j] != stop
    ensures r.None? ==> !HasAt(s, i, prefix) || forall j :: i + |prefix| <= j < |s| ==> s[j] != stop
  {
    if !HasAt(s, i, prefix) then None
    else match FindChar(s, i + |prefix|, stop)
      case Some(j) => Some(j + 1)
      case None => None
  }

  /**
   * The script expression `<script[^>]*>([^<]*<\/script>)?` tried at `i`: the
   * start tag up to its first `>`, and the optional body and end tag after it.
   */
  function ScriptAt(s: string, i: nat): (r: Option<nat>)
    ensures r.Some? <==> ClosedRunAt(s, i, "<script", '>').Some?
    ensures r.Some? ==> ClosedRunAt(s, i, "<script", '>').value <= r.value <= |s|
  {
    match ClosedRunAt(s, i, "<script", '>')
    case None => None
    case Some(q) => Some(ScriptEnd(s, q))
  }

  /**
   * Where a script match whose start tag ends at `q` ends: after `</script>`
   * when that follows the text up to the next `<`, otherwise at `q` (the
   * optional group matches nothing).
   */
  function ScriptEnd(s: string, q: nat): (e: nat)
    requires q <= |s|
    ensures q <= e <= |s|
  {
    match FindChar(s, q, '<')
    case Some(b) => if HasAt(s, b, "</script>") then b + 9 else q
    case None => q
  }

  /** The end tag begins with `<`. */
  lemma EndTagOpens(s: string, b: nat)
    requires HasAt(s, b, "</script>")
    ensures s[b] == '<'
  {
    assert s[b..b + 9][0] == '<';
  }

  /** Where there is no `<` there is no end tag. */
  lemma NoEndTagWithoutLt(s: string, b: nat)
    requires b < |s| ==> s[b] != '<'
    ensures !HasAt(s, b, "</script>")
  {
    if b + 9 <= |s| {
      assert s[b..b + 9][0] == s[b];
    }
  }

  /** A script match ends at its start tag, or after a `<`-free body and `</script>`. */
  lemma ScriptEndShape(s: string, q: nat)
    requires q <= |s|
    ensures var e := ScriptEnd(s, q);
      e == q || (q + 9 <= e && HasAt(s, e - 9, "</script>") && forall j :: q <= j < e - 9 ==> s[j] != '<')
  {
  }

  /**
   * The optional group is left out exactly when every `</script>` after the
   * start tag has a `<` in front of it, so that `[^<]*` cannot reach it.
   */
  lemma ScriptEndIff(s: string, q: nat)
    requires q <= |s|
    ensures ScriptEnd(s, q) == q <==>
      forall b :: q <= b && HasAt(s, b, "</script>") ==> exists j :: q <= j < b && s[j] == '<'
  {
    match FindChar(s, q, '<')
    case None =>
      forall b | q <= b ensures !HasAt(s, b, "</script>") {
        NoEndTagWithoutLt(s, b);
      }
    case Some(b0) =>
      if HasAt(s, b0, "</script>") {
        assert !(exists j :: q <= j < b0 && s[j] == '<');
      } else {
        forall b | q <= b && HasAt(s, b, "</script>") ensures exists j :: q <= j < b && s[j] == '<' {
          EndTagOpens(s, b);
          assert s[b0] == '<' && b0 < b;
        }
      }
  }

  /** The patterns the program matches with. */
  datatype Pattern =
    | LinkTag              // <link[^>]*>
    | ScriptTag            // <script[^>]*>([^<]*<\/script>)?
    | Attr(kind: TagKind)  // ATTR_PATTERN[kind]: href="[^"]*" or src="[^"]*"
    | Quoted               // "[^"]*"
    | Literal(text: string)

  /** Every match is non-empty; an empty literal would match everywhere. */
  predicate Progressing(p: Pattern)
  {
    p.Literal? ==> p.text != []
  }

  /** The end of the match of `p` that starts at `i`, if there is one. */
  function MatchAt(p: Pattern, s: string, i: nat): (r: Option<nat>)
    requires Progressing(p)
    ensures r.Some? ==> i < r.value <= |s|
  {
    match p
    case LinkTag => ClosedRunAt(s, i, "<link", '>')
    case ScriptTag => ScriptAt(s, i)
    case Attr(k) => ClosedRunAt(s, i, AttrOpener(k), '"')
    case Quoted => ClosedRunAt(s, i, "\"", '"')
    case Literal(t) => if HasAt(s, i, t) then Some(i + |t|) else None
  }

  /** The match ends a pattern has at each position of `s`. */
  function Table(p: Pattern, s: string): (ms: seq<Option<nat>>)
    requires Progressing(p)
    ensures |ms| == |s| && Proper(ms)
  {
    seq(|s|, i requires 0 <= i < |s| => MatchAt(p, s, i))
  }

  /** Every match end in a table lies after its start and within the text. */
  predicate Proper(ms: seq<Option<nat>>)
  {
    forall i :: 0 <= i < |ms| && ms[i].Some? ==> i < ms[i].value <= |ms|
  }

  /**
   * The scan of a global search over a table of match ends: at each position
   * from `from` on, a match is taken and the scan resumes at its end, or the
   * scan moves on by one.
   */
  function Scan(ms: seq<Option<nat>>, from: nat): (r: seq<Span>)
    requires Proper(ms)
    decreases |ms| - from
    ensures forall k :: 0 <= k < |r| ==> from <= r[k].start < r[k].end <= |ms|
  {
    if from >= |ms| then []
    else match ms[from]
      case Some(e) => [Span(from, e)] + Scan(ms, e)
      case None => Scan(ms, from + 1)
  }

  /** The matches a global search reports from `from` on, left to right. */
  function Spans(p: Pattern, s: string, from: nat): (r: seq<Span>)
    requires Progressing(p)
    ensures forall k :: 0 <= k < |r| ==> from <= r[k].start < r[k].end <= |s|
  {
    Scan(Table(p, s), from)
  }

  /** At a position where the pattern matches, the search takes that match. */
  lemma SpansTake(p: Pattern, s: string, from: nat)
    requires Progressing(p) && MatchAt(p, s, from).Some?
    ensures Spans(p, s, from) == [Span(from, MatchAt(p, s, from).value)] + Spans(p, s, MatchAt(p, s, from).value)
  {
    assert Table(p, s)[from] == MatchAt(p, s, from);
  }

  /** At a position where the pattern does not match, the search moves on by one. */
  lemma SpansMove(p: Pattern, s: string, from: nat)
    requires Progressing(p) && MatchAt(p, s, from).None?
    ensures Spans(p, s, from) == Spans(p, s, from + 1)
  {
    if from < |s| {
      assert Table(p, s)[from] == MatchAt(p, s, from);
    }
  }

  /** The texts of spans that lie within `s`, in order. */
  function Texts(s: string, r: seq<Span>): (ts: seq<string>)
    requires forall k :: 0 <= k < |r| ==> r[k].start <= r[k].end <= |s|
    ensures |ts| == |r|
  {
    if r == [] then [] else [s[r[0].start..r[0].end]] + Texts(s, r[1..])
  }

  /** Text k is the text of span k. */
  lemma {:induction false} TextsAt(s: string, r: seq<Span>, k: nat)
    requires forall k :: 0 <= k < |r| ==> r[k].start <= r[k].end <= |s|
    requires k < |r|
    ensures Texts(s, r)[k] == s[r[k].start..r[k].end]
  {
    if k > 0 {
      TextsAt(s, r[1..], k - 1);
    }
  }

  /** `s.match(p)` with the `g` flag: the matched texts, or none (JavaScript's null). */
  function MatchAll(p: Pattern, s: string): seq<string>
    requires Progressing(p)
  {
    Texts(s, Spans(p, s, 0))
  }

  /** The texts of a global search are those of its spans. */
  lemma MatchAllSpans(p: Pattern, s: string)
    requires Progressing(p)
    ensures var r := Spans(p, s, 0);
      |MatchAll(p, s)| == |r| && forall k :: 0 <= k < |r| ==> MatchAll(p, s)[k] == s[r[k].start..r[k].end]
  {
    var r := Spans(p, s, 0);
    forall k | 0 <= k < |r| ensures MatchAll(p, s)[k] == s[r[k].start..r[k].end] {
      TextsAt(s, r, k);
    }
  }

  /** Each span is the match of `p` that starts where the span starts. */
  predicate AllMatch(p: Pattern, s: string, r: seq<Span>)
    requires Progressing(p)
  {
    forall k :: 0 <= k < |r| ==> MatchAt(p, s, r[k].start) == Some(r[k].end)
  }

  /** Each span ends before any later one starts. */
  predicate Ordered(r: seq<Span>)
  {
    forall i, j :: 0 <= i < j < |r| ==> r[i].end <= r[j].start
  }

  /** Each span is an entry of the table. */
  predicate InTable(ms: seq<Option<nat>>, r: seq<Span>)
  {
    forall k :: 0 <= k < |r| ==> r[k].start < |ms| && ms[r[k].start] == Some(r[k].end)
  }

  /** Each span of a scan is an entry of the table. */
  lemma {:induction false} ScanMatch(ms: seq<Option<nat>>, from: nat)
    requires Proper(ms)
    ensures InTable(ms, Scan(ms, from))
    decreases |ms| - from
  {
    if from < |ms| {
      var r := Scan(ms, from);
      if ms[from].Some? {
        var tail := Scan(ms, ms[from].value);
        ScanMatch(ms, ms[from].value);
        assert r == [Span(from, ms[from].value)] + tail;
        forall k | 0 <= k < |r| ensures r[k].start < |ms| && ms[r[k].start] == Some(r[k].end) {
          if k > 0 {
            assert r[k] == tail[k - 1];
          }
        }
      } else {
        ScanMatch(ms, from + 1);
        assert r == Scan(ms, from + 1);
      }
    }
  }

  /** Each span is a match of the pattern at the span's start. */
  lemma SpansMatch(p: Pattern, s: string, from: nat)
    requires Progressing(p)
    ensures AllMatch(p, s, Spans(p, s, from))
  {
    var ms, r := Table(p, s), Spans(p, s, from);
    ScanMatch(ms, from);
    forall k | 0 <= k < |r| ensures MatchAt(p, s, r[k].start) == Some(r[k].end) {
      assert ms[r[k].start] == MatchAt(p, s, r[k].start);
    }
  }

  /** The spans of a scan are in left-to-right order and do not overlap. */
  lemma {:induction false} ScanOrdered(ms: seq<Option<nat>>, from: nat)
    requires Proper(ms)
    ensures Ordered(Scan(ms, from))
    decreases |ms| - from
  {
    if from < |ms| {
      if ms[from].Some? {
        var r, tail := Scan(ms, from), Scan(ms, ms[from].value);
        ScanOrdered(ms, ms[from].value);
        assert r == [Span(from, ms[from].value)] + tail;
        forall i, j | 0 <= i < j < |r| ensures r[i].end <= r[j].start {
          assert r[j] == tail[j - 1];
          if i > 0 {
            assert r[i] == tail[i - 1];
          }
        }
      } else {
        ScanOrdered(ms, from + 1);
      }
    }
  }

  /** The spans are in left-to-right order and do not overlap. */
  lemma SpansOrdered(p: Pattern, s: string, from: nat)
    requires Progressing(p)
    ensures Ordered(Spans(p, s, from))
  {
    ScanOrdered(Table(p, s), from);
  }

  /** A scan misses no entry: each one starts a span or lies inside one. */
  lemma {:induction false} ScanComplete(ms: seq<Option<nat>>, from: nat, j: nat) returns (k: nat)
    requires Proper(ms) && from <= j < |ms| && ms[j].Some?
    ensures k < |Scan(ms, from)| && Scan(ms, from)[k].start <= j < Scan(ms, from)[k].end
    decreases |ms| - from
  {
    var r := Scan(ms, from);
    if ms[from].Some? {
      var tail := Scan(ms, ms[from].value);
      assert r == [Span(from, ms[from].value)] + tail;
      if j < ms[from].value {
        k := 0;
      } else {
        var k' := ScanComplete(ms, ms[from].value, j);
        k := k' + 1;
        assert r[k] == tail[k'];
      }
    } else {
      k := ScanComplete(ms, from + 1, j);
    }
  }

  /**
   * No match is missed: every position at or after `from` where the pattern
   * matches starts a span or lies inside one (a match it would overlap).
   */
  lemma SpansComplete(p: Pattern, s: string, from: nat, j: nat) returns (k: nat)
    requires Progressing(p)
    requires from <= j && MatchAt(p, s, j).Some?
    ensures k < |Spans(p, s, from)| && Spans(p, s, from)[k].start <= j < Spans(p, s, from)[k].end
  {
    assert Table(p, s)[j] == MatchAt(p, s, j);
    k := ScanComplete(Table(p, s), from, j);
  }

  /** A scan over entries without a match goes on where they end. */
  lemma {:induction false} ScanSkip(ms: seq<Option<nat>>, from: nat, to: nat)
    requires Proper(ms) && from <= to
    requires forall j :: from <= j < to && j < |ms| ==> ms[j].None?
    ensures from < |ms| ==> Scan(ms, from) == Scan(ms, to)
    decreases (to as int) - from
  {
    if from < to && from < |ms| {
      ScanSkip(ms, from + 1, to);
    }
  }

  /** No pattern match between `from` and `to` leaves the global search unchanged. */
  lemma SpansSkip(p: Pattern, s: string, from: nat, to: nat)
    requires Progressing(p) && from <= to
    requires forall j :: from <= j < to ==> MatchAt(p, s, j).None?
    ensures Spans(p, s, from) == Spans(p, s, to)
  {
    var ms := Table(p, s);
    forall j | from <= j < to && j < |ms| ensures ms[j].None? {
      assert ms[j] == MatchAt(p, s, j);
    }
    ScanSkip(ms, from, to);
  }

  /** Where the pattern matches nowhere, a global search reports nothing. */
  lemma NoMatchNoSpans(p: Pattern, s: string, from: nat)
    requires Progressing(p)
    requires forall j :: from <= j < |s| ==> MatchAt(p, s, j).None?
    ensures Spans(p, s, from) == []
  {
    var ms := Table(p, s);
    forall j | from <= j < |ms| ensures ms[j].None? {
      assert ms[j] == MatchAt(p, s, j);
    }
    ScanSkip(ms, from, if from <= |s| then |s| else from);
  }

  /** Before the first span of a global search there is no match. */
  lemma NoMatchBeforeFirst(p: Pattern, s: string, from: nat)
    requires Progressing(p) && Spans(p, s, from) != []
    ensures forall j :: from <= j < Spans(p, s, from)[0].start ==> MatchAt(p, s, j).None?
  {
    forall j | from <= j < Spans(p, s, from)[0].start ensures MatchAt(p, s, j).None? {
      if MatchAt(p, s, j).Some? {
        var k := SpansComplete(p, s, from, j);
        SpansOrdered(p, s, from);
      }
    }
  }
  /** The first text of a global search is the first match in the text, and none comes before it. */
  lemma FirstMatch(p: Pattern, s: string) returns (a: nat, e: nat)
    requires Progressing(p) && MatchAll(p, s) != []
    ensures MatchAt(p, s, a) == Some(e) && MatchAll(p, s)[0] == s[a..e]
    ensures forall j :: 0 <= j < a ==> MatchAt(p, s, j).None?
  {
    var sp := Spans(p, s, 0);
    MatchAllSpans(p, s);
    a, e := sp[0].start, sp[0].end;
    SpansMatch(p, s, 0);
    NoMatchBeforeFirst(p, s, 0);
  }

  /** A match with none before it is the first text of a global search. */
  lemma MatchFirst(p: Pattern, s: string, a: nat)
    requires Progressing(p) && MatchAt(p, s, a).Some?
    requires forall j :: 0 <= j < a ==> MatchAt(p, s, j).None?
    ensures MatchAll(p, s) != [] && MatchAll(p, s)[0] == s[a..MatchAt(p, s, a).value]
  {
    SpansSkip(p, s, 0, a);
    SpansTake(p, s, a);
    MatchAllSpans(p, s);
  }
}
