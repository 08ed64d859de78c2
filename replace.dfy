/**
 * The substitution a file load performs: `g_src.replace(pattern, wrapped)`
 * with the `g` flag, read as a literal search for the tag's text. The search
 * goes left to right and resumes after each replaced occurrence, the way a
 * global search reports its matches (Matching.Spans over a Literal pattern).
 */
module Replace {
  import opened Matching

  /** The text from `from` on with every occurrence of `pat` replaced by `rep`. */
  function ReplaceFrom(s: string, pat: string, rep: string, from: nat): string
    requires pat != [] && from <= |s|
    decreases |s| - from
  {
    if from == |s| then []
    else if HasAt(s, from, pat) then rep + ReplaceFrom(s, pat, rep, from + |pat|)
    else [s[from]] + ReplaceFrom(s, pat, rep, from + 1)
  }

  /** Every occurrence of the non-empty `pat` in `s` replaced by `rep`. */
  function ReplaceAll(s: string, pat: string, rep: string): (r: string)
    requires pat != []
    ensures |r| == |s| + |Spans(Literal(pat), s, 0)| * (|rep| - |pat|)
  {
    ReplaceLength(s, pat, rep, 0);
    ReplaceFrom(s, pat, rep, 0)
  }

  /** The spans fit in `s` after `from`, each one after the one before. */
  predicate Fits(s: string, sp: seq<Span>, from: nat)
    decreases |sp|
  {
    sp == [] || (from <= sp[0].start <= sp[0].end <= |s| && Fits(s, sp[1..], sp[0].end))
  }

  /**
   * The reference definition: the text between the spans kept as it is and
   * every span replaced by `rep`.
   */
  function Splice(s: string, sp: seq<Span>, rep: string, from: nat): string
    requires from <= |s| && Fits(s, sp, from)
    decreases |sp|
  {
    if sp == [] then s[from..]
    else s[from..sp[0].start] + rep + Splice(s, sp[1..], rep, sp[0].end)
  }

  /** Each replacement changes the length by the difference of the two texts. */
  lemma {:induction false} ReplaceLength(s: string, pat: string, rep: string, from: nat)
    requires pat != [] && from <= |s|
    ensures |ReplaceFrom(s, pat, rep, from)| == |s| - from + |Spans(Literal(pat), s, from)| * (|rep| - |pat|)
    decreases |s| - from
  {
    if from < |s| {
      var p := Literal(pat);
      if HasAt(s, from, pat) {
        var n := |Spans(p, s, from + |pat|)|;
        SpansTake(p, s, from);
        ReplaceLength(s, pat, rep, from + |pat|);
        MulStep(n, |rep| - |pat|);
      } else {
        SpansMove(p, s, from);
        ReplaceLength(s, pat, rep, from + 1);
      }
    }
  }

  /** One more factor adds one more `d`. */
  lemma MulStep(n: int, d: int)
    ensures (n + 1) * d == n * d + d
  {
  }

  /** A positive count of non-zero changes is non-zero. */
  lemma MulNonZero(n: int, d: int)
    requires n >= 1 && d != 0
    ensures n * d != 0
  {
  }

  /** The spans a global search reports fit in the text. */
  lemma {:induction false} SpansFit(pat: string, s: string, from: nat)
    requires pat != []
    ensures Fits(s, Spans(Literal(pat), s, from), from)
    decreases |s| - from
  {
    var p := Literal(pat);
    if from < |s| {
      if HasAt(s, from, pat) {
        SpansTake(p, s, from);
        SpansFit(pat, s, from + |pat|);
        assert Spans(p, s, from)[1..] == Spans(p, s, from + |pat|);
      } else {
        SpansMove(p, s, from);
        SpansFit(pat, s, from + 1);
      }
    } else {
      assert Spans(p, s, from) == [];
    }
  }

  /** Splicing from a position before the first span keeps the character there. */
  lemma SpliceStep(s: string, sp: seq<Span>, rep: string, from: nat)
    requires from < |s| && Fits(s, sp, from + 1)
    ensures Fits(s, sp, from) && Splice(s, sp, rep, from) == [s[from]] + Splice(s, sp, rep, from + 1)
  {
    if sp == [] {
      assert s[from..] == [s[from]] + s[from + 1..];
    } else {
      var st, en := sp[0].start, sp[0].end;
      var rest := Splice(s, sp[1..], rep, en);
      var x := s[from + 1..st];
      assert Splice(s, sp, rep, from + 1) == x + rep + rest;
      assert s[from..st] == [s[from]] + x;
      assert Splice(s, sp, rep, from) == ([s[from]] + x) + rep + rest;
      assert ([s[from]] + x) + rep + rest == [s[from]] + (x + rep + rest);
    }
  }

  /**
   * The replacement keeps the text outside the occurrences and puts `rep`
   * in place of each occurrence the global search reports.
   */
  lemma {:induction false} ReplaceIsSplice(s: string, pat: string, rep: string, from: nat)
    requires pat != [] && from <= |s|
    ensures Fits(s, Spans(Literal(pat), s, from), from)
    ensures ReplaceFrom(s, pat, rep, from) == Splice(s, Spans(Literal(pat), s, from), rep, from)
    decreases |s| - from, 1
  {
    var p := Literal(pat);
    SpansFit(pat, s, from);
    if from < |s| {
      if HasAt(s, from, pat) {
        SpliceTake(s, pat, rep, from);
      } else {
        SpansMove(p, s, from);
        ReplaceIsSplice(s, pat, rep, from + 1);
        SpliceStep(s, Spans(p, s, from + 1), rep, from);
      }
    }
  }

  /** At an occurrence, both sides put `rep` first and go on after the occurrence. */
  lemma {:induction false} SpliceTake(s: string, pat: string, rep: string, from: nat)
    requires pat != [] && from < |s| && HasAt(s, from, pat)
    ensures Fits(s, Spans(Literal(pat), s, from), from)
    ensures ReplaceFrom(s, pat, rep, from) == Splice(s, Spans(Literal(pat), s, from), rep, from)
    decreases |s| - from, 0
  {
    var p := Literal(pat);
    var e := from + |pat|;
    SpansFit(pat, s, from);
    SpansTake(p, s, from);
    var sp, tail := Spans(p, s, from), Spans(p, s, e);
    assert sp == [Span(from, e)] + tail;
    assert sp[0] == Span(from, e) && sp[1..] == tail;
    ReplaceIsSplice(s, pat, rep, e);
    var rest := ReplaceFrom(s, pat, rep, e);
    assert ReplaceFrom(s, pat, rep, from) == rep + rest;
    assert Splice(s, sp, rep, from) == s[from..from] + rep + Splice(s, tail, rep, e);
    assert s[from..from] + rep == rep;
  }

  /** ReplaceAll is the splice of the occurrences found from the start. */
  lemma ReplaceAllIsSplice(s: string, pat: string, rep: string)
    requires pat != []
    ensures Fits(s, Spans(Literal(pat), s, 0), 0)
    ensures ReplaceAll(s, pat, rep) == Splice(s, Spans(Literal(pat), s, 0), rep, 0)
  {
    ReplaceIsSplice(s, pat, rep, 0);
  }

  /** Replacing a text by itself changes nothing. */
  lemma {:induction false} ReplaceSelf(s: string, pat: string, from: nat)
    requires pat != [] && from <= |s|
    ensures ReplaceFrom(s, pat, pat, from) == s[from..]
    decreases |s| - from
  {
    if from < |s| {
      if HasAt(s, from, pat) {
        ReplaceSelf(s, pat, from + |pat|);
        assert s[from..] == s[from..from + |pat|] + s[from + |pat|..];
      } else {
        ReplaceSelf(s, pat, from + 1);
        assert s[from..] == [s[from]] + s[from + 1..];
      }
    }
  }

  /** With no occurrence from `from` on, the text is kept. */
  lemma {:induction false} ReplaceAbsent(s: string, pat: string, rep: string, from: nat)
    requires pat != [] && from <= |s|
    requires forall j :: from <= j ==> !HasAt(s, j, pat)
    ensures ReplaceFrom(s, pat, rep, from) == s[from..]
    decreases |s| - from
  {
    if from < |s| {
      ReplaceAbsent(s, pat, rep, from + 1);
      assert s[from..] == [s[from]] + s[from + 1..];
    }
  }

  /** The text up to the first occurrence is kept, and `rep` follows it. */
  lemma {:induction false} ReplaceUpToFirst(s: string, pat: string, rep: string, from: nat, k: nat)
    requires pat != [] && from <= k && HasAt(s, k, pat)
    requires forall j :: from <= j < k ==> !HasAt(s, j, pat)
    ensures ReplaceFrom(s, pat, rep, from) == s[from..k] + rep + ReplaceFrom(s, pat, rep, k + |pat|)
    decreases k - from
  {
    if from < k {
      ReplaceUpToFirst(s, pat, rep, from + 1, k);
      ReplaceFromKeeps(s, pat, rep, from);
      ConsAssoc(s, from, k, rep, ReplaceFrom(s, pat, rep, k + |pat|));
    } else {
      assert ReplaceFrom(s, pat, rep, k) == rep + ReplaceFrom(s, pat, rep, k + |pat|);
      assert s[k..k] + rep == rep;
    }
  }

  /** Where the text does not occur, its first character is kept. */
  lemma ReplaceFromKeeps(s: string, pat: string, rep: string, from: nat)
    requires pat != [] && from < |s| && !HasAt(s, from, pat)
    ensures ReplaceFrom(s, pat, rep, from) == [s[from]] + ReplaceFrom(s, pat, rep, from + 1)
  {
  }

  /** A character in front of a slice extends the slice by one. */
  lemma ConsAssoc(s: string, from: nat, k: nat, rep: string, r: string)
    requires from < k <= |s|
    ensures [s[from]] + (s[from + 1..k] + rep + r) == s[from..k] + rep + r
  {
    assert s[from..k] == [s[from]] + s[from + 1..k];
  }

  /**
   * The text is left as it was exactly when the replacement equals the
   * searched text or the searched text does not occur.
   */
  lemma ReplaceAllUnchangedIff(s: string, pat: string, rep: string)
    requires pat != []
    ensures ReplaceAll(s, pat, rep) == s <==> rep == pat || forall j :: !HasAt(s, j, pat)
  {
    if rep == pat {
      ReplaceSelf(s, pat, 0);
    } else if forall j :: !HasAt(s, j, pat) {
      ReplaceAbsent(s, pat, rep, 0);
    } else {
      var k: nat :| HasAt(s, k, pat);
      ReplaceChanges(s, pat, rep, k);
    }
  }

  /** A different replacement text changes a text that holds an occurrence. */
  lemma ReplaceChanges(s: string, pat: string, rep: string, k0: nat)
    requires pat != [] && rep != pat && HasAt(s, k0, pat)
    ensures ReplaceAll(s, pat, rep) != s
  {
    var n := |Spans(Literal(pat), s, 0)|;
    var _ := SpansComplete(Literal(pat), s, 0, k0);
    assert n >= 1;
    if |rep| != |pat| {
      MulNonZero(n, |rep| - |pat|);
    } else {
      var k := FindText(s, 0, pat).value;
      ReplaceUpToFirst(s, pat, rep, 0, k);
      var r := ReplaceAll(s, pat, rep);
      assert r[k..k + |rep|] == rep;
    }
  }
}
