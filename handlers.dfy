/**
 * The two change handlers of main.js and the globals they share (g_src,
 * g_tags, g_src_filename, g_rest_files). Each FileReader `onload` is one
 * atomic call. A pure transition function per handler says what the handler
 * does to a snapshot of the globals; the Session class holds the globals and
 * its methods are proved to follow those functions.
 */
module Handlers {
  import opened Define
  import opened Matching
  import opened Tags
  import opened Names
  import opened Replace

  /** The four globals the handlers share. */
  datatype Snapshot = Snapshot(src: string, tags: seq<Tag>, srcFilename: string, rest: int)

  /** A chosen file: its name and its text as FileReader reads it. */
  datatype SourceFile = SourceFile(name: string, text: string)

  /** How the source-file handler ends. */
  datatype LoadOutcome =
    | Cancelled                                      // no file chosen
    | NoTags                                         // no reference tag found
    | Aborted                                        // getFileNames threw
    | NoNames                                        // only tags without the attribute
    | Listed(names: seq<string>, pickerText: string) // names shown, globals replaced

  /** How one reference-file load ends. */
  datatype Completion =
    | TagOutOfRange                  // g_tags[i] does not exist: a TypeError
    | Pending                        // files still to come
    | Download(text: string, name: string)

  /** The snapshot holds only tags a replacement can search for. */
  predicate ValidSnapshot(st: Snapshot)
  {
    NonEmptyTags(st.tags)
  }

  /** src_html.onchange with the read of the first chosen file. */
  function Load(st: Snapshot, files: seq<SourceFile>): (r: (Snapshot, LoadOutcome))
    ensures r.0 == st || r.1.Listed?
    ensures r.0.rest == st.rest
    ensures ValidSnapshot(st) ==> ValidSnapshot(r.0)
  {
    if |files| <= 0 then (st, Cancelled)
    else
      var text := files[0].text;
      var tags := TagsOf(text);
      TagsNonEmpty(text);
      if |tags| <= 0 then (st, NoTags)
      else match FileNamesOf(tags)
        case None => (st, Aborted)
        case Some(names) =>
          if |names| <= 0 then (st, NoNames)
          else (Snapshot(text, tags, files[0].name, st.rest), Listed(names, PickerSpec(names)))
  }

  /** ref_files.onchange: the countdown starts at the number of chosen files. */
  function Choose(st: Snapshot, count: nat): (r: Snapshot)
    ensures r.rest == count && r.(rest := st.rest) == st
  {
    st.(rest := count)
  }

  /**
   * The `onload` of reference file `i`: every occurrence of tag i's text is
   * replaced by the file wrapped in its kind's markup, the countdown drops
   * by one, and the download fires when it has reached zero or less.
   */
  function Loaded(st: Snapshot, i: nat, payload: string): (r: (Snapshot, Completion))
    requires ValidSnapshot(st)
    ensures r.0.tags == st.tags && r.0.srcFilename == st.srcFilename
    ensures r.1.TagOutOfRange? <==> i >= |st.tags|
    ensures r.1.TagOutOfRange? ==> r.0 == st
    ensures !r.1.TagOutOfRange? ==> r.0.rest == st.rest - 1
    ensures r.1.Download? <==> i < |st.tags| && st.rest <= 1
    ensures r.1.Download? ==> r.1.text == r.0.src && r.1.name == DownloadName(st.srcFilename)
  {
    if i >= |st.tags| then (st, TagOutOfRange)
    else
      var t := st.tags[i];
      var src := ReplaceAll(st.src, t.data, Wrap(t.kind, payload));
      var rest := st.rest - 1;
      (st.(src := src, rest := rest),
       if rest <= 0 then Download(src, DownloadName(st.srcFilename)) else Pending)
  }

  /**
   * The source is replaced, and names are listed, exactly when a file was
   * chosen and getFileNames found at least one name in it; the new state is
   * that file's text, its tags and its name.
   */
  lemma LoadListsIff(st: Snapshot, files: seq<SourceFile>)
    ensures Load(st, files).1.Listed? <==>
      |files| > 0 && FileNamesOf(TagsOf(files[0].text)).Some? && FileNamesOf(TagsOf(files[0].text)).value != []
    ensures Load(st, files).1.Listed? ==>
      var text := files[0].text;
      Load(st, files).0 == Snapshot(text, TagsOf(text), files[0].name, st.rest) &&
      Load(st, files).1.names == FileNamesOf(TagsOf(text)).value &&
      Load(st, files).1.pickerText == PickerSpec(Load(st, files).1.names)
  {
    if |files| > 0 && TagsOf(files[0].text) == [] {
      assert Results([]) == [];
    }
  }

  /** The picker text of a listed load reads back as exactly the names it shows, in order. */
  lemma LoadPickerReadsBack(st: Snapshot, files: seq<SourceFile>)
    requires Load(st, files).1.Listed?
    ensures var o := Load(st, files).1; ParsePicker(o.pickerText) == Some(Shown(o.names))
  {
    LoadListsIff(st, files);
    var names := FileNamesOf(TagsOf(files[0].text)).value;
    FileNamesUnquoted(TagsOf(files[0].text));
    assert Unquoted(names) by {
      forall k | 0 <= k < |names| ensures '"' !in names[k] {
        assert names[k] in names;
      }
    }
    PickerRoundTrip(names);
  }

  /**
   * The file loaded for index `i` replaces tag i's text, whatever name the
   * picker listed at i: text outside the occurrences is kept, and a tag text
   * that no longer occurs leaves the source as it was.
   */
  lemma LoadedReplacesTag(st: Snapshot, i: nat, payload: string)
    requires ValidSnapshot(st) && i < |st.tags|
    ensures var t := st.tags[i]; var w := Wrap(t.kind, payload);
      Fits(st.src, Spans(Literal(t.data), st.src, 0), 0) &&
      Loaded(st, i, payload).0.src == Splice(st.src, Spans(Literal(t.data), st.src, 0), w, 0)
    ensures var t := st.tags[i];
      (forall j :: !HasAt(st.src, j, t.data)) ==> Loaded(st, i, payload).0.src == st.src
  {
    var t := st.tags[i];
    ReplaceAllIsSplice(st.src, t.data, Wrap(t.kind, payload));
    ReplaceAllUnchangedIff(st.src, t.data, Wrap(t.kind, payload));
  }

  /** A reference file's completion: which file was read and its text. */
  datatype FileLoad = FileLoad(index: nat, payload: string)

  /** The loads in the order their `onload` handlers run, and how each ends. */
  function RunLoads(st: Snapshot, loads: seq<FileLoad>): (r: (Snapshot, seq<Completion>))
    requires ValidSnapshot(st)
    ensures |r.1| == |loads| && r.0.tags == st.tags
    decreases |loads|
  {
    if loads == [] then (st, [])
    else
      var (st1, c) := Loaded(st, loads[0].index, loads[0].payload);
      var (st2, cs) := RunLoads(st1, loads[1..]);
      (st2, [c] + cs)
  }

  /** Every load is for an index that has a tag. */
  predicate AllInRange(st: Snapshot, loads: seq<FileLoad>)
  {
    forall k :: 0 <= k < |loads| ==> loads[k].index < |st.tags|
  }

  /** With every load in range, load k fires exactly when the countdown had k + 1 or fewer left. */
  lemma {:induction false} CountdownFires(st: Snapshot, loads: seq<FileLoad>)
    requires ValidSnapshot(st) && AllInRange(st, loads)
    ensures forall k :: 0 <= k < |loads| ==> (RunLoads(st, loads).1[k].Download? <==> st.rest <= k + 1)
    ensures RunLoads(st, loads).0.rest == st.rest - |loads|
    decreases |loads|
  {
    if loads != [] {
      var st1 := Loaded(st, loads[0].index, loads[0].payload).0;
      assert AllInRange(st1, loads[1..]) by {
        forall k | 0 <= k < |loads[1..]| ensures loads[1..][k].index < |st1.tags| {
          assert loads[1..][k] == loads[k + 1];
        }
      }
      CountdownFires(st1, loads[1..]);
      RunLoadsTail(st, loads);
    }
  }

  /** The first load ends as Loaded says, and every later one as the run from the state it leaves. */
  lemma RunLoadsTail(st: Snapshot, loads: seq<FileLoad>)
    requires ValidSnapshot(st) && loads != []
    ensures var (st1, c) := Loaded(st, loads[0].index, loads[0].payload);
      var r := RunLoads(st1, loads[1..]);
      RunLoads(st, loads).0 == r.0 && RunLoads(st, loads).1[0] == c &&
      forall k :: 1 <= k < |loads| ==> RunLoads(st, loads).1[k] == r.1[k - 1]
  {
  }

  /**
   * The countdown set to the number of chosen files, one load per file:
   * the download fires on the last load and on no earlier one.
   */
  lemma DownloadOnLastLoad(st: Snapshot, loads: seq<FileLoad>)
    requires ValidSnapshot(st) && AllInRange(st, loads) && st.rest == |loads|
    ensures forall k :: 0 <= k < |loads| ==> (RunLoads(st, loads).1[k].Download? <==> k == |loads| - 1)
  {
    CountdownFires(st, loads);
  }

  /** How many of the loads are for an index that has a tag. */
  function CountInRange(tags: seq<Tag>, loads: seq<FileLoad>): (n: nat)
    ensures n <= |loads|
  {
    if loads == [] then 0
    else (if loads[0].index < |tags| then 1 else 0) + CountInRange(tags, loads[1..])
  }

  /** While the countdown exceeds the loads that decrement it, nothing is downloaded. */
  lemma {:induction false} NoDownloadWhileAhead(st: Snapshot, loads: seq<FileLoad>)
    requires ValidSnapshot(st) && st.rest > CountInRange(st.tags, loads)
    ensures forall k :: 0 <= k < |loads| ==> !RunLoads(st, loads).1[k].Download?
    decreases |loads|
  {
    if loads != [] {
      var st1 := Loaded(st, loads[0].index, loads[0].payload).0;
      NoDownloadWhileAhead(st1, loads[1..]);
      RunLoadsTail(st, loads);
    }
  }

  /**
   * A load whose index has no tag throws before the countdown drops, so with
   * the countdown at the number of loads the merged file is never downloaded.
   */
  lemma OutOfRangeBlocksDownload(st: Snapshot, loads: seq<FileLoad>, j: nat)
    requires ValidSnapshot(st) && st.rest == |loads| && j < |loads| && loads[j].index >= |st.tags|
    ensures forall k :: 0 <= k < |loads| ==> !RunLoads(st, loads).1[k].Download?
  {
    CountBelow(st.tags, loads, j);
    NoDownloadWhileAhead(st, loads);
  }

  /** A load out of range is not counted. */
  lemma {:induction false} CountBelow(tags: seq<Tag>, loads: seq<FileLoad>, j: nat)
    requires j < |loads| && loads[j].index >= |tags|
    ensures CountInRange(tags, loads) < |loads|
  {
    if j > 0 {
      CountBelow(tags, loads[1..], j - 1);
    }
  }

  /** The globals of the page, with the handlers as methods. */
  class Session {
    var src: string
    var tags: seq<Tag>
    var srcFilename: string
    var rest: int

    /** The globals as a value. */
    function State(): Snapshot
      reads this
    {
      Snapshot(src, tags, srcFilename, rest)
    }

    /** Every stored tag has text to search for. */
    predicate Valid()
      reads this
    {
      ValidSnapshot(State())
    }

    /** The page before any file is chosen: empty source, no tags, countdown at zero. */
    constructor()
      ensures State() == Snapshot("", [], "", 0) && Valid()
    {
      src, tags, srcFilename, rest := "", [], "", 0;
    }

    /** src_html.onchange followed by the `onload` of its reader. */
    method LoadSource(files: seq<SourceFile>) returns (outcome: LoadOutcome)
      requires Valid()
      modifies this
      ensures (State(), outcome) == Load(old(State()), files)
      ensures Valid()
    {
      if |files| <= 0 {
        return Cancelled;
      }
      var text := files[0].text;
      var found := GetTags(text);
      if |found| <= 0 {
        return NoTags;
      }
      var names := GetFileNames(found);
      if names.None? {
        return Aborted;
      }
      if |names.value| <= 0 {
        return NoNames;
      }
      srcFilename := files[0].name;
      var picker := PickerText(names.value);
      tags := found;
      src := text;
      TagsNonEmpty(text);
      outcome := Listed(names.value, picker);
    }

    /** ref_files.onchange: the countdown is set to the number of chosen files. */
    method ChooseFiles(count: nat)
      modifies this
      ensures State() == Choose(old(State()), count)
    {
      rest := count;
    }

    /** The `onload` of reference file `i`: replace tag i, count down, maybe download. */
    method FileLoaded(i: nat, payload: string) returns (c: Completion)
      requires Valid()
      modifies this
      ensures (State(), c) == Loaded(old(State()), i, payload)
      ensures Valid()
    {
      if i >= |tags| {
        return TagOutOfRange;
      }
      var t := tags[i];
      src := ReplaceAll(src, t.data, Wrap(t.kind, payload));
      rest := rest - 1;
      if rest <= 0 {
        c := Download(src, DownloadName(srcFilename));
      } else {
        c := Pending;
      }
    }
  }
}
