/**
 * The two names main.js derives from strings: the name the merged file is
 * downloaded under (downloadMergedFile) and the text outputFileNames puts in
 * the reference-file box for the file picker.
 */
module Names {
  import opened Matching

  // ---------------------------------------------------------------------
  // downloadMergedFile: the download name

  /**
   * The download name: `Merged` put in front of the first `.html` (the regex
   * `/\.html/` without the `g` flag replaces one match), or `Merged.html`
   * appended when the name has no `.html`.
   */
  function DownloadName(fn: string): (r: string)
    ensures exists m :: HasAt(r, m, "Merged.html")
    ensures |r| == |fn| + 6 || |r| == |fn| + 11
  {
    match FindText(fn, 0, ".html")
    case Some(k) =>
      InsertMerged(fn, k);
      fn[..k] + "Merged" + fn[k..]
    case None =>
      assert HasAt(fn + "Merged.html", |fn|, "Merged.html");
      fn + "Merged.html"
  }

  /** Inserting `Merged` in front of a `.html` makes `Merged.html` appear there. */
  lemma InsertMerged(fn: string, k: nat)
    requires HasAt(fn, k, ".html")
    ensures var r := fn[..k] + "Merged" + fn[k..];
      HasAt(r, k, "Merged.html") && r[..k] == fn[..k] && r[k + 6..] == fn[k..] && r[..k] + r[k + 6..] == fn
  {
    var r := fn[..k] + "Merged" + fn[k..];
    forall j | 0 <= j < 11 ensures r[k..k + 11][j] == "Merged.html"[j] {
      if j >= 6 {
        assert r[k + j] == fn[k + j - 6] == fn[k..k + 5][j - 6];
      }
    }
    assert r[..k] == fn[..k] && r[k + 6..] == fn[k..];
    assert fn[..k] + fn[k..] == fn;
  }

  /** A name with `.html` first at `k` gets `Merged` inserted at `k`, and nothing else changes. */
  lemma DownloadNameInserts(fn: string, k: nat)
    requires HasAt(fn, k, ".html") && forall j :: 0 <= j < k ==> !HasAt(fn, j, ".html")
    ensures DownloadName(fn) == fn[..k] + "Merged" + fn[k..]
    ensures DownloadName(fn)[..k] == fn[..k] && DownloadName(fn)[k + 6..] == fn[k..]
  {
    var r := FindText(fn, 0, ".html");
    assert r.Some?;
    assert r.value == k;
  }

  /** A name with no `.html` anywhere gets `Merged.html` appended. */
  lemma DownloadNameAppends(fn: string)
    requires forall j :: 0 <= j <= |fn| ==> !HasAt(fn, j, ".html")
    ensures DownloadName(fn) == fn + "Merged.html"
  {
  }

  /** Dropping the inserted `Merged` gives the name back when it had `.html`. */
  lemma DownloadNameInvertible(fn: string, k: nat)
    requires HasAt(fn, k, ".html") && forall j :: 0 <= j < k ==> !HasAt(fn, j, ".html")
    ensures var r := DownloadName(fn); HasAt(r, k, "Merged.html") && r[..k] + r[k + 6..] == fn
  {
    DownloadNameInserts(fn, k);
    InsertMerged(fn, k);
  }

  /** `index.html` is downloaded as `indexMerged.html`. */
  lemma DownloadNameIndex()
    ensures DownloadName("index.html") == "indexMerged.html"
  {
    var fn := "index.html";
    HtmlFirstInIndex();
    DownloadNameInserts(fn, 5);
    IndexMergedSpelled();
  }

  /** The pieces of `index.html` around the insertion, and the name they make. */
  lemma IndexMergedSpelled()
    ensures "index.html"[..5] == "index" && "index.html"[5..] == ".html"
    ensures "index" + "Merged" + ".html" == "indexMerged.html"
  {
  }

  /** In `index.html` the first `.html` is at position 5. */
  lemma HtmlFirstInIndex()
    ensures HasAt("index.html", 5, ".html") && forall j :: 0 <= j < 5 ==> !HasAt("index.html", j, ".html")
  {
    var fn := "index.html";
    assert fn[..5] == "index";
    forall j | 0 <= j < 5 ensures !HasAt(fn, j, ".html") {
      assert fn[j] == fn[..5][j];
    }
    assert fn[5..10] == ".html";
  }

  /** `page` is downloaded as `pageMerged.html`. */
  lemma DownloadNamePage()
    ensures DownloadName("page") == "pageMerged.html"
  {
    DownloadNameAppends("page");
  }

  // ---------------------------------------------------------------------
  // outputFileNames: the picker text

  /**
   * `name.replace('/', '\\')`: a string pattern replaces its first occurrence
   * only, so only the first `/` becomes a backslash.
   */
  function ReplaceFirstSlash(n: string): (r: string)
    ensures |r| == |n|
    ensures forall j :: 0 <= j < |n| ==> r[j] == n[j] || (n[j] == '/' && r[j] == '\\')
  {
    match FindChar(n, 0, '/')
    case Some(k) => n[k := '\\']
    case None => n
  }

  /** With the first `/` at `k`, that one character becomes `\` and every later `/` stays. */
  lemma FirstSlashReplaced(n: string, k: nat)
    requires k < |n| && n[k] == '/' && '/' !in n[..k]
    ensures ReplaceFirstSlash(n) == n[k := '\\']
  {
    var r := FindChar(n, 0, '/');
    assert r.Some? && r.value == k by {
      assert forall j :: 0 <= j < k ==> n[j] == n[..k][j];
    }
  }

  /** A name without `/` is shown as it is. */
  lemma NoSlashUnchanged(n: string)
    requires '/' !in n
    ensures ReplaceFirstSlash(n) == n
  {
  }

  /** One name in the picker text: the shown name in double quotes and a space. */
  function PickerEntry(n: string): (r: string)
    ensures |r| == |n| + 3 && r[0] == '"' && r[|r| - 2..] == "\" "
    ensures r[1..|r| - 2] == ReplaceFirstSlash(n)
  {
    "\"" + ReplaceFirstSlash(n) + "\" "
  }

  /** The picker text for a list of names: their entries, in order. */
  function PickerSpec(names: seq<string>): string
  {
    if names == [] then "" else PickerEntry(names[0]) + PickerSpec(names[1..])
  }

  /** Appending a name appends its entry. */
  lemma {:induction false} PickerSpecAppend(names: seq<string>, n: string)
    ensures PickerSpec(names + [n]) == PickerSpec(names) + PickerEntry(n)
  {
    if names == [] {
      assert [] + [n] == [n];
    } else {
      assert (names + [n])[1..] == names[1..] + [n];
      PickerSpecAppend(names[1..], n);
    }
  }

  /** outputFileNames: the text box is cleared, then each name's entry is appended. */
  method PickerText(names: seq<string>) returns (text: string)
    ensures text == PickerSpec(names)
  {
    text := "";
    for i := 0 to |names|
      invariant text == PickerSpec(names[..i])
    {
      PickerSpecAppend(names[..i], names[i]);
      assert names[..i + 1] == names[..i] + [names[i]];
      text := text + PickerEntry(names[i]);
    }
    assert names[..|names|] == names;
  }

  /** The names as the picker shows them, in order. */
  function Shown(names: seq<string>): (r: seq<string>)
    ensures |r| == |names|
  {
    if names == [] then [] else [ReplaceFirstSlash(names[0])] + Shown(names[1..])
  }

  /** Name k is shown with its first `/` turned into `\`. */
  lemma {:induction false} ShownAt(names: seq<string>, k: nat)
    requires k < |names|
    ensures Shown(names)[k] == ReplaceFirstSlash(names[k])
  {
    if k > 0 {
      ShownAt(names[1..], k - 1);
    }
  }

  /**
   * Reads a picker text back: a sequence of `"name" ` entries, or None when
   * the text is not of that form.
   */
  function ParsePicker(t: string): Option<seq<string>>
    decreases |t|
  {
    if t == [] then Some([])
    else if t[0] != '"' then None
    else match FindChar(t, 1, '"')
      case None => None
      case Some(j) =>
        if j + 1 < |t| && t[j + 1] == ' ' then
          match ParsePicker(t[j + 2..])
          case None => None
          case Some(rest) => Some([t[1..j]] + rest)
        else None
  }

  /** A shown name holds a double quote only if the name does. */
  lemma ShownUnquoted(n: string)
    requires '"' !in n
    ensures '"' !in ReplaceFirstSlash(n)
  {
    var r := ReplaceFirstSlash(n);
    forall j | 0 <= j < |r| ensures r[j] != '"' {
      assert r[j] == n[j] || r[j] == '\\';
    }
  }

  /**
   * The picker text loses nothing: for names without `"` (file names never
   * hold one), reading it back gives exactly the shown names, in order.
   */
  lemma {:induction false} PickerRoundTrip(names: seq<string>)
    requires Unquoted(names)
    ensures ParsePicker(PickerSpec(names)) == Some(Shown(names))
  {
    if names != [] {
      UnquotedTail(names);
      ParseFirstEntry(names[0], PickerSpec(names[1..]));
      PickerRoundTrip(names[1..]);
    }
  }

  /** No name holds a double quote. */
  predicate Unquoted(names: seq<string>)
  {
    forall k :: 0 <= k < |names| ==> '"' !in names[k]
  }

  /** The first name and the names after it hold no double quote either. */
  lemma UnquotedTail(names: seq<string>)
    requires Unquoted(names) && names != []
    ensures '"' !in names[0] && Unquoted(names[1..])
  {
    forall k | 0 <= k < |names| - 1 ensures '"' !in names[1..][k] {
      assert names[1..][k] == names[k + 1];
    }
  }


  /** Reading back an entry in front of more text gives its shown name in front of what that text gives. */
  lemma ParseFirstEntry(n: string, rest: string)
    requires '"' !in n
    ensures ParsePicker(PickerEntry(n) + rest) ==
      match ParsePicker(rest)
      case None => None
      case Some(ns) => Some([ReplaceFirstSlash(n)] + ns)
  {
    var e := PickerEntry(n);
    var t := e + rest;
    var shown := ReplaceFirstSlash(n);
    ShownUnquoted(n);
    var j := |shown| + 1;
    assert t[j] == '"' by { assert t[j] == e[j]; }
    forall m | 1 <= m < j ensures t[m] != '"' {
      assert t[m] == shown[m - 1];
    }
    assert FindChar(t, 1, '"') == Some(j);
    assert t[j + 1] == ' ' by { assert t[j + 1] == e[j + 1]; }
    assert t[j + 2..] == rest;
    assert t[1..j] == shown;
  }
}
