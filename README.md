# HTMLMerger merge engine in Dafny

HTMLMerger is a browser page that merges an HTML file with the stylesheets and
scripts it references. The user picks the HTML file first. The page finds its
`<link …>` and `<script …>` tags with `getTags` and reads the referenced file
names out of them with `getFileNames`. It lists those names in a text box for
the file picker (`outputFileNames`). The user then picks the referenced files.
As each one is read, every occurrence of the matching tag's text is replaced
by the file wrapped in `<style>…</style>` or `<script>…</script>`. When the
countdown of files reaches zero, the merged text is downloaded under a name
derived from the original one (`downloadMergedFile`).

This project models that engine in the following modules:

- `Define` (`define.dfy`) holds the constant tables of `define.js`: the tag kinds, the wrapper markup, and the attribute names.
- `Matching` (`matching.dfy`) holds the regular expressions of the engine as scanners over `seq<char>`. `MatchAt` tries a pattern at one position. `Spans` and `MatchAll` are `String.prototype.match` with the `g` flag: a left-to-right search that resumes after each match.
- `Tags` (`tags.dfy`) holds `getTags` and `getFileNames`. Each is a method with the source's loop, proved equal to a specification function: `TagsOf` and `FileNamesOf`.
- `Names` (`names.dfy`) holds the download name and the picker text. The picker text is built by a loop method, proved equal to `PickerSpec`.
- `Replace` (`replace.dfy`) holds the replacement a file load performs, read as a literal global replace-all.
- `Handlers` (`handlers.dfy`) holds the two change handlers and the four globals they share:
  - pure transition functions (`Load`, `Choose`, `Loaded`, `RunLoads`), with the session properties proved about them;
  - a `Session` class whose fields are the globals and whose methods are proved to follow those functions.

Design decisions:

- Each FileReader `onload` is one atomic call, and the order of the calls is an input (`RunLoads` over a list of `FileLoad`s).
- File `i` is paired with tag `i` of `getTags`, as the handler indexes `g_tags[i]`. It is not paired with file name `i`. The two numberings differ once a tag without the attribute comes before a tag with one: `NameMovesUpAfterSkip` shows that the later tag's name then sits at an earlier place in the list of names.
- Errors the code would throw are modelled as results, not excluded by preconditions. The one exception is the `SyntaxError` of `new RegExp` on a tag text that is not a valid pattern; see "## Left out".
  - `getFileNames` gives `None` when `url` is `null`. `LoadSource` then ends as `Aborted` and the state is unchanged.
  - A load for an index without a tag is `TagOutOfRange`: the `TypeError` on `g_tags[i].data`, before the countdown drops.
- `g_rest_files` is an unbounded `int`. The download fires whenever the decremented count is `<= 0`, as written.

Behaviour worth noting:

- No step drops `http:` or `https:` references: a remote stylesheet's URL is listed like a local file name.
- Tag matching is case-sensitive, so `<LINK>` is not found (`UpperCaseLinkIgnored`).
- A file load removes nothing beyond the occurrences of its own tag's text.
- Only the first `/` of each name is turned into `\` in the picker text.

## Model

| member | source | states |
|---|---|---|
| Define.Index | define.js:9-10 | TAG_LINK and TAG_SCRIPT are distinct, each is the index of exactly one kind, and both are valid indices into TAG_START, TAG_END and ATTR_PATTERN |
| Define.Wrap | define.js:13-14 | a link file is wrapped as `<style>`…`</style>`, a script file as `<script>`…`</script>` (the split `'<' + '/script>'` is exactly `</script>`), and nothing else is added |
| Define.AttrOpener | define.js:17 | the attribute searched is `href="` for links and `src="` for scripts: double-quoted values only, with the quote as the opener's only `"` |
| Matching.ClosedRunAt | main.js:58 | a match of `prefix[^stop]*stop` starts with the prefix, runs to the first `stop` after it and holds no earlier `stop`; there is no match exactly when the prefix is absent or no `stop` follows it |
| Matching.ScriptAt | main.js:69 | the script pattern matches exactly where its start tag `<script[^>]*>` matches, and never ends before that start tag does |
| Matching.ScriptEndShape | main.js:69 | a script match ends at its start tag, or after a `<`-free body followed by `</script>` |
| Matching.ScriptEndIff | main.js:69 | the optional body group is left out exactly when every later `</script>` has a `<` in front of it |
| Matching.MatchAllSpans | main.js:58 | the texts `match` returns (MatchAll) are the texts of the spans of the global search, one for one |
| Matching.SpansMatch | main.js:58 | each reported span is the match of the pattern at its start; MatchAt is that one-position match for each pattern: `<link[^>]*>` (main.js:58), the script pattern (main.js:69), the attribute patterns of define.js:17, `"[^"]*"` (main.js:100), and the literal tag text a file load searches for |
| Matching.SpansOrdered | main.js:58 | the reported matches are left to right and do not overlap |
| Matching.SpansComplete | main.js:58 | no match is missed: every position where the pattern matches starts a reported span or lies inside one |
| Matching.NoMatchNoSpans | main.js:61 | where the pattern matches nowhere, the search reports nothing (`match` gives `null`) |
| Matching.NoMatchBeforeFirst | main.js:95 | before the first reported match, the pattern matches nowhere |
| Matching.FirstMatch | main.js:95 | `match(...)[0]` is the text of the leftmost match |
| Matching.MatchFirst | main.js:100 | a match with none before it is `match(...)[0]` |
| Tags.GetTags | main.js:53-80 | the two push loops return every link match followed by every script match (TagsOf) |
| Tags.TagAt | main.js:55-79 | entry k is link match k when k is below the number of links, and script match k minus that number otherwise |
| Tags.LinksBeforeScripts | main.js:58-76 | every link entry comes before every script entry, whatever the interleaving in the document |
| Tags.TagPosition | main.js:58-69 | every entry is the text of a match of its kind's pattern at some position of the source |
| Tags.TagSpan | main.js:58-76 | entry k is read from span k of the link search, or from the matching span of the script search |
| Tags.KindSplit | main.js:58-76 | entry k is a link exactly when k is below the number of link matches; otherwise it is within the script matches |
| Tags.ReadSpansOrdered | main.js:58-76 | of two entries of one kind, the span the earlier one was read from (ReadSpan) ends before the later one's starts |
| Tags.TagsInSourceOrder | main.js:58-76 | within a kind, each entry is the text at the start of the span the search reported for it (ReadSpan), and an earlier entry ends in the source before a later one starts |
| Tags.LinkTagShape | main.js:58 | every link entry starts with lower-case `<link` and ends at the first `>` after it |
| Tags.ScriptTagShape | main.js:69 | every script entry starts with `<script`; its start tag ends at the first `>`; the entry ends there or after a `<`-free body and `</script>` |
| Tags.TagsNonEmpty | main.js:58-69 | every entry is non-empty, so it can serve as a replacement pattern |
| Tags.NoOpenersNoTags | main.js:58-79 | a source with no `<link` and no `<script` yields no tags |
| Tags.UpperCaseLinkIgnored | main.js:58 | matching is case-sensitive: `<LINK>` yields no tags |
| Tags.FirstQuoted | main.js:100 | in `attr="v"` with a quote-free `v`, the first quoted string is `"v"` |
| Tags.UrlOfQuoted | main.js:101 | the lookaround match (UrlOf) reads back the text between the quotes, and throws exactly when it holds a line terminator |
| Tags.NameOfMeaning | main.js:95-102 | the loop body for one tag (NameOf): a tag is skipped exactly when it has no attribute match; otherwise its name is the value inside the quotes of the first attribute match, with no `"` and no line terminator; it throws exactly when that value holds a line terminator |
| Tags.GetFileNames | main.js:87-106 | the loop returns the names of the tags in order, or None when a tag throws (FileNamesOf) |
| Tags.CollectDefined | main.js:93-103 | getFileNames throws exactly when the loop body throws for some tag |
| Tags.CollectFollowsTags | main.js:93-103 | at most one name per tag, in tag order: name m comes from tag idx[m], the indices rise strictly, every tag with a name is among them, and duplicates are kept |
| Tags.SkippedTagShortensNames | main.js:98 | a skipped tag makes the list of names shorter than the list of tags |
| Tags.NameMovesUpAfterSkip | main.js:93-103 | when a skipped tag k comes before a named tag j, tag j's name is at a place m < j of the names, so name j and tag j no longer correspond |
| Tags.FileNamesUnquoted | main.js:95-102 | no file name holds `"` or a line terminator |
| Names.DownloadName | main.js:121-128 | the download name always holds `Merged.html` and is 6 or 11 characters longer than the name |
| Names.DownloadNameInserts | main.js:121-124 | with the first `.html` at k, `Merged` is inserted at k and everything else is kept |
| Names.DownloadNameAppends | main.js:125-128 | a name without `.html` gets `Merged.html` appended |
| Names.DownloadNameInvertible | main.js:121-124 | dropping the six inserted characters gives the original name back |
| Names.DownloadNameIndex | main.js:121-124 | `index.html` becomes `indexMerged.html` |
| Names.DownloadNamePage | main.js:125-128 | `page` becomes `pageMerged.html` |
| Names.ReplaceFirstSlash | main.js:44 | the length is kept, and each character is kept or is a `/` turned into `\` |
| Names.FirstSlashReplaced | main.js:44 | exactly the first `/` becomes `\`; later ones stay |
| Names.NoSlashUnchanged | main.js:44 | a name without `/` is shown as it is |
| Names.PickerEntry | main.js:44 | one entry is a quote, the shown name, a quote and a space |
| Names.PickerSpecAppend | main.js:40-45 | appending a name to the list appends its entry to the text |
| Names.PickerText | main.js:26-46 | the box is cleared and each name's entry is appended in order (PickerSpec) |
| Names.ShownAt | main.js:44 | name k is shown with its first `/` turned into `\` |
| Names.PickerRoundTrip | main.js:40-45 | for names without `"`, reading the picker text back gives exactly the shown names, in order |
| Replace.ReplaceAll | main.js:157-158 | the result's length changes by the length difference of the two texts for each occurrence the global search reports |
| Replace.ReplaceAllIsSplice | main.js:157-158 | the left-to-right replacement (ReplaceAll over ReplaceFrom) is a splice: the text outside the reported occurrences is kept, and each occurrence is replaced by the wrapped file |
| Replace.ReplaceUpToFirst | main.js:158 | the text before the first occurrence is kept, and the replacement follows it |
| Replace.ReplaceAllUnchangedIff | main.js:157-158 | the source is unchanged exactly when the replacement equals the tag text or the tag text does not occur |
| Replace.ReplaceChanges | main.js:158 | a different replacement changes a text that holds an occurrence |
| Handlers.Load | main.js:171-221 | the globals change only when names are listed; the countdown is never touched; stored tags stay non-empty |
| Handlers.LoadListsIff | main.js:189-213 | names are listed exactly when a file was chosen and getFileNames found at least one name; the new globals are that file's text, its tags and its name, and the picker text is that of the names |
| Handlers.LoadPickerReadsBack | main.js:197-209 | the picker text of a listed load reads back as exactly the names it shows |
| Handlers.Choose | main.js:144-148 | the countdown becomes the number of chosen files, and nothing else changes |
| Handlers.Loaded | main.js:155-162 | a load for a missing tag changes nothing; otherwise the countdown drops by one, the tags and file name are kept, and the download fires exactly when the count was 1 or less, with the new source and the derived name |
| Handlers.LoadedReplacesTag | main.js:157-158 | load i replaces every occurrence of tag i's text and keeps the rest; a tag text that no longer occurs leaves the source as it was |
| Handlers.RunLoads | main.js:151-163 | a run of loads gives one completion per load and keeps the tags |
| Handlers.CountdownFires | main.js:148-161 | with every load in range, load k fires exactly when the countdown had k + 1 or fewer left, and the countdown drops by the number of loads |
| Handlers.DownloadOnLastLoad | main.js:148-161 | with the countdown set to the number of files and one load per file, the download fires on the last load and on no earlier one |
| Handlers.NoDownloadWhileAhead | main.js:161 | while the countdown exceeds the loads that can decrement it, nothing is downloaded |
| Handlers.OutOfRangeBlocksDownload | main.js:157-161 | a load for an index without a tag throws before the countdown drops, so the merged file is never downloaded |
| Handlers.Session.constructor | main.js:134-137 | the globals start empty with the countdown at zero |
| Handlers.Session.LoadSource | main.js:171-221 | the handler changes the globals exactly as Load says and keeps them valid |
| Handlers.Session.ChooseFiles | main.js:144-148 | the handler sets the countdown as Choose says |
| Handlers.Session.FileLoaded | main.js:155-162 | the `onload` changes the globals and reports the completion exactly as Loaded says |

## Left out

- DOM and I/O are not modelled. This covers `printOutputArea` and the numbered `<br>` list, `querySelector`, showing and hiding the reference area, `select()` with `execCommand('copy')`, and `Blob` / `createObjectURL` / `click()`. The model keeps only the strings these receive: the picker text, and the download text with its name.
- `modal.js` only toggles the display of an element, so it is not part of this model.
- FileReader asynchrony is not modelled. Each `onload` is one atomic call, and the completion order is an input list. A source loaded again while a merge is pending is just another `LoadSource` call between the loads.
- Handlers.Loaded: the tag text is searched literally. The code builds `new RegExp(tag, 'g')`, so metacharacters in the tag text (`.`, `?`, `+`, `(`) would act as pattern syntax there. The code's `String.replace` would also expand `$&` or `$1` in the file content. Both effects are left out.
- Handlers.Loaded: a tag text that is not a valid pattern makes `new RegExp` throw a `SyntaxError`. Examples are `<script src="c++.js">` and a tag with an unbalanced `(` or `[`. The throw comes before `--g_rest_files` (main.js:157-161), so in the code that merge never downloads. The model treats such a load as an ordinary literal replacement that counts down.
- Handlers.Session.FileLoaded: as for Loaded, the replacement is literal, with no regular-expression syntax in the tag and no `$` patterns in the content.
- Handlers.Session.constructor: the globals start `undefined` in the code and are modelled as empty values and 0. The code cannot load a file before a ref-files choice: every `onload` is set up inside `ref_files.onchange`, after `g_rest_files = files.length` (main.js:148-155). The model's `Session` also allows `FileLoaded` without an earlier `ChooseFiles`; such a load counts down from 0.
- Handlers.Loaded: it requires that the stored tags are non-empty, which `getTags` guarantees (`TagsNonEmpty`). Only the initial empty session has no tags.
- The `g` flag on `ATTR_PATTERN` does not leave `lastIndex` state behind, because `String.prototype.match` resets it. The attribute search is therefore a plain global search.
