# Playlist launcher pipeline, modelled in Dafny

`playlist_to_html.py` asks a video extractor for the `<title>|<id>` lines of a
playlist. It keeps the usable lines, sorts the videos by a natural-sort key of
their titles, and writes an HTML launcher page. The page embeds a `lectures`
array with one record per video, and its file name is derived from the page
title.

This project models the pure string pipeline between the extractor's output and
the written page. It proves the properties that pipeline promises.

| file | module | what it models |
|---|---|---|
| `results.dfy` | `Results` | `Option`, `Result` and the one failure of the pipeline, "No valid videos found." |
| `text.dfy` | `Text` | ASCII character classes, `str.strip`, `in` on strings, `str.replace` of one character, `str.lower`, `str.join` |
| `runs.dfy` | `MaximalRuns` | splitting a string into maximal runs of one character class, the shape of the `natural_key` regular expression and of `[^\w]+` |
| `filter.dfy` | `Filtering` | the shape of the line loop: each input is judged alone and the kept outputs stay in input order |
| `entries.dfy` | `Entries` | `sanitize_title`, `extract_entry` and line admission, as a function and as the loop of `main` |
| `sort.dfy` | `StableSort` | `list.sort(key=...)`: a stable sort by a key under a strict total order |
| `natural_sort.dfy` | `NaturalSort` | `natural_key`, the order on keys and the sort of entries |
| `title.dfy` | `PageTitles` | the page title with its default |
| `filename.dfy` | `FileNames` | `safe_filename_from_title` |
| `lectures.dfy` | `LectureArray` | the `lecture_js` records and their join, plus a reader that recovers the entries |
| `pipeline.dfy` | `Pipeline` | `main` once the extractor has succeeded: typed title and output lines in, page contents out |

Character classes are ASCII only:
- whitespace is what `str.isspace` accepts below 128: space, tab through carriage return, and 0x1C-0x1F;
- `\d` and `isdigit` are `0`-`9`;
- `\w` is letters, digits and `_`;
- `lower` maps `A`-`Z` only.

The sort's comparator is total. At a position where one key holds a number
and the other a word, the number comes first. Python raises `TypeError` there
instead (see "Findings"). `NaturalSort.PyKeyLess` models the comparison as
written, and the model proves that the two agree wherever Python returns.

`SortEntries` is an insertion sort rather than Python's Timsort.
`NaturalSort.StableSortUnique` proves that every stable sort by the same key
returns the same sequence.

## Model

| member | source | states |
|---|---|---|
| Text.Strip | playlist_to_html.py:133 | the stripped string neither starts nor ends with a character of the stripped class and is no longer than the input |
| Text.StripIsTrim | playlist_to_html.py:133 | what strip returns is a contiguous slice of its input, with only characters of the stripped class cut from either side |
| Text.StripUnique | playlist_to_html.py:133 | strip is determined by that description: for any split of the input into a stripped-class prefix, a bare middle and a stripped-class suffix, it returns the middle |
| Text.StripIdempotent | playlist_to_html.py:133 | stripping twice is stripping once |
| Text.StripKeepsAll | playlist_to_html.py:142-144 | a property every character of the input has, every character of the stripped string has |
| Text.Contains | playlist_to_html.py:168-170 | `pat in s` holds exactly when pat occurs at some index of s |
| Text.ReplaceChar | playlist_to_html.py:133 | position by position, each occurrence of the replaced character becomes the replacement and every other character stays; so the length is kept and no occurrence is left |
| Text.ReplaceCharFixpoints | playlist_to_html.py:133 | replacing leaves a string unchanged exactly when it lacks the replaced character, and replacing twice is replacing once |
| Text.Lower | playlist_to_html.py:128 | lower-casing keeps the length, turns each upper-case letter into the lower-case letter at the same place in the alphabet, leaves no upper-case letter and keeps every other character, digits included, in place |
| Text.LowerIdempotent | playlist_to_html.py:128 | lower-casing twice is lower-casing once |
| Text.Join | playlist_to_html.py:185 | definition of `sep.join(parts)`; see LectureArray.LecturesCons |
| MaximalRuns.RunLength | playlist_to_html.py:129 | the length of the longest prefix of one class: all of it is of that class, and the next character is not |
| MaximalRuns.Runs | playlist_to_html.py:129 | the runs are non-empty, each is all digits or all non-digits, neighbouring runs alternate in class, and together they concatenate back to the title |
| MaximalRuns.RunSplitUnique | playlist_to_html.py:129 | any split with those properties is the computed one, so the runs are the maximal runs and are unique |
| MaximalRuns.RunsAppend | playlist_to_html.py:129 | where two strings meet at a change of class, the runs of their concatenation are the runs of each |
| MaximalRuns.SingleRun | playlist_to_html.py:129 | a non-empty string of one class is a single run |
| Entries.SanitizeTitle | playlist_to_html.py:131-133 | the sanitised title is the whitespace-trim of the title with every double quote turned into a single quote; so it holds no double quote, has no surrounding whitespace and is no longer than the input |
| Entries.SanitizeFixpoints | playlist_to_html.py:131-133 | sanitising leaves a title unchanged exactly when it has no double quote and no surrounding whitespace, so sanitising twice is sanitising once |
| Entries.LastIndexOf | playlist_to_html.py:137 | the position found holds the delimiter and no delimiter follows it |
| Entries.ExtractEntry | playlist_to_html.py:135-138 | the extracted title is quote-free with no surrounding whitespace, and the id has no surrounding whitespace |
| Entries.ExtractSplitsOnLast | playlist_to_html.py:135-138 | for t, the delimiter and a delimiter-free v, the result is the sanitised t and the stripped v, so a delimiter inside the title stays in the title |
| Entries.ExtractRoundTrip | playlist_to_html.py:135-138 | a clean title and a bare, delimiter-free id come back unchanged from their line |
| Entries.ParseLine | playlist_to_html.py:166-177 | a line without the delimiter or containing `[Private video]` is dropped; a kept line yields extract_entry of it, with an id of exactly 11 characters and a quote-free, stripped title |
| Entries.ParseFieldLine | playlist_to_html.py:166-177 | for a line of t, the delimiter and a delimiter-free v, the verdict is exactly: dropped when the line contains the private marker or the stripped v is not 11 characters long, and otherwise the sanitised t with the stripped v |
| Filtering.Survivors | playlist_to_html.py:166-177 | judging each input alone yields at most one output per input; see the append, dropped and kept lemmas |
| Entries.ParseLines | playlist_to_html.py:166-177 | at most one entry per line, and every entry is admissible |
| Entries.CollectEntries | playlist_to_html.py:166-177 | the loop of main, with its three `continue`s, computes exactly the entries of ParseLines |
| Entries.EntriesFromLines | playlist_to_html.py:166-177 | every entry is what some input line yields |
| Entries.ParseLinesAppend | playlist_to_html.py:166-177 | parsing distributes over concatenation of the input, so entries keep the input order |
| Entries.DroppedLineIrrelevant | playlist_to_html.py:166-177 | removing a dropped line does not change the entries of the other lines |
| Entries.AcceptedLineKept | playlist_to_html.py:166-177 | an accepted line contributes its entry between the entries of the lines before it and those after it |
| Entries.NothingAccepted | playlist_to_html.py:179-181 | no entry results exactly when every line is dropped |
| Entries.ParseEntries | playlist_to_html.py:166-181 | the outcome is the "no valid videos" failure exactly when no line is accepted; otherwise it is exactly the entries of ParseLines, a non-empty list of admissible entries |
| NaturalSort.Value | playlist_to_html.py:128 | definition of `int` on a digit run; see NaturalSort.KeyOfNumbered |
| NaturalSort.TokenOf | playlist_to_html.py:128 | definition of one key element; see NaturalSort.KeyOfNumbered and NaturalSort.KeyOfWord |
| NaturalSort.KeyAppend | playlist_to_html.py:129 | where a title is split between a digit and a non-digit, its key is the key of the front followed by the key of the back |
| NaturalSort.NaturalKey | playlist_to_html.py:126-129 | one key element per run; the key is empty exactly when the title is; its first element is a number exactly when the title starts with a digit; numbers and words alternate |
| NaturalSort.KeyIgnoresCase | playlist_to_html.py:128 | lower-casing a title does not change its key |
| NaturalSort.KeyOfNumbered | playlist_to_html.py:128-129 | appending a number to a title that does not end in a digit appends one element, the number's value |
| NaturalSort.NumberedTitlesOrder | playlist_to_html.py:126-129 | titles that differ only in a trailing number are ordered by its value, so "Lecture 2" comes before "Lecture 10" |
| NaturalSort.LectureKey | playlist_to_html.py:126-129 | "Lecture " or "lecture " followed by digits of value n has the key [word "lecture ", number n] |
| NaturalSort.LexIrreflexive | playlist_to_html.py:183 | list comparison never puts a list before itself |
| NaturalSort.LexTransitive | playlist_to_html.py:183 | list comparison over a strict total order on elements is transitive |
| NaturalSort.LexTotal | playlist_to_html.py:183 | list comparison over a strict total order on elements orders any two different lists |
| NaturalSort.LexCommonPrefix | playlist_to_html.py:183 | a shared prefix does not decide a list comparison |
| NaturalSort.TokenLess | playlist_to_html.py:183 | definition of the order on key elements; see NaturalSort.TokenLessStrictTotal |
| NaturalSort.KeyLess | playlist_to_html.py:183 | definition of the order on keys; see NaturalSort.KeyLessStrictTotal |
| NaturalSort.TokenLessStrictTotal | playlist_to_html.py:183 | the order on key elements (numbers by value, words as strings, numbers first) is a strict total order |
| NaturalSort.KeyLessStrictTotal | playlist_to_html.py:183 | the order on keys used by the sort is a strict total order: every two titles are comparable |
| NaturalSort.PyKeyLess | playlist_to_html.py:183 | definition of Python's list comparison, with `None` for `TypeError`; see NaturalSort.PyKeyLessAgrees and NaturalSort.PyKeyLessRaises |
| NaturalSort.PyKeyLessAgrees | playlist_to_html.py:183 | wherever Python's comparison of two keys returns, the model's order gives the same answer |
| NaturalSort.AlignedKeysCompare | playlist_to_html.py:183 | two keys whose first elements are of the same kind compare without error |
| NaturalSort.PyKeyLessRaises | playlist_to_html.py:183 | Python's comparison of two titles' keys raises exactly when both titles are non-empty and one starts with a digit while the other does not |
| NaturalSort.MixedTitlesRaise | playlist_to_html.py:183 | the keys of "10 things" and "Intro" cannot be compared by Python |
| NaturalSort.SortEntries | playlist_to_html.py:183 | the sorted entries are a permutation of the input, in non-decreasing natural-key order |
| NaturalSort.SortEntriesStable | playlist_to_html.py:183 | entries whose titles share a key come out in their input order |
| NaturalSort.StableSortUnique | playlist_to_html.py:183 | any arrangement in key order that keeps each key's entries in input order is the sorted result, so every stable sort by this key agrees with SortEntries |
| NaturalSort.LectureOrder | playlist_to_html.py:127 | entries titled "Lecture 10", "Lecture 2" and "lecture 1" sort to "lecture 1", "Lecture 2", "Lecture 10" |
| StableSort.InOrderTotalPreorder | playlist_to_html.py:183 | under a strict total order on keys, "may stand before" is a total preorder on items |
| StableSort.SortedCons | playlist_to_html.py:183 | a head that may stand before every item of a sorted tail gives a sorted sequence |
| StableSort.Insert | playlist_to_html.py:183 | inserting adds exactly one item and keeps a sorted sequence sorted |
| StableSort.Sort | playlist_to_html.py:183 | the result is a permutation of the input, sorted whenever the order on keys is a strict total order |
| StableSort.InsertStable | playlist_to_html.py:183 | inserting x adds it to the items of its key and leaves the items of every other key as they were |
| StableSort.SortStable | playlist_to_html.py:183 | for every key, the items with that key come out in their input order |
| StableSort.InWithKey | playlist_to_html.py:183 | an item is in a sequence exactly when it is among the sequence's items of its own key |
| StableSort.SortedStableUnique | playlist_to_html.py:183 | two sorted sequences that agree on the order of every key's items are equal |
| StableSort.SortDescendingThree | playlist_to_html.py:183 | three items given in strictly descending key order come out reversed |
| PageTitles.PageTitle | playlist_to_html.py:148-150 | the page title is non-empty with no surrounding whitespace: the typed text stripped, or "YouTube Playlist" when nothing is left |
| PageTitles.PageTitleStable | playlist_to_html.py:148-150 | a page title typed back in is kept unchanged |
| FileNames.SubNonWord | playlist_to_html.py:143 | the substituted string consists of word characters only |
| FileNames.SubNonWordAlnums | playlist_to_html.py:143 | the substitution keeps every letter and digit, in order |
| FileNames.SubNonWordKeepsWords | playlist_to_html.py:143 | word characters pass through the substitution unchanged |
| FileNames.SubNonWordCollapses | playlist_to_html.py:143 | a whole run of non-word characters becomes exactly one underscore |
| FileNames.AlnumsOfStripSpace | playlist_to_html.py:142 | stripping whitespace keeps every letter and digit |
| FileNames.AlnumsOfStripUnderscore | playlist_to_html.py:144 | stripping underscores keeps every letter and digit |
| FileNames.FileStem | playlist_to_html.py:140-144 | the stem has only word characters, neither starts nor ends with `_`, and holds exactly the title's letters and digits in order |
| FileNames.SafeFilename | playlist_to_html.py:140-144 | the file name ends in ".html" and the part before it is such a stem |
| FileNames.FileStemFixpoints | playlist_to_html.py:140-144 | the stem of t is t exactly when t is made of word characters and neither starts nor ends with `_` |
| FileNames.FilenameExample | playlist_to_html.py:140-144 | a title made of the words "My", "Playlist" and "2024" separated by " " and "!! " is written to "My_Playlist_2024.html" |
| FileNames.FilenameExampleText | playlist_to_html.py:140-144 | "My Playlist!! 2024" is written to "My_Playlist_2024.html" |
| FileNames.DefaultFilename | playlist_to_html.py:140-144 | a title of the words "YouTube" and "Playlist" separated by " " is written to "YouTube_Playlist.html" |
| FileNames.DefaultFilenameText | playlist_to_html.py:140-144 | the default title "YouTube Playlist" is written to "YouTube_Playlist.html" |
| LectureArray.Record | playlist_to_html.py:186 | definition of one record; see LectureArray.ReadRecordOf |
| LectureArray.Lectures | playlist_to_html.py:185-188 | definition of the array text; see LectureArray.LecturesCons and LectureArray.LecturesRoundTrip |
| LectureArray.Expect | playlist_to_html.py:186 | reading a fixed piece of record text succeeds exactly when the text starts with it, and returns what follows |
| LectureArray.ReadField | playlist_to_html.py:186 | a field is read up to the first double quote: the two parts concatenate back to the input and the field holds no quote |
| LectureArray.ReadRecordOf | playlist_to_html.py:186 | the record of a quote-free entry reads back as that entry, with what follows it left over |
| LectureArray.LecturesCons | playlist_to_html.py:185-188 | the array text of two or more entries is the first record, the `",\n"` separator and the array of the rest |
| LectureArray.LecturesRoundTrip | playlist_to_html.py:185-188 | the array text of a non-empty list of quote-free entries reads back as exactly those entries: one record per entry, in order |
| Pipeline.Generate | playlist_to_html.py:148-194 | main fails with "no valid videos" exactly when every line is dropped; otherwise the page has the stripped or default title, its safe file name, the accepted entries sorted under the total natural order, and their array text |
| Pipeline.GeneratedPageFaithful | playlist_to_html.py:166-188 | the page lists the sorted accepted entries, keeps each key's entries in input order, and, when no id holds a double quote, its array reads back as exactly those entries |

## Left out

- The call to the extractor, its exit code and stderr, and `sys.exit` (playlist_to_html.py:154-164) are external process I/O. The extractor's output is a parameter: a sequence of lines.
- `str.splitlines` (playlist_to_html.py:167): the lines are taken as already split.
- `input()`, `print` and `Path.write_text` (playlist_to_html.py:147-152, :180, :195-198) are terminal and file I/O. The typed title is a parameter. The URL is only passed to the extractor, so it is not modelled.
- `HTML_TEMPLATE` and its `.format` call (playlist_to_html.py:11-124, :190-193) are a fixed page asset. `Pipeline.Page` holds the values substituted into it: the title, the array text, and the file name it is written to.
- Unicode semantics of `\d`, `\w`, `isdigit`, `lower` and `strip`: only ASCII is modelled.
- NaturalSort.SortEntries: it orders a number before a word at the same key position, where Python raises `TypeError`. The comparison as written is NaturalSort.PyKeyLess (see "Findings").
- Entries.ExtractEntry: requires the line to hold the delimiter. Python's unpacking of a one-element split raises `ValueError`, and main only calls it on lines that hold one.
- LectureArray.LecturesRoundTrip: requires titles and ids without double quotes. Titles are sanitised, but ids are not: the source relies on platform ids never holding a quote. The reader reads text, not JavaScript string literals, so a backslash in a title is not treated as an escape.
- Pipeline.GeneratedPageFaithful: the round trip is stated for pages whose ids hold no double quote, for the reason just given.
- Pipeline.Generate: it returns a page for every playlist with an accepted line, including those main crashes on: when two accepted titles are non-empty and one starts with a digit while the other does not (say "10 things" and "Intro"), the sort at playlist_to_html.py:183 raises `TypeError` before any page is written. Its sorted entries follow the total order of NaturalSort.KeyLess (see "Findings").
- Pipeline.GeneratedPageFaithful: its sorted-order and stability clauses describe the corrected sort; for the playlists named in the line above, main writes no page at all.
- Entries.SanitizeTitle: the model does not promise that a sanitised title is safe inside a JavaScript string literal, and neither does the code, despite its docstring at playlist_to_html.py:132. Only the double quote is replaced; a backslash is kept, so a title ending in one, such as `Files C:\`, yields the record text `title: "Files C:\"`, where the backslash escapes the closing quote and breaks the page's script. Newlines cannot occur, since titles come from single lines.

## Findings

| source | as written | input that shows it | evidently intended | confidence | as-written member | corrected member |
|---|---|---|---|---|---|---|
| playlist_to_html.py:183 | the sort compares natural keys with Python's `<` on lists; where one key holds an int and the other a str at the first differing position, the comparison raises `TypeError` and main crashes | a playlist with the titles "10 things" and "Intro" (keys `[10, " things"]` and `["intro"]`) | every two titles are comparable, so any playlist can be sorted | not executed | NaturalSort.MixedTitlesRaise | NaturalSort.KeyLessStrictTotal |
