# Zephyr editor core, modelled in Dafny

Zephyr is a small desktop text editor. This project models what it does to text
and to its own state, leaving the windows and widgets aside:

- **TextDocument**: the line commands a document offers (create a line above or
  below, duplicate, join, move up or down, select a line or its text, change case)
  and its whole-word, case-insensitive search.
- **Finder**: the engine behind the find dialog. It caches the search results and
  walks them forwards and backwards, wrapping around the text.
- **TextArea** and **FindDialog**: how the component passes its caret and selection
  to those commands and what it selects afterwards, and what the find dialog
  remembers between openings.
- **FileManager**, **FileChooser** and **ColorHEXTransformer**: the string transforms
  of reading and writing a file with a preferred line separator, the extension rule
  of the save dialog, and the colour encoding of the preferences file.
- **Session**, **PreferencesManager** and **MainFrame**: the session record, the
  window resize actions, and the main window's bookkeeping. That bookkeeping covers
  the recent-documents list, the line-separator menu, the window title, opening and
  closing tabs, and exit.

Each Java class is one Dafny module, under its own name except in a few cases:
`ColorHex` is `ColorHEXTransformer`, and `TextDocument` is split three ways.
`TextDocument` keeps the document record and its primitive edits, `TextLines` holds
the line commands, and `TextFind` holds the search. Two modules model library
behaviour that the editor relies on:

- `JavaText` models the `String` methods the editor calls.
- `View` models the text component's caret and selection rules.

Mutable objects become immutable records, and each operation is a pure function
from the old state to the new one. Events that the document fires are the `fired`
flag of an `Edit`, and a fired event marks the document unsaved. The user's answers
to dialogs, the outcome of reading a file and the preferences come in as
parameters.

Behaviours of the code worth knowing:

- A search reports overlapping occurrences: "aa" is found twice in "aaa".
- A new scan keeps the finder's wrap-around flags.
- A whole-word search fails with an index error when a match ends the text.
- Searching in an empty text gives no results.
- `duplicateLines` and `joinLines` compare the character at the selection end with
  the letter 'n', not with a line feed.
- `joinLines` starts its range after the last '\n' *at or before* the selection
  start. So a line feed exactly at the start is not joined.

## Model

| member | source | states |
|---|---|---|
| TextDocument.InsertAt | src/main/java/zephyr/text/TextDocument.java:126 | inserting keeps the text before the offset, puts the new text at the offset and shifts the rest behind it |
| TextDocument.RemoveAt | src/main/java/zephyr/text/TextDocument.java:327 | removing `n` characters keeps what is before the offset and closes the gap with what followed the removed span |
| TextDocument.RemoveUndoesInsert | src/main/java/zephyr/text/TextDocument.java:327-328 | removing exactly the span just inserted gives back the original text |
| TextDocument.Blank | src/main/java/zephyr/text/TextDocument.java:63-68 | a new blank document is empty, has no path, is not on disk, is marked new, and counts as saved |
| TextDocument.Opened | src/main/java/zephyr/text/TextDocument.java:80-111 | a document built from file content holds that content, is on disk and saved, and is not new |
| TextDocument.SetSaved | src/main/java/zephyr/text/TextDocument.java:497-500 | setting the saved flag also clears the new-document mark and changes nothing else |
| TextDocument.Apply | src/main/java/zephyr/text/TextDocument.java:93-109 | an edit that fires an event marks the document unsaved and no longer new; one that fires none keeps both flags |
| TextDocument.Insert | src/main/java/zephyr/text/TextDocument.java:126 | inserting nothing is a no-op at any offset; a non-empty insert is refused exactly when the offset lies outside the text, and otherwise marks the document unsaved |
| TextDocument.Remove | src/main/java/zephyr/text/TextDocument.java:327 | a non-positive length is a no-op; a positive removal is refused exactly when the span leaves the text, and otherwise marks the document unsaved |
| TextDocument.InsertThenRemove | src/main/java/zephyr/text/TextDocument.java:327-328 | a successful insert followed by removing the same span restores the text but leaves the document unsaved |
| View.SelectedText | src/main/java/zephyr/text/Finder.java:149 | the selected text is null exactly when the selection is empty; otherwise its length is the selection's width |
| View.Select | src/main/java/zephyr/ui/components/TextArea.java:52-53 | a selection is clamped into the text with its end no lower than its start; an in-range start becomes the anchor and an in-range end the caret |
| View.SetCaret | src/main/java/zephyr/text/Finder.java:117 | moving the caret collapses the selection at that offset |
| View.SetSelectionStart | src/main/java/zephyr/text/Finder.java:131 | the library setter behind the engine's selection: it selects from the new start to the current selection end; `View.StartThenEnd` states that following it with `View.SetSelectionEnd` is one `select` |
| View.SetSelectionEnd | src/main/java/zephyr/text/Finder.java:132 | the library setter that selects from the current selection start to the new end; `View.StartThenEnd` states what the pair does together |
| View.StartThenEnd | src/main/java/zephyr/ui/components/TextArea.java:52-53 | setting the selection start and then its end is the same as one `select`, whatever was selected before |
| View.SelectInside | src/main/java/zephyr/text/Finder.java:131-132 | selecting a span inside the text selects exactly that span, and the selected text is that slice |
| View.SelectCurrent | src/main/java/zephyr/ui/components/TextArea.java:135-136 | re-selecting a forward selection leaves the component as it was |
| View.CaretClearsSelection | src/main/java/zephyr/text/Finder.java:117 | after a caret move nothing is selected |
| JavaText.IndexOfChar | src/main/java/zephyr/text/TextDocument.java:139 | the result is the first offset at or after `from` holding the character, or -1 exactly when none exists |
| JavaText.LastIndexOfChar | src/main/java/zephyr/text/TextDocument.java:117 | the result is the last offset at or before `from` holding the character, or -1 exactly when none exists |
| JavaText.IndexOf | src/main/java/zephyr/text/TextDocument.java:213 | the result is the first occurrence at or after `from`, or -1 when there is none |
| JavaText.LastIndexOf | src/main/java/zephyr/text/TextDocument.java:209 | the result is an occurrence with none after it, or -1 |
| JavaText.ReplaceChar | src/main/java/zephyr/file/FileManager.java:133 | a replacement without the target leaves no target; a one-character replacement keeps the length; no new characters appear except from the replacement |
| JavaText.ReplaceCharAppend | src/main/java/zephyr/file/FileManager.java:133 | replacing distributes over concatenation |
| JavaText.ToUpper | src/main/java/zephyr/text/TextDocument.java:531 | upper-casing keeps the length and maps each character on its own, ASCII letters only |
| JavaText.ToLower | src/main/java/zephyr/text/TextDocument.java:517 | lower-casing keeps the length and maps each character on its own, ASCII letters only |
| JavaText.ToUpperIdempotent | src/main/java/zephyr/text/TextDocument.java:531 | upper-casing twice is upper-casing once; `TextLines.ToUpperCaseIdempotent` rests on it |
| JavaText.ToLowerIdempotent | src/main/java/zephyr/text/TextDocument.java:517 | lower-casing twice is lower-casing once; `TextLines.ToLowerCaseIdempotent` rests on it |
| JavaText.ToLowerKeepsLower | src/main/java/zephyr/text/TextDocument.java:204-207 | a string without upper-case letters is its own lower-case form |
| JavaText.OccursByChars | src/main/java/zephyr/text/TextDocument.java:209-215 | a string occurs at an offset when each of its characters stands at the matching place |
| TextLines.CreateLineAbove | src/main/java/zephyr/text/TextDocument.java:113-133 | exactly one '\n' is inserted: in front of the last '\n' before the caret, else in front of the first '\n', else at the end; the returned caret is just after it |
| TextLines.CreateLineBelow | src/main/java/zephyr/text/TextDocument.java:135-152 | exactly one '\n' is inserted in front of the first '\n' at or after the caret, or at the end, with no '\n' between caret and insertion point; the caret is just after it |
| TextLines.SelectLine | src/main/java/zephyr/text/TextDocument.java:423-439 | the span is the whole line holding the caret: no '\n' inside, bounded by '\n' or the ends of the text, and containing the caret |
| TextLines.SelectLineText | src/main/java/zephyr/text/TextDocument.java:441-469 | the trimmed span of the caret's line; `TextLines.SelectLineTextTrims` and `TextLines.SelectLineTextBlankLine` state what it selects on lines with and without a non-blank character |
| TextLines.Trim | src/main/java/zephyr/text/TextDocument.java:443-468 | the trimming step of `selectLineText` on a given range; `TextLines.TrimTrims` states that it cuts exactly the blanks at both ends |
| TextLines.NonBlankScans | src/main/java/zephyr/text/TextDocument.java:441-469 | the forward and backward blank scans agree: both find something exactly when the line holds a non-blank character, the first no later than the last |
| TextLines.SelectLineTextTrims | src/main/java/zephyr/text/TextDocument.java:441-469 | on a line with a non-blank character the span runs from its first to its last non-blank character, with only spaces and tabs cut off on either side |
| TextLines.TrimTrims | src/main/java/zephyr/text/TextDocument.java:441-469 | on any range holding a non-blank character, trimming keeps exactly the span from its first to its last non-blank character |
| TextLines.SelectLineTextBlankLine | src/main/java/zephyr/text/TextDocument.java:441-469 | on a line of blanks only, the span is one character wide at `index` past the line start, because both scans keep their start value |
| TextLines.SegmentEnd | src/main/java/zephyr/text/TextDocument.java:160-167 | the segment ends at the selection end when that is the text's end or holds an 'n'; otherwise it ends at the next '\n', or at the last character |
| TextLines.SegmentStart | src/main/java/zephyr/text/TextDocument.java:158 | the segment starts after the last '\n' at or before the selection start, or at 0 when there is none |
| TextLines.DuplicateLines | src/main/java/zephyr/text/TextDocument.java:154-176 | duplicating the segment around the selection; `TextLines.DuplicateAtEndDoesNothing`, `TextLines.DuplicateSingleLine` and `TextLines.DuplicateStopsAtLetterN` state what it inserts |
| TextLines.JoinLines | src/main/java/zephyr/text/TextDocument.java:307-333 | joining the lines of the segment with the pattern; `TextLines.JoinLinesRemovesNewlines`, `TextLines.JoinLinesFewerLineFeeds` and `TextLines.JoinSkipsLineFeedAtStart` state what it removes |
| TextLines.DuplicateAtEndDoesNothing | src/main/java/zephyr/text/TextDocument.java:154-176 | with the selection ending at the end of the text nothing is duplicated and no event fires |
| TextLines.DuplicateSingleLine | src/main/java/zephyr/text/TextDocument.java:154-176 | on a single line with the caret not on an 'n', the line is duplicated exactly once |
| TextLines.DuplicateStopsAtLetterN | src/main/java/zephyr/text/TextDocument.java:162 | with the caret on the letter 'n' of "banana" only "ban" is copied, giving "banbanana" |
| TextLines.JoinLinesRemovesNewlines | src/main/java/zephyr/text/TextDocument.java:307-333 | after a join with a pattern free of line feeds, the joined range holds none and the text before and after it is unchanged |
| TextLines.JoinLinesFewerLineFeeds | src/main/java/zephyr/text/TextDocument.java:307-333 | a line feed strictly inside the selection makes the join fire and lowers the number of line feeds |
| TextLines.JoinSkipsLineFeedAtStart | src/main/java/zephyr/text/TextDocument.java:311 | a line feed exactly at the selection start is not joined: joining "a\nb" from 1 to 2 does nothing |
| TextLines.CutAndPasteSwaps | src/main/java/zephyr/text/TextDocument.java:359-367 | cutting the lower line with its '\n' and pasting it at the upper line's start is the swap of the two lines, except when the '\n' before the upper line is at offset 0 |
| TextLines.CutAndPaste | src/main/java/zephyr/text/TextDocument.java:359-367 | the common tail of both movers: cut a '\n' with the line after it and paste it at the upper line's start; `TextLines.CutAndPasteSwaps` states that this swaps the two lines, and `TextLines.MoveLineDownAfterLeadingNewline` covers the offset-0 corner |
| TextLines.MoveLineDown | src/main/java/zephyr/text/TextDocument.java:335-380 | the text is left alone and `{index, index}` comes back exactly when there is no line below the caret |
| TextLines.MoveLineUp | src/main/java/zephyr/text/TextDocument.java:382-421 | the text is left alone and `{index, index}` comes back exactly when there is no line above the caret |
| TextLines.MoveLineDownPermutes | src/main/java/zephyr/text/TextDocument.java:335-380 | moving a line down keeps the length and every character, with the same multiplicity |
| TextLines.MoveLineUpPermutes | src/main/java/zephyr/text/TextDocument.java:382-421 | moving a line up keeps the length and every character, with the same multiplicity |
| TextLines.MoveLineDownSwaps | src/main/java/zephyr/text/TextDocument.java:335-380 | away from the offset-0 corner, moving down swaps the caret's line with the next one and returns the caret line's new range |
| TextLines.MoveLineUpSwaps | src/main/java/zephyr/text/TextDocument.java:382-421 | away from the offset-0 corner, moving up swaps the caret's line with the previous one and returns its new range |
| TextLines.MoveLineDownAfterLeadingNewline | src/main/java/zephyr/text/TextDocument.java:345-366 | when the '\n' before the upper line is at offset 0, the lower line lands at the very front with both line feeds after it, which is not the swap |
| TextLines.ToUpperCase | src/main/java/zephyr/text/TextDocument.java:526-538 | on a valid non-empty span only that span is rewritten, in upper case, and an event fires; otherwise nothing happens |
| TextLines.ToLowerCase | src/main/java/zephyr/text/TextDocument.java:512-524 | on a valid non-empty span only that span is rewritten, in lower case, and an event fires; otherwise nothing happens |
| TextLines.ToUpperCaseIdempotent | src/main/java/zephyr/text/TextDocument.java:526-538 | upper-casing a span twice gives the same text as once |
| TextLines.ToLowerCaseIdempotent | src/main/java/zephyr/text/TextDocument.java:512-524 | lower-casing a span twice gives the same text as once |
| TextArea.CreateLineAbovePlacesCaret | src/main/java/zephyr/ui/components/TextArea.java:38-40 | the command adds one '\n' and leaves the caret right after it with nothing selected; all other text is unchanged and the document is unsaved |
| TextArea.CreateLineBelowPlacesCaret | src/main/java/zephyr/ui/components/TextArea.java:42-44 | the same for the line below |
| TextArea.SelectionRestored | src/main/java/zephyr/ui/components/TextArea.java:46-54 | duplicating and both case changes re-select exactly the offsets selected before, with the caret at the selection end |
| TextArea.JoinSelectionJoins | src/main/java/zephyr/ui/components/TextArea.java:93-96 | joining a selection with a line feed after its first offset leaves fewer line feeds and an unsaved document, and places no selection |
| TextArea.MoverWithoutNeighbour | src/main/java/zephyr/ui/components/TextArea.java:98-114 | a mover that finds no neighbouring line changes neither the document nor the selection |
| TextArea.MoverSelectsMovedLine | src/main/java/zephyr/ui/components/TextArea.java:98-114 | a mover that returns a non-empty span selects exactly that span in the new text |
| TextArea.MoveDownFromLeadingEmptyLine | src/main/java/zephyr/ui/components/TextArea.java:98-105 | moving an empty first line down changes the text, but the empty span that comes back leaves the selection untouched |
| TextArea.SelectLineSelectsLine | src/main/java/zephyr/ui/components/TextArea.java:116-120 | selecting the line selects the whole line around the caret, terminator excluded |
| TextArea.SelectLineTextSelectsTrimmedLine | src/main/java/zephyr/ui/components/TextArea.java:122-127 | on a line holding a non-blank character, selecting the line's text selects exactly the span from its first to its last non-blank character, with only blanks left outside |
| TextArea.CreateLineAboveCmd | src/main/java/zephyr/ui/components/TextArea.java:38-40 | the command selects nothing and leaves the caret inside the new text, past its first character; `TextArea.CreateLineAbovePlacesCaret` states that it sits right after the inserted '\n' |
| TextArea.CreateLineBelowCmd | src/main/java/zephyr/ui/components/TextArea.java:42-44 | the command selects nothing and leaves the caret inside the new text, past its first character; `TextArea.CreateLineBelowPlacesCaret` states that it sits right after the inserted '\n' |
| TextArea.DuplicateLinesCmd | src/main/java/zephyr/ui/components/TextArea.java:46-54 | the selection offsets read before the edit are selected again; the document keeps its name and path, never shrinks, and stays saved only when its text is unchanged |
| TextArea.JoinLinesCmd | src/main/java/zephyr/ui/components/TextArea.java:93-96 | the command places no selection of its own; the document keeps its name and path and stays saved only when its text is unchanged |
| TextArea.SelectMoved | src/main/java/zephyr/ui/components/TextArea.java:98-105 | the mover's span is selected exactly when it is non-empty, otherwise the old selection is kept; the text is the mover's and the name and path stay |
| TextArea.MoveLineDownCmd | src/main/java/zephyr/ui/components/TextArea.java:98-105 | moving the caret's line down keeps the text's length and every character with its multiplicity |
| TextArea.MoveLineUpCmd | src/main/java/zephyr/ui/components/TextArea.java:107-114 | moving the caret's line up keeps the text's length and every character with its multiplicity |
| TextArea.SelectLineCmd | src/main/java/zephyr/ui/components/TextArea.java:116-120 | the document is untouched and a span around the caret inside the text is selected |
| TextArea.SelectLineTextCmd | src/main/java/zephyr/ui/components/TextArea.java:122-127 | the document is untouched and a span is selected; `TextArea.SelectLineTextSelectsTrimmedLine` states which |
| TextArea.ToUpperCaseCmd | src/main/java/zephyr/ui/components/TextArea.java:139-147 | the selection offsets read before the edit are selected again; the document keeps its name, path and length |
| TextArea.ToLowerCaseCmd | src/main/java/zephyr/ui/components/TextArea.java:129-137 | the selection offsets read before the edit are selected again; the document keeps its name, path and length |
| TextFind.ScanFrom | src/main/java/zephyr/text/TextDocument.java:209-216 | the scan loop collects, in ascending order, exactly the occurrences after its start up to the last one |
| TextFind.PlainMatches | src/main/java/zephyr/text/TextDocument.java:209-216 | before filtering, the results are exactly the occurrences of the search string, overlapping ones included, in ascending order |
| TextFind.KeepWholeWords | src/main/java/zephyr/text/TextDocument.java:220-250 | the filter keeps exactly the results that pass the whole-word test, in their order |
| TextFind.WholeWordAt | src/main/java/zephyr/text/TextDocument.java:224-240 | the whole-word test on a match that does not end the content: the start of the text or a neutral character on the left, and one short of the end or a neutral character on the right; `TextFind.WholeWordAcceptsSecondToLast` exhibits the right-hand case |
| TextFind.WholeWordFilter | src/main/java/zephyr/text/TextDocument.java:220-250 | the filter fails exactly when some match ends at the end of the content; otherwise it keeps exactly the whole-word matches |
| TextFind.Find | src/main/java/zephyr/text/TextDocument.java:191-253 | an empty content gives no results; a plain search gives exactly the occurrences in the folded text, ascending; a whole-word search fails iff the folded content ends with the search, else keeps exactly the whole-word occurrences |
| TextFind.FindAscending | src/main/java/zephyr/text/TextDocument.java:191-253 | the results are in strictly ascending order in every mode |
| TextFind.FindInBounds | src/main/java/zephyr/text/TextDocument.java:191-253 | every result starts a match that fits inside the content |
| TextFind.AscendingUnique | src/main/java/zephyr/text/TextDocument.java:209-216 | an ascending result list is fixed by the set of offsets it holds |
| TextFind.FindKeepsOverlaps | src/main/java/zephyr/text/TextDocument.java:213 | searching "aa" in "aaa" finds both overlapping occurrences |
| TextFind.FindIgnoresCase | src/main/java/zephyr/text/TextDocument.java:204-207 | without match-case, "AB" finds both "Ab" and "ab" |
| TextFind.FindDoubleExample | src/main/java/zephyr/text/TextDocument.java:184-189 | the example in the description of `find`: "double" in "double string double int double char" is found at [0, 14, 25], in all four combinations of whole-word and match-case |
| TextFind.FindGives | src/main/java/zephyr/text/TextDocument.java:191-253 | given every occurrence of the search, in order, in a text that case folding keeps, `find` returns exactly those offsets; with the whole-word filter it needs each to be a whole word and none to end the text |
| TextFind.OccurrencesOfDouble | src/main/java/zephyr/text/TextDocument.java:184-189 | "double" occurs in the example text at 0, 14 and 25 and nowhere else |
| TextFind.WholeWordAtEndFails | src/main/java/zephyr/text/TextDocument.java:235-236 | a whole-word match that ends the content makes the search fail with an index error |
| TextFind.WholeWordAcceptsSecondToLast | src/main/java/zephyr/text/TextDocument.java:235-236 | a match followed by exactly one character is accepted whatever that character is |
| Finder.Initial | src/main/java/zephyr/text/Finder.java:44-51 | a new engine has no search, no trusted results and a cursor at index 0 with both wrap flags clear |
| Finder.HasBit | src/main/java/zephyr/text/Finder.java:178-184 | a modifier bit test on Java's two's complement integers; `FindDialog.ModifiersDecode` states that the two bits read back the two boxes |
| Finder.WholeWord | src/main/java/zephyr/text/Finder.java:182-184 | the whole-word bit of the modifiers; `FindDialog.ModifiersDecode` states that it reads back the whole-word box |
| Finder.MatchCase | src/main/java/zephyr/text/Finder.java:178-180 | the match-case bit of the modifiers; `FindDialog.ModifiersDecode` states that it reads back the match-case box |
| Finder.NeedsRescan | src/main/java/zephyr/text/Finder.java:75-76 | the cache test of `find`; `Finder.EditForcesRescan`, `Finder.NoMatchesForcesRescan` and `Finder.DirectionOnlyReusesResults` state when it holds |
| Finder.PullsBack | src/main/java/zephyr/text/Finder.java:151-153 | whether going backwards first pulls the caret back over the current match; `Finder.PrevReselectsOtherCase` and `Finder.PrevMovesBackSameCase` state both outcomes |
| Finder.PrevBound | src/main/java/zephyr/text/Finder.java:151-156 | the offset going backwards looks below; `Finder.PrevSelectsLastBelow` and `Finder.PrevWrapsToEnd` state what is selected below it and what happens when nothing is |
| Finder.Next | src/main/java/zephyr/text/Finder.java:99-133 | a forward step keeps the cursor inside the results and every result a caret position, and does not change the text |
| Finder.Prev | src/main/java/zephyr/text/Finder.java:135-176 | a backward step keeps the cursor inside the results and every result a caret position, and does not change the text |
| Finder.Navigate | src/main/java/zephyr/text/Finder.java:91-95 | stepping changes only the engine's cursor and never the text |
| Finder.Find | src/main/java/zephyr/text/Finder.java:73-97 | without a rescan the cached results are reused; a scan that finds nothing stores an empty list and flags it; a failing scan stores the new search next to the old results; a selection records the search and leaves the text alone |
| Finder.Edited | src/main/java/zephyr/text/Finder.java:53-70 | any edit marks the cached results untrusted and keeps everything else |
| Finder.FindKeepsConsistent | src/main/java/zephyr/text/Finder.java:73-97 | every outcome leaves the engine consistent with the component it searched |
| Finder.FindFollowsScan | src/main/java/zephyr/text/Finder.java:75-88 | a call fails exactly when it rescans and the scan throws; it reports no matches exactly when it rescans and the scan is empty; after a rescan it walks the scan's results |
| Finder.EditForcesRescan | src/main/java/zephyr/text/Finder.java:53-70 | after an edit the engine is consistent with the edited text, whatever it now holds, and the next call scans again |
| Finder.NoMatchesForcesRescan | src/main/java/zephyr/text/Finder.java:75-76 | after a scan that found nothing, the next call scans again, whatever it asks for |
| Finder.DirectionOnlyReusesResults | src/main/java/zephyr/text/Finder.java:75-76 | after a successful call, the same search and modifiers in either direction reuse the cached results |
| Finder.NextSelectsCurrent | src/main/java/zephyr/text/Finder.java:125-132 | a forward step selects the match of the result it makes current |
| Finder.PrevSelectsCurrent | src/main/java/zephyr/text/Finder.java:168-175 | a backward step selects the match of the result it makes current |
| Finder.PrevSelectsLastBelow | src/main/java/zephyr/text/Finder.java:135-176 | when some result lies below the bound, going backwards makes the last such result current and selects its match; the forward-wrap flag stays only when that is the last result and had been set or a backward wrap was pending, and the backward-wrap flag is cleared |
| Finder.PrevWrapsToEnd | src/main/java/zephyr/text/Finder.java:158-170 | when no result lies below the bound, going backwards is the same as retrying from the end of the text with the backward-wrap flag set and the current index kept, one level of fuel deeper; with no fuel left it reports exhaustion |
| Finder.NextSelectsFirstAhead | src/main/java/zephyr/text/Finder.java:99-133 | going forwards selects the first result at or after `caret - |search| + 1`, the caret counting as 0 after a backward wrap |
| Finder.NextWrapsToFirst | src/main/java/zephyr/text/Finder.java:99-133 | with every result behind the caret, going forwards wraps to the first result and leaves the forward-wrap flag set |
| Finder.NextNeedsOneRetry | src/main/java/zephyr/text/Finder.java:99-133 | going forwards with a non-empty search always selects something, within one wrap |
| Finder.PrevAfterForwardWrap | src/main/java/zephyr/text/Finder.java:135-176 | right after a forward wrap, going backwards starts from the end of the text and selects the last result |
| Finder.PrevStopsAfterOneWrap | src/main/java/zephyr/text/Finder.java:135-176 | going backwards returns within one wrap when some result ends before the end of the text |
| Finder.PrevLoopsForever | src/main/java/zephyr/text/Finder.java:149-169 | a single selected match that ends the text makes going backwards wrap again at every level, so every fuel bound runs out: the Java recursion only ends when the stack overflows |
| Finder.FreshSearchThenBackwardsLoops | src/main/java/zephyr/text/Finder.java:135-176 | in "ab", finding "ab" forwards selects it, and finding it backwards then recurses until the stack overflows, whatever bound is allowed |
| Finder.PrevReselectsOtherCase | src/main/java/zephyr/text/Finder.java:149-156 | a case-insensitive match whose spelling differs from the search is not pulled back over, so going backwards selects it again |
| Finder.PrevMovesBackSameCase | src/main/java/zephyr/text/Finder.java:149-156 | a match spelled as searched is pulled back over, and the previous match is selected |
| Finder.RescanKeepsWrapFlags | src/main/java/zephyr/text/Finder.java:77-95 | a new scan after a backward wrap starts forwards from offset 0 rather than the caret, selects the first result, and keeps the wrap flags |
| FindDialog.Open | src/main/java/zephyr/ui/dialogs/FindDialog.java:102-105 | a selection becomes the remembered query and fills the box; without one the box shows the last query or nothing; the option boxes show the remembered flags; the engine starts fresh |
| FindDialog.StartMemory | src/main/java/zephyr/ui/dialogs/FindDialog.java:35-49 | the class-wide memory when the program starts: no last search and every option off; `FindDialog.Open` states how a dialog shows the memory it is given |
| FindDialog.Close | src/main/java/zephyr/ui/dialogs/FindDialog.java:126-130 | closing a dialog writes nothing back, because the body of `windowClosing` is commented out; `FindDialog.AfterDialogs` states that the remembered options therefore never change |
| FindDialog.Modifiers | src/main/java/zephyr/ui/dialogs/FindDialog.java:157-160 | the modifiers are one of 0, 2, 4 and 6 |
| FindDialog.ModifiersDecode | src/main/java/zephyr/ui/dialogs/FindDialog.java:157-160 | the engine reads back from the modifiers exactly the two boxes they were made from |
| FindDialog.ModifiersInjective | src/main/java/zephyr/ui/dialogs/FindDialog.java:157-160 | distinct box settings give distinct modifiers |
| FindDialog.Direction | src/main/java/zephyr/ui/dialogs/FindDialog.java:188-206 | a button asks for the backward direction exactly when it is the "find previous" button |
| FindDialog.PressButton | src/main/java/zephyr/ui/dialogs/FindDialog.java:169-179 | a press is ignored exactly when the query box is empty; otherwise only the dialog's engine changes |
| FindDialog.NoMatchesIsCaught | src/main/java/zephyr/ui/dialogs/FindDialog.java:169-179 | "no matches" is caught: the press completes, the selection is untouched, and the next press scans again |
| FindDialog.AfterDialogs | src/main/java/zephyr/ui/dialogs/FindDialog.java:126-130 | however many dialogs are opened and closed, the remembered option flags never change |
| FindDialog.OptionsStartUnchecked | src/main/java/zephyr/ui/dialogs/FindDialog.java:217-227 | every dialog opens with both option boxes unchecked |
| FindDialog.SelectionRemembered | src/main/java/zephyr/ui/dialogs/FindDialog.java:102-105 | a query taken from a selection is offered again by the next dialog opened without a selection |
| FileManager.NextTerminator | src/main/java/zephyr/file/FileManager.java:55 | the result is the first '\n' or '\r' at or after the offset, or -1 exactly when none exists |
| FileManager.Build | src/main/java/zephyr/file/FileManager.java:55-57 | the builder after the reading loop ends in '\n' whenever a line was read; `FileManager.BuildIsJoin` states its content |
| FileManager.Read | src/main/java/zephyr/file/FileManager.java:50-66 | reading no input gives the empty text; `FileManager.ReadIsJoin` and `FileManager.WriteThenRead` state what it gives otherwise |
| FileManager.Join | src/main/java/zephyr/file/FileManager.java:55-61 | the reference definition of what reading produces: the lines with the separator between them and none after the last; `FileManager.ReadIsJoin` connects it to `FileManager.Read` |
| FileManager.BuildIsJoin | src/main/java/zephyr/file/FileManager.java:55-57 | the builder holds the lines joined by '\n' followed by one more '\n' |
| FileManager.ReadLines | src/main/java/zephyr/file/FileManager.java:55-57 | no line read contains a terminator |
| FileManager.ReadIsJoin | src/main/java/zephyr/file/FileManager.java:50-66 | reading gives the lines joined by '\n', with nothing after the last line |
| FileManager.Write | src/main/java/zephyr/file/FileManager.java:129-139 | writing with "\n" is verbatim; with a separator free of '\n' the output holds no '\n' |
| FileManager.WriteReplacesEveryLineFeed | src/main/java/zephyr/file/FileManager.java:131-134 | the "\n" shortcut makes no difference: writing always replaces each '\n' with the separator |
| FileManager.WriteThenRead | src/main/java/zephyr/file/FileManager.java:50-66 | writing with any of the three separators and reading back restores a text that has no '\r' and does not end in '\n' |
| FileManager.ReadIgnoresFinalTerminator | src/main/java/zephyr/file/FileManager.java:55-61 | one terminator at the end of the input makes no difference to what is read |
| FileChooser.Filters | src/main/java/zephyr/ui/components/FileChooser.java:26-53 | fourteen extension filters are offered besides accept-all |
| FileChooser.FiltersArePlain | src/main/java/zephyr/ui/components/FileChooser.java:26-53 | every offered filter is valid, and its first extension is non-empty, lower case and does not end in '.' |
| FileChooser.HasExtension | src/main/java/zephyr/ui/components/FileChooser.java:126-138 | the extension test of `save`; `FileChooser.AppendedExtensionRecognised`, `FileChooser.UpperCaseExtensionKept` and `FileChooser.OtherExtensionNotRecognised` state what it accepts |
| FileChooser.SavedName | src/main/java/zephyr/ui/components/FileChooser.java:118-149 | the accept-all filter and a name that passes the extension test keep the name; any other name gets '.' and the filter's first extension appended |
| FileChooser.AppendedExtensionRecognised | src/main/java/zephyr/ui/components/FileChooser.java:126-144 | a name that had a plain extension appended passes the extension test |
| FileChooser.SavedNameIdempotent | src/main/java/zephyr/ui/components/FileChooser.java:118-149 | saving a saved name again under the same filter leaves it as it is |
| FileChooser.UpperCaseExtensionKept | src/main/java/zephyr/ui/components/FileChooser.java:126-138 | the extension test ignores case: "Main.JAVA" is kept under the Java filter |
| FileChooser.TrailingDotGetsExtension | src/main/java/zephyr/ui/components/FileChooser.java:126-144 | a name ending in '.' gets another one: "notes." becomes "notes..txt" |
| FileChooser.OtherExtensionNotRecognised | src/main/java/zephyr/ui/components/FileChooser.java:126-144 | another filter's extension is not enough: "a.txt" under the Java filter becomes "a.txt.java" |
| TabbedPane.Star | src/main/java/zephyr/ui/components/TextAreaTabbedPane.java:106-109 | the marked title starts with '*'; a title already marked is kept, any other gets exactly one '*' in front |
| TabbedPane.Unstar | src/main/java/zephyr/ui/components/TextAreaTabbedPane.java:110-112 | putting back one '*' in front of the result gives a marked title; an unmarked title is kept |
| TabbedPane.Edited | src/main/java/zephyr/ui/components/TextAreaTabbedPane.java:131-147 | the document listener marks the selected tab, whichever document fired; `TabbedPane.EditStarsSelected` states that it marks only that tab and is idempotent |
| TabbedPane.SetTitleStarAt | src/main/java/zephyr/ui/components/TextAreaTabbedPane.java:105-113 | only the selected tab's title changes, whatever index is passed; it fails exactly when there is no tab, or when unmarking an empty title |
| TabbedPane.AddTab | src/main/java/zephyr/ui/components/TextAreaTabbedPane.java:64-68 | the title is appended and an existing selection is kept |
| TabbedPane.RemoveTab | src/main/java/zephyr/ui/MainFrame.java:721-726 | the title at the index is removed and the others keep their order, with a valid selection |
| TabbedPane.StarIdempotent | src/main/java/zephyr/ui/components/TextAreaTabbedPane.java:106-109 | marking twice is marking once |
| TabbedPane.UnstarUndoesStar | src/main/java/zephyr/ui/components/TextAreaTabbedPane.java:105-113 | unmarking undoes marking for every title without a marker |
| TabbedPane.StarUndoesUnstar | src/main/java/zephyr/ui/components/TextAreaTabbedPane.java:105-113 | marking undoes unmarking exactly when the title had one leading '*' |
| TabbedPane.IndexIgnored | src/main/java/zephyr/ui/components/TextAreaTabbedPane.java:105-113 | the index passed makes no difference |
| TabbedPane.EditStarsSelected | src/main/java/zephyr/ui/components/TextAreaTabbedPane.java:131-147 | an edit marks the selected tab and no other, and further edits change nothing |
| TabbedPane.UnstarEmptyTitleFails | src/main/java/zephyr/ui/components/TextAreaTabbedPane.java:110-112 | unmarking an empty selected title is an index error |
| TabbedPane.RemoveUndoesAdd | src/main/java/zephyr/ui/components/TextAreaTabbedPane.java:64-68 | removing a tab just added after the others restores the pane |
| Session.Present | src/main/java/zephyr/Session.java:23-27 | the kept entries are exactly the non-null ones and there are no more of them than entries |
| Session.Empty | src/main/java/zephyr/Session.java:12-15 | a new session has no recent and no open paths; `Session.ClearThenAdd` states what adding to empty lists gives |
| Session.AddedAll | src/main/java/zephyr/Session.java:23-27 | adding an array one entry at a time appends exactly its non-null entries, in order |
| Session.AddRecent | src/main/java/zephyr/Session.java:17-21 | a null path is ignored, any other goes to the end of the recents; the open list is untouched |
| Session.AddRecents | src/main/java/zephyr/Session.java:23-27 | the array's non-null paths are appended to the recents in order; the open list is untouched |
| Session.AddOpen | src/main/java/zephyr/Session.java:29-33 | a null path is ignored, any other goes to the end of the open list; the recents are untouched |
| Session.AddOpens | src/main/java/zephyr/Session.java:35-39 | the array's non-null paths are appended to the open list in order; the recents are untouched |
| Session.ClearOpen | src/main/java/zephyr/Session.java:49-51 | the open list becomes empty and the recents stay |
| Session.ClearRecents | src/main/java/zephyr/Session.java:53-55 | the recents become empty and the open list stays |
| Session.PresentOfRefs | src/main/java/zephyr/Session.java:23-27 | an array without nulls is kept whole |
| Session.PresentAppend | src/main/java/zephyr/Session.java:23-27 | filtering two arrays one after the other is filtering them together |
| Session.AddRecentsInParts | src/main/java/zephyr/Session.java:23-27 | adding an array in two parts is adding it at once |
| Session.ClearThenAdd | src/main/java/zephyr/Session.java:23-55 | clearing a list and adding strings leaves exactly those strings, duplicates included, and the other list untouched |
| Session.AddKeepsDuplicates | src/main/java/zephyr/Session.java:17-33 | a path added twice appears twice, after the earlier entries |
| PreferencesManager.Wrap | src/main/java/zephyr/preferences/PreferencesManager.java:25-35 | the result is a 32-bit int; it equals the input when that is in range, and is shifted by 2^32 just outside |
| PreferencesManager.Resized | src/main/java/zephyr/preferences/PreferencesManager.java:25-47 | only the named axis changes, by the amount with 32-bit wrap-around; any other axis byte changes nothing |
| PreferencesManager.Grow | src/main/java/zephyr/preferences/PreferencesManager.java:25-35 | growing adds 100 on the given axis unless that overflows, and leaves the other axis alone |
| PreferencesManager.Reduce | src/main/java/zephyr/preferences/PreferencesManager.java:37-47 | shrinking removes 100 on the given axis with no lower bound, and leaves the other axis alone |
| PreferencesManager.GrowThenReduce | src/main/java/zephyr/preferences/PreferencesManager.java:25-47 | growing then shrinking on the same axis restores the size, across the wrap-around too |
| PreferencesManager.ReduceThenGrow | src/main/java/zephyr/preferences/PreferencesManager.java:25-47 | shrinking then growing on the same axis restores the size |
| PreferencesManager.ReduceGoesNegative | src/main/java/zephyr/preferences/PreferencesManager.java:37-47 | a window 50 pixels wide shrinks to -50 |
| PreferencesManager.GrowWrapsAround | src/main/java/zephyr/preferences/PreferencesManager.java:25-35 | growing at the top of the int range wraps to a large negative width |
| ColorHex.ToHex | src/main/java/zephyr/serialization/ColorHEXTransformer.java:12-14 | the digits are lower-case hexadecimal with no leading zero, and there is one digit exactly below 16 |
| ColorHex.Encode | src/main/java/zephyr/serialization/ColorHEXTransformer.java:10-15 | a colour is written as '#' followed by three to six hexadecimal digits |
| ColorHex.HexRoundTrip | src/main/java/zephyr/serialization/ColorHEXTransformer.java:12-14 | reading a channel's digits back gives the channel |
| ColorHex.WideChannelsDecode | src/main/java/zephyr/serialization/ColorHEXTransformer.java:10-15 | when every channel is 16 or more, the string has six digits, two per channel, and each is read back |
| ColorHex.EncodingCollides | src/main/java/zephyr/serialization/ColorHEXTransformer.java:12-14 | the encoding is not injective: two different colours both give "#1111" |
| MainFrame.FirstIndex | src/main/java/zephyr/ui/MainFrame.java:694 | the result is the first position holding the path, or -1 exactly when the path is absent |
| MainFrame.RemoveFirst | src/main/java/zephyr/ui/MainFrame.java:693-695 | a path not in the list leaves it alone; a present one is removed once, shortening the list by one; `MainFrame.AddRecentPathOrder` states which copy goes |
| MainFrame.AddRecentPath | src/main/java/zephyr/ui/MainFrame.java:692-698 | the path ends up first; the list grows exactly when the path was absent |
| MainFrame.AddRecentPathOrder | src/main/java/zephyr/ui/MainFrame.java:692-698 | the other paths follow in their old order, with only the first earlier copy of the path taken out |
| MainFrame.AddRecentPathMultiset | src/main/java/zephyr/ui/MainFrame.java:692-698 | no path is lost or duplicated: the same paths, plus one copy of the new path only when it was absent |
| MainFrame.AddRecentPathDistinct | src/main/java/zephyr/ui/MainFrame.java:692-698 | a list without duplicates stays without duplicates |
| MainFrame.AddRecentPathIdempotent | src/main/java/zephyr/ui/MainFrame.java:692-698 | moving the same path to the front twice is moving it once |
| MainFrame.ItemFor | src/main/java/zephyr/ui/MainFrame.java:165-175 | "\r\n" and only it selects the CRLF item; "\r" and only it selects the CR item |
| MainFrame.SelectedSeparator | src/main/java/zephyr/ui/MainFrame.java:85-95 | the menu always yields one of the three separators |
| MainFrame.SeparatorRoundTrip | src/main/java/zephyr/ui/MainFrame.java:85-95 | a preferred separator comes back from the menu unchanged when it is one of the three, and as "\n" otherwise |
| MainFrame.ItemRoundTrip | src/main/java/zephyr/ui/MainFrame.java:165-175 | each menu item is the one its own separator selects |
| MainFrame.Directory | src/main/java/zephyr/ui/MainFrame.java:1262-1270 | the directory part is a prefix of the path ending with the separator, with none after it, and empty exactly when the path has no separator |
| MainFrame.Title | src/main/java/zephyr/ui/MainFrame.java:1259-1277 | a document without a path is titled "name - Zephyr", one with a path "name - directory - Zephyr" |
| MainFrame.TitleShowsDirectory | src/main/java/zephyr/ui/MainFrame.java:1262-1270 | a file in a directory shows exactly that directory, separator included, in the title |
| MainFrame.IsOpen | src/main/java/zephyr/ui/MainFrame.java:992-1003 | the result is the first tab whose document has the path, or -1 exactly when no tab has it |
| MainFrame.TabTitle | src/main/java/zephyr/ui/MainFrame.java:1217-1224 | the title a tab change gives a document: its name, starred when unsaved; `MainFrame.TabChanged` writes it and `MainFrame.TitlesShow` requires it of every tab |
| MainFrame.TabChanged | src/main/java/zephyr/ui/MainFrame.java:1217-1224 | a tab change writes the selected document's name into its tab, with a '*' in front when the document is unsaved, and changes no other title, document, recent path or the selection |
| MainFrame.SelectTab | src/main/java/zephyr/ui/MainFrame.java:941-946 | selecting the tab already selected fires no change and changes nothing; selecting another makes it the selection and retitles only that tab, with its document's name starred when unsaved; documents and recents stay, and titles that show their documents keep doing so |
| MainFrame.AddTab | src/main/java/zephyr/ui/components/TextAreaTabbedPane.java:64-68 | a document and its title are appended together, keeping the selection and the recents; when the title shows the new document, titles that showed their documents still do |
| MainFrame.NewDocument | src/main/java/zephyr/ui/MainFrame.java:1023-1026 | a blank document titled `untitled` is appended and selected, the other titles and the recents stay, and titles that showed their documents still do |
| MainFrame.RemoveTabAt | src/main/java/zephyr/ui/MainFrame.java:721-726 | the tab's document goes; removing another tab keeps the selected document, removing the selected one selects the next tab, or the previous when it was the last; a removal at or before the selection also retitles the newly selected tab; titles that showed their documents still do |
| MainFrame.Close | src/main/java/zephyr/ui/MainFrame.java:706-728 | the tab closes exactly when it is saved or the answer is not Cancel, and otherwise nothing changes; closing the only tab leaves one blank document with one tab titled `untitled`, selected; closing another removes its document; the recents stay, and titles that showed their documents still do |
| MainFrame.AllCloseStep | src/main/java/zephyr/ui/MainFrame.java:736-744 | the tabs down from one close exactly when it closes and all tabs before it close |
| MainFrame.CloseAllFrom | src/main/java/zephyr/ui/MainFrame.java:736-744 | the loop succeeds exactly when every tab from the current one down closes, and then one blank tab is left; after a cancel the tabs up to the cancelled one are kept as they were, and that tab is one that does not close; titles that showed their documents still do |
| MainFrame.CloseLastTab | src/main/java/zephyr/ui/MainFrame.java:736-744 | one turn of the loop closes the selected last tab exactly when its answer lets it, leaving the tabs before it |
| MainFrame.KeptInPrefix | src/main/java/zephyr/ui/MainFrame.java:736-744 | what a cancel keeps of the tabs before the current one is also what it keeps of all the tabs |
| MainFrame.CloseAllFromStops | src/main/java/zephyr/ui/MainFrame.java:736-744 | a cancel on the current tab stops the loop with every tab kept |
| MainFrame.CloseAllFromPasses | src/main/java/zephyr/ui/MainFrame.java:736-744 | a current tab that closes hands exactly the tabs before it to the next turn |
| MainFrame.CloseAllFromStep | src/main/java/zephyr/ui/MainFrame.java:736-744 | a cancelled tab stops the loop with the tabs as they were; a closed one hands the tabs before it to the next turn |
| MainFrame.CloseAll | src/main/java/zephyr/ui/MainFrame.java:736-744 | closing all succeeds exactly when every tab closes, and then leaves one blank tab; otherwise the tabs up to the last one that did not close are kept; titles that showed their documents still do |
| MainFrame.Open | src/main/java/zephyr/ui/MainFrame.java:1070-1100 | an open path selects its tab; a failed read changes nothing; otherwise the file becomes the last tab, selected, titled with its name, and its path moves to the front of the recents; titles that showed their documents still do |
| MainFrame.OpenReplacesPristineTab | src/main/java/zephyr/ui/MainFrame.java:1082-1084 | a selected blank tab nobody has touched is replaced by the opened file; any other tab stays |
| MainFrame.AddOpened | src/main/java/zephyr/ui/MainFrame.java:1080-1087 | an opened file becomes the last tab, selected, holding the file's content as a saved document on disk, titled with its name; the recents are left to the caller, and titles that showed their documents still do |
| MainFrame.Backward | src/main/java/zephyr/ui/MainFrame.java:809-822 | the paths exit collects, walking from the last tab to the first and skipping documents without a path; `MainFrame.BackwardReversed` states that reversed they are the paths in tab order |
| MainFrame.BackwardReversed | src/main/java/zephyr/ui/MainFrame.java:809-822 | the paths collected from the last tab to the first, reversed, are the non-null paths in tab order |
| MainFrame.SelectEach | src/main/java/zephyr/ui/MainFrame.java:809-816 | walking the selection from a tab down to the first leaves the first tab selected and every document in place, and titles that showed their documents still do |
| MainFrame.Exit | src/main/java/zephyr/ui/MainFrame.java:807-837 | the editor shuts down exactly when every tab closes; a remembered session stores the open paths in tab order, otherwise the stored paths stay; on shutdown the frame's recents and the chosen separator are stored; a cancelled exit keeps the stored recents, and its frame still has titles showing their documents when it had them before |
| MainFrame.CancelledExitStoresOpenPaths | src/main/java/zephyr/ui/MainFrame.java:809-835 | a cancelled exit has already replaced the stored open paths |

## Left out

- The Swing user interface is left out: windows, menus, key bindings, look and feel, fonts, dialogs' layout and every listener that only repaints.
- File and stream I/O, the serialised preference and session files, and the `TextDocumentStreamer` are left out. Their effect is a parameter: the read outcome, the user's answers, the preferences.
- Undo and redo, regular-expression search (the option box has no bit in the source either), debug printing and stack traces are left out.
- Concurrency is left out, because the editor runs on the event thread.
- Case folding is modelled for ASCII letters only. `String.toUpperCase` and `String.toLowerCase` fold all of Unicode, with length changes in a few cases.
- The toolkit's caret tracking after an edit is left out. Commands that place no selection themselves return `Keep`, meaning the old offsets.
- MainFrame.Close: the save behind a "yes" answer is not modelled. The tab closes whether or not the save succeeds. A "yes" on a document not on disk runs `saveAs`, which also moves the chosen path to the front of the recents (`MainFrame.java` line 1197). The recents that `Close` reports unchanged therefore omit that path.
- MainFrame.CloseAllFrom: inherits the omission from `MainFrame.Close`. Its recents leave out the paths that "yes" answers save to.
- MainFrame.CloseAll: inherits the omission from `MainFrame.Close`. Its recents leave out the paths that "yes" answers save to.
- MainFrame.Exit: inherits the omission from `MainFrame.Close`. The recents it stores on shutdown, and keeps in the frame after a cancel, leave out the paths that "yes" answers save to.
- `closeAllOthers` and `closeAllToTheRight` are not modelled. They repeat the same close step as `closeAll` over other index ranges.
- Finder.Prev: the backward wrap can call itself without end (witnessed by `Finder.PrevLoopsForever`). In Java the recursion ends in a `StackOverflowError`. `FindDialog.find` catches only `NoMatchesFoundException`, so the error escapes the button press, and the engine's fields are left however the deepest call set them. The model carries a fuel bound instead and reports `StackOverflow` when it runs out. It does not model the engine state left behind.
- A `null` results list is modelled as the empty list.
- Library behaviour the editor relies on is modelled explicitly rather than read from its source:
  - `select` clamps its bounds;
  - reading a document's text can see one phantom trailing '\n', and inserting past the end throws;
  - `BufferedReader.readLine` splits at '\n', '\r' and "\r\n";
  - after `removeTabAt` the selection moves one to the left when the removed tab lay before it or was the last one;
  - `setSelectedIndex` fires a change event only when the index changes;
  - adding a tab to a strip that already has tabs fires no change event;
  - `removeTabAt` fires a change event exactly when the removed tab is at or before the selected one.
- The file separator is one character, and paths are not normalised. The title uses the path as given rather than `getAbsolutePath`.
- The window toolkit's minimum and maximum window sizes are left out. Only the 32-bit wrap-around of the arithmetic is modelled.
- `Session` methods given a `null` array would throw; arrays are sequences here and never null.
- The window title is computed by `MainFrame.Title` but not stored in the frame. `updateTitle` also writes the selected document's name into its tab; that part is modelled by `MainFrame.TabChanged`. The window title itself is shown by the window only.
- `updateRecentDocumentsMenu`, `loadPreviousSession` and `loadRecentDocuments` are left out. They rebuild menu items or call `open` for each stored path.
- The existence check and the error dialogs of `FileChooser.open` are left out.
- FileManager.Read: the round trip is proved only for texts without '\r' that do not end in '\n'. A '\r' in the content, or a final '\n', is read back differently, as `readLine` treats it as a terminator or drops it.
