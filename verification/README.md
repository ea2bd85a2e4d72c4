# Proofs about the line editor, the documentation rewriter and the login stress driver

This project models three parts of the repository in Dafny and proves what they promise.

**The line editor** (`modules/c/console/linenoise.c`). The state of an editing session is a byte buffer with a cursor and
up to sixteen folds, byte ranges that are shown as a short marker. It is a class that the editing operations update in
place by memmove (`Memory`, `Folds`, `Editor`); each operation is proved against a value of type `Line`, and the lines are
proved to behave like a row of atoms, characters and whole folded texts, with a cursor between two of them (`Lines`,
`Zippers`, `Commands`). Below that are the UTF-8 and grapheme loops and the display widths (`Utf8`, `Graphemes`, `Widths`),
bracketed paste (`Paste`, `PasteUndo`), and the history with its file (`Histories`, `Recall`). Above it are the rendering of
folds (`Render`), the single-line view (`Viewport`), the multi-line view (`Rows`), the step from the row of atoms to
what those views ask for (`Screen`), the reading of keys (`Keys`), and whole sessions from an empty line to Enter (`Blocking`).
What the views send is judged by a terminal of its own (`Terminal`): it reads the bytes by the control functions of ECMA-48
and has rows of cells that they change.

**The documentation rewriter** (`scripts/check_doc_line_refs.py`): linking the first mention of each symbol of a page
(`DocLinks`, character by character), and moving the links of a line to another release (`Repin`, on the links and the
texts between them; `SourceLinks` for how a link is written and read; `LinkTargets` for where the new links of a page lead).

**The stress driver** (`stress/c/auth_bff/c_stress_auth_bff.c`): slots that make their requests one after the other, with
the events of all clients, connections, answers, closings and stops, interleaved in any order with the timer's
(`SlotDriver`). The numbers of slots and of iterations are arbitrary.

Three kinds of text appear. `Fine` lines hold arbitrary bytes. `Ok` lines are well-formed UTF-8 whose cursor and folds
split no character; every command keeps a line `Ok`, and what it does is proved for all of them. A row of atoms
needs more: each of its characters is a grapheme cluster by itself, as all of ASCII is.

## What the proofs show that the code's comments do not say

- Accepting a completion candidate that is as long as the buffer or longer cuts the text but counts the candidate whole, so
  that `len` and `pos` lie past what was written (lines 790-793 of `linenoise.c`). The line is the candidate if and only if
  the candidate is shorter than the buffer's length, which a completion never raises (`Editors.Editor.AcceptCompletion`);
  `Editors.LongCompletion` is a candidate of 5000 bytes in the buffer that a session starts with.
- Re-pinning a line is not idempotent, although the comment at lines 888-889 of `scripts/check_doc_line_refs.py` says that a
  second run recomputes the same lines. There are two causes:
  - The line. A locator that no symbol link explains, that points to a line to which a symbol of the same line has just been
    moved, and whose text says another line, changes in the second run, and nothing else does (`Repin.RepinTwiceIff`;
    `Repin.RepinMovesTwice` is an input).
  - The tag. But for such locators, re-pinning to a tag is idempotent on every line, wherever the symbols are defined, if and
    only if the tag names neither a symbol, as main does, nor a line, as v:5 does (`Repin.IdempotentIff`): a text that named
    the old release would then name a symbol or a line in the second run. This is for tags that a link is read back with. An
    address is read back as it was written if and only if its tag is not empty and has no slash, closing parenthesis or hash
    (`SourceLinks.ReadBackIff`); with a slash, as in release/7.9.3, the link grows with every run
    (`SourceLinks.SlashTagMovesTwice`).
- The single-line view ends with a move to the cursor's column. For column 0 it sends `ESC[0C`, which terminals take as one
  column to the right. On a terminal of three columns or more the cursor gets to its column if and only if the prompt has a
  width or the text before the cursor has; on two columns a wide character in front of the cursor can be trimmed away and leave
  column 0 as well (`Viewport.CursorReachedIff`). `Viewport.RefreshEmpty` is the refresh of an empty line with an empty prompt.
- When prompt and window fill the row of the single-line view, `ESC[0K` is sent with the cursor still on the last column. A
  terminal that then erases the column that the cursor is on loses the last character, one that erases what comes after the
  cursor does not (`Viewport.WindowShown`).
- In the multi-line view, clearing a line that is hidden already goes above the prompt and erases what stands there, unless the
  last position was on row 1 or the line has one row at most (`Rows.ClearAgainIff`, `Rows.MultiLine.Refresh`). `Rows.HideTwice`
  is a line of two rows that is hidden twice.
- One Backspace takes back a folded paste if and only if the cursor was strictly inside no fold
  (`PasteUndo.BackspaceUndoesFoldedPaste`): a paste inside a fold drops that fold for good. No run of commands on a
  row of atoms puts the cursor there (`Commands.CursorNotInFold`).
- Saving and loading the history gives it back if and only if no entry holds a CR, none repeats the one before, and the
  maximum allows them all (`Histories.RoundTripIff`).
- A step left undoes a step right, in text without flags, if and only if each run of joiners before a character that extends
  nothing is of odd length, or of even length if the text starts with it (`Graphemes.LeftUndoesRightIff`); three flags in a
  row show why flags are excluded.
- Growing an empty buffer starts from 16 bytes and so can pass a maximum below 16 (`Editors.GrowthKeepsCap`). The library
  itself sets only the maximum of 1 MiB (line 2112 of `linenoise.c`), so its own sessions do not get there.

## Model

| member | source | states |
|---|---|---|
| Utf8.Encode1 | modules/c/console/linenoise.c:156-195 | An encoded code point is a starting byte and up to three continuation bytes, after section 3 of RFC 3629. |
| Utf8.DecodeInvertsEncode | modules/c/console/linenoise.c:167-195 | utf8ByteLen and utf8DecodeChar read back exactly the code point that was encoded, whatever surrounds it. |
| Utf8.DecodeForward | modules/c/console/linenoise.c:156-195 | At every character boundary of a well-formed text, decoding forwards reads the next code point whole, stays inside the text and stops at the next boundary. |
| Utf8.DecodePrev | modules/c/console/linenoise.c:234-247 | utf8DecodePrev gives the last code point before a position and the length of its encoding; 0 at the start. |
| Utf8.BoundIsRuneIndex | modules/c/console/linenoise.c:234-247 | The byte offsets that are not continuation bytes are exactly the offsets between code points. |
| Utf8.EncodeInjective | modules/c/console/linenoise.c:156-195 | Different texts have different encodings. |
| Utf8.WFCut | modules/c/console/linenoise.c:234-247 | A well-formed text cut at a character boundary leaves two well-formed texts. |
| Graphemes.NextCharLen | modules/c/console/linenoise.c:311-356 | utf8NextCharLen is the byte length of the first cluster, by the code's cluster rule, of the text after the position; 0 at the end. |
| Graphemes.ExtendsIff | modules/c/console/linenoise.c:200-230 | Which code points extend a cluster, which is the joiner, and which are flags. |
| Graphemes.PrevCharLen | modules/c/console/linenoise.c:255-307 | utf8PrevCharLen is the byte length of the last cluster of the text before the position; 0 at the start. |
| Graphemes.NextLenStep | modules/c/console/linenoise.c:311-356 | A step right from a boundary moves, stays inside the text and ends on a boundary. |
| Graphemes.PrevLenStep | modules/c/console/linenoise.c:255-307 | A step left from a boundary moves, stays inside the text and ends on a boundary. |
| Graphemes.LeftUndoesRightIff | modules/c/console/linenoise.c:255-356 | Without flags, the step left undoes the step right at every cluster start that stepping reaches if and only if each run of joiners before a character that extends nothing is of odd length, or of even length if it starts the text. |
| Graphemes.LeftUndoesRightWhenJoinersApart | modules/c/console/linenoise.c:255-356 | It does in every text without flags, a leading joiner or two joiners in a row. |
| Graphemes.PrevLenUndoesNextLen | modules/c/console/linenoise.c:255-356 | The same on bytes: from where the step right ended, the step left has the same length. |
| Graphemes.ThreeFlagsDisagree | modules/c/console/linenoise.c:255-356 | Of three regional indicators the two directions make different clusters. |
| Widths.CharWidth | modules/c/console/linenoise.c:368-415 | utf8CharWidth is at most 2, and 0 for every code point that extends a cluster. |
| Widths.NoColumnIff | modules/c/console/linenoise.c:368-378 | No column is taken exactly by control characters and by what extends a cluster. |
| Widths.ColumnsOf | modules/c/console/linenoise.c:379-415 | One column is taken by printable ASCII and by Latin, Greek and Cyrillic letters; two by Chinese, Japanese and Korean characters, fullwidth forms, flags and emoji. |
| Widths.CsiPrefixUnique | modules/c/console/linenoise.c:417-431 | At most one prefix of a text is a control sequence of section 5.4 of ECMA-48. |
| Widths.AnsiEscapeLen | modules/c/console/linenoise.c:423-431 | ansiEscapeLen is positive exactly if the text starts with a control sequence, and then is its length. |
| Widths.StrWidth | modules/c/console/linenoise.c:439-476 | utf8StrWidth computes the width of the text as defined on its control sequences and code points. |
| Widths.WidthOfRunes | modules/c/console/linenoise.c:439-476 | A text without ESC is as wide as its code points together, those after a joiner counted as 0, whatever follows it. |
| Widths.WidthOfCsi | modules/c/console/linenoise.c:423-476 | A control sequence in front changes neither the width of a text nor whether its first character is joined. |
| Widths.StyleHasNoWidth | modules/c/console/linenoise.c:423-476 | Control sequences put anywhere into a text without ESC, between a joiner and the character it joins included, leave its width as it was. |
| Folds.FoldTable.Clear | modules/c/console/linenoise.c:1111-1113 | No fold is left. |
| Folds.FoldTable.Remove | modules/c/console/linenoise.c:1116-1122 | The fold at the index goes; the others keep their order. |
| Folds.FoldTable.Add | modules/c/console/linenoise.c:1095-1108 | The range is put after the folds that start no later, unless it is empty or sixteen are held. |
| Folds.FoldTable.AdjustAfterInsert | modules/c/console/linenoise.c:1138-1152 | The in-place loop is the filter and map that drops the folds the insertion lands in and moves those after it. |
| Folds.FoldTable.AdjustAfterDelete | modules/c/console/linenoise.c:1156-1171 | The in-place loop is the filter and map that drops the folds the deletion overlaps and moves back those after it. |
| Folds.FoldTable.Overlaps | modules/c/console/linenoise.c:1125-1134 | True exactly if the range shares a byte with a fold. |
| Folds.InsertKeepsHidden | modules/c/console/linenoise.c:1138-1152 | An insertion drops exactly the folds it lands strictly inside; every other hides byte for byte what it hid; the folds stay sorted, disjoint and in bounds. |
| Folds.DeleteKeepsHidden | modules/c/console/linenoise.c:1156-1171 | A deletion drops exactly the folds it overlaps; every other hides byte for byte what it hid; the folds stay sorted, disjoint and in bounds. |
| Folds.AddedOrdered | modules/c/console/linenoise.c:1095-1108 | A range that no fold shares a byte with joins the folds and leaves them sorted and disjoint. |
| Memory.MemMove | modules/c/console/linenoise.c:1496-1497 | The copy inside the buffer, as if through a second one, also where the ranges overlap. |
| Memory.OverExchanges | modules/c/console/linenoise.c:1945-1949 | The three copies of Ctrl-T change two neighbouring pieces round. |
| Lines.StepOverFold | modules/c/console/linenoise.c:1066-1091 | A step at the edge of a fold passes exactly that fold, in both directions. |
| Lines.OkStepRight | modules/c/console/linenoise.c:1066-1077 | In an Ok line a step right moves, stays inside the text and ends on a character boundary. |
| Lines.OkStepLeft | modules/c/console/linenoise.c:1081-1091 | In an Ok line a step left moves, stays inside the text and ends on a character boundary. |
| Lines.InsertedFine | modules/c/console/linenoise.c:1487-1504 | For arbitrary bytes, an insertion keeps the cursor and the folds in bounds, sorted and disjoint, and no more than sixteen. |
| Lines.CutFine | modules/c/console/linenoise.c:1618-1659 | For arbitrary bytes, a deletion keeps the cursor and the folds in bounds, sorted and disjoint, and no more than sixteen. |
| Lines.InsertedOk | modules/c/console/linenoise.c:1487-1504 | Inserting well-formed text keeps the line Ok. |
| Lines.CutOk | modules/c/console/linenoise.c:1618-1659 | Deleting between two boundaries keeps the line Ok. |
| Lines.LeftKeepsOk | modules/c/console/linenoise.c:1540-1545 | Moving left and Backspace are defined on every Ok line and keep it Ok. |
| Lines.RightKeepsOk | modules/c/console/linenoise.c:1548-1553 | Moving right and Delete are defined on every Ok line and keep it Ok. |
| Lines.OthersKeepOk | modules/c/console/linenoise.c:1556-1659 | Home, End, deleting a word and killing to the end keep the line Ok. |
| Lines.SwapKeepsOk | modules/c/console/linenoise.c:1933-1952 | Ctrl-T keeps the line Ok. |
| Editors.GrownToFits | modules/c/console/linenoise.c:1454-1482 | The doubling meets the request and stays within the maximum exactly if it started within it. |
| Editors.GrowthKeepsCap | modules/c/console/linenoise.c:1454-1482 | The grown buffer is within the maximum unless it was empty and the maximum is below 16. |
| Editors.Editor.constructor | modules/c/console/linenoise.c:1685-1720 | A session starts with the empty line, no folds, and the cap of its buffer. |
| Editors.Editor.Grow | modules/c/console/linenoise.c:1454-1482 | It succeeds exactly if the request is within the cap, then has room for it and a NUL, and never changes the line. |
| Editors.Editor.InsertNoRefresh | modules/c/console/linenoise.c:1487-1504 | It fails, and changes nothing, exactly if the text would pass the cap; otherwise the bytes are inserted and the folds adjusted. |
| Editors.Editor.EditNextLen | modules/c/console/linenoise.c:1066-1077 | The length of the fold that starts here, or of the next cluster. |
| Editors.Editor.EditPrevLen | modules/c/console/linenoise.c:1081-1091 | The length of the fold that ends here, or of the previous cluster. |
| Editors.Editor.MoveLeft | modules/c/console/linenoise.c:1540-1545 | The cursor passes one fold or cluster to the left; nothing else changes. |
| Editors.Editor.MoveRight | modules/c/console/linenoise.c:1548-1553 | The cursor passes one fold or cluster to the right; nothing else changes. |
| Editors.Editor.MoveHome | modules/c/console/linenoise.c:1556-1561 | Only the cursor changes: to the start. |
| Editors.Editor.MoveEnd | modules/c/console/linenoise.c:1564-1569 | Only the cursor changes: to the end. |
| Editors.Editor.Delete | modules/c/console/linenoise.c:1618-1627 | What a step right would pass is cut out, with the folds adjusted. |
| Editors.Editor.Backspace | modules/c/console/linenoise.c:1630-1640 | What a step left would pass is cut out, with the folds adjusted. |
| Editors.Editor.DeletePrevWord | modules/c/console/linenoise.c:1644-1659 | The text from the start of the word before the cursor is cut out; a fold counts as one character. |
| Editors.Editor.Swap | modules/c/console/linenoise.c:1933-1952 | The characters round the cursor change places, unless one is longer than 32 bytes or folded. |
| Editors.Editor.KillLine | modules/c/console/linenoise.c:2051-2056 | The line is empty and has no folds. |
| Editors.Editor.KillToEnd | modules/c/console/linenoise.c:2057-2062 | The text after the cursor is cut out, with its folds. |
| Editors.Editor.AcceptCompletion | modules/c/console/linenoise.c:788-795 | The candidate goes into the buffer cut to its length, the cursor to the length of the whole candidate, and the folds go; the line is the candidate if and only if the candidate is shorter than the buffer's length. |
| Editors.StoredIff | modules/c/console/linenoise.c:790-793 | What snprintf leaves in a buffer is the candidate with its NUL if and only if the candidate is shorter than the buffer's length. |
| Editors.LongCompletion | modules/c/console/linenoise.c:788-795 | A candidate of 5000 bytes leaves a session's first buffer with len past its end. |
| Editors.FoldedFine | modules/c/console/linenoise.c:1840-1848 | A folded paste keeps the folds sorted, disjoint, in bounds and no more than sixteen. |
| Paste.MatchMore | modules/c/console/linenoise.c:1789-1816 | The byte that carries the match on keeps the matcher's invariant, or completes the first terminator. |
| Paste.MatchBroken | modules/c/console/linenoise.c:1789-1816 | When the match breaks, what was held back is text and the byte starts a match only if it is ESC; no terminator can be missed. |
| Paste.BodyUnique | modules/c/console/linenoise.c:1789-1816 | An input can be read as a paste in one way only. |
| Paste.BodyBeforeEnd | modules/c/console/linenoise.c:1789-1816 | If the input has a terminator, the paste is what stands before the first, and the input goes on right after it. |
| Editors.Editor.ReadPaste | modules/c/console/linenoise.c:1781-1816 | The loop takes the input up to and including the first terminator, collects exactly the bytes before it, and overflows exactly if these are more than the limit. |
| Editors.Editor.PasteAppend | modules/c/console/linenoise.c:1757-1772 | It fails exactly if the bytes would pass the limit. |
| Paste.PasteBuffer.Reserve | modules/c/console/linenoise.c:1728-1755 | It fails exactly if the bytes would pass 1 MiB, never takes more, and keeps what was collected. |
| Paste.Normalise | modules/c/console/linenoise.c:1825-1838 | The in-place loop leaves the bytes with CR and CRLF turned into LF. |
| Paste.NormalIsClean | modules/c/console/linenoise.c:1825-1838 | The result has no CR and is no longer; text without CR stays as it is. |
| Paste.NormalKeepsLines | modules/c/console/linenoise.c:1825-1838 | Lines ended by any mix of CR, CRLF and LF come out line for line, ended by LF. |
| Paste.NormalWF | modules/c/console/linenoise.c:1825-1838 | Well-formed text stays well formed, with the same rule on its code points. |
| Paste.ShouldFoldText | modules/c/console/linenoise.c:905-907 | Text is folded exactly if it has a newline or at least 200 bytes. |
| Editors.Editor.EditPaste | modules/c/console/linenoise.c:1776-1853 | A paste whose raw bytes are within the limit is normalised and inserted, under a fold if it should be; a larger one, or an empty one, leaves the line as it was; the input is read through the terminator in every case. |
| Editors.PasteComesIn | modules/c/console/linenoise.c:1776-1853 | A paste that is not empty comes in at the cursor, with CR and CRLF made LF, if and only if fewer than 16 folds are held, it has 1 MiB at most and it fits the buffer; otherwise nothing changes. It gets a fold if and only if it then has a newline or at least 200 bytes and mask mode is off. |
| PasteUndo.BackspaceUndoesFoldedPaste | modules/c/console/linenoise.c:1630-1640 | After a folded paste of any bytes, one Backspace gives back text, cursor and folds exactly if the cursor was strictly inside no fold. |
| Zippers.StepRightIsAtom | modules/c/console/linenoise.c:1066-1077 | In a line that a row stands for, a step right passes exactly the next atom. |
| Zippers.StepLeftIsAtom | modules/c/console/linenoise.c:1081-1091 | In a line that a row stands for, a step left passes exactly the previous atom. |
| Zippers.CutRow | modules/c/console/linenoise.c:1618-1659 | Cutting the bytes of some atoms, and adjusting the folds, cuts out those atoms. |
| Zippers.InsertRow | modules/c/console/linenoise.c:1487-1504 | Inserting the bytes of characters at the cursor inserts these characters. |
| Zippers.FoldedRow | modules/c/console/linenoise.c:1840-1848 | A folded paste is one new atom at the cursor. |
| Commands.LeftRefines | modules/c/console/linenoise.c:1540-1545 | Moving left is moving one atom over. |
| Commands.RightRefines | modules/c/console/linenoise.c:1548-1553 | Moving right is moving one atom over. |
| Commands.HomeEndRefine | modules/c/console/linenoise.c:1556-1569 | Home and End put the cursor before and after all atoms. |
| Commands.BackspaceRefines | modules/c/console/linenoise.c:1630-1640 | Backspace removes the atom before the cursor. |
| Commands.DeleteRefines | modules/c/console/linenoise.c:1618-1627 | Delete removes the atom after the cursor. |
| Commands.KillWordRefines | modules/c/console/linenoise.c:1644-1659 | Ctrl-W removes the atoms that end in a space and then those that do not. |
| Commands.KillToEndRefines | modules/c/console/linenoise.c:2057-2062 | Ctrl-K removes all atoms after the cursor. |
| Commands.KillLineRefines | modules/c/console/linenoise.c:2051-2056 | Ctrl-U leaves the empty row. |
| Commands.SwapRefines | modules/c/console/linenoise.c:1933-1952 | Ctrl-T changes two characters round the cursor round, and does nothing beside a fold or an end. |
| Commands.InsertRefines | modules/c/console/linenoise.c:1510-1537 | A typed character is a new atom at the cursor, unless the text would pass the cap. |
| Commands.PasteRefines | modules/c/console/linenoise.c:1776-1853 | A paste is its characters or one folded atom at the cursor, or nothing if it is too large. |
| Commands.RecallRefines | modules/c/console/linenoise.c:1598-1612 | Recalling an entry that fits gives the row of its characters, all but up to eight at each end in one folded atom if it is long or has several lines. |
| Commands.RecallRowIs | modules/c/console/linenoise.c:927-968 | The row made by that rule on characters is what the byte loops make of the entry, and no newline of it is in view. |
| Commands.CompleteRefines | modules/c/console/linenoise.c:790-797 | Accepting a completion that fits the buffer gives the row of its characters, without folds. |
| Commands.StepRefines | modules/c/console/linenoise.c:1901-2076 | Every command does to the line what it does to the row. |
| Commands.RunRefines | modules/c/console/linenoise.c:1875-2076 | Over every run no step is undefined, and the line reached is the one that the row's run stands for. |
| Commands.CursorNotInFold | modules/c/console/linenoise.c:1066-1171 | The cursor of a line that a row stands for is on a character boundary and strictly inside no fold. |
| Commands.HistoryFoldCoversLf | modules/c/console/linenoise.c:927-968 | The fold made for a recalled entry covers every newline of the entry. |
| Commands.EveryRun | modules/c/console/linenoise.c:1875-2076 | Over every run from the empty line the line is Ok, within the cap, and the cursor in no fold; if no newline is typed or completed, every newline of the text lies in a fold and nothing shown is a newline, pastes and recalled entries included. |
| Render.MarkerFits | modules/c/console/linenoise.c:910-921 | A marker is printable ASCII, not empty, and always fits its 64 bytes. |
| Render.SetRenderedText | modules/c/console/linenoise.c:895-921 | The marker names the number of lines of the hidden text, or of bytes if it is one line. |
| Screen.MarkerSays | modules/c/console/linenoise.c:895-921 | The number in a marker, read as a decimal, is that of the lines it hides, or of the bytes if there is no newline; the words say which. |
| Render.GetRenderFolds | modules/c/console/linenoise.c:973-992 | All folds with their markers, in order; none in mask mode or on an empty line. |
| Render.RenderBuffer | modules/c/console/linenoise.c:998-1062 | It fills exactly the length computed; the result is the text with each fold replaced by its marker, and the position is where the cursor is shown. |
| Render.ShownAtMonotone | modules/c/console/linenoise.c:1029-1056 | The shown cursor moves right when the cursor does and stays within what is shown. |
| Render.ShownAtOutside | modules/c/console/linenoise.c:1029-1056 | A cursor in no fold is shown where the text before it, rendered by itself, ends. |
| Render.ShownAtInside | modules/c/console/linenoise.c:1029-1056 | A cursor strictly inside a fold is shown right after that fold's marker. |
| Render.RenderedNoLf | modules/c/console/linenoise.c:998-1062 | If every newline lies in a fold, nothing shown is a newline. |
| Viewport.SingleCharWidth | modules/c/console/linenoise.c:479-484 | Of a text that starts a cluster without joiners or flags, it is the columns that the whole cluster takes; 0 of the empty text. |
| Viewport.Trim | modules/c/console/linenoise.c:1240-1264 | Both trimming loops end without underflow, keep the two column counts true, and leave the largest window of whole clusters around the cursor that fits. |
| Viewport.RefreshSingleLine | modules/c/console/linenoise.c:1224-1301 | What is sent is the prompt, the largest window of whole clusters around the cursor that fits, and the move to the cursor's column; for printable text a terminal shows it as `Viewport.WindowShown` says. |
| Viewport.WindowShown | modules/c/console/linenoise.c:1266-1301 | Reading the bytes gives CR, the characters of prompt and window, EL, CR and CUF. From any screen they leave the prompt's columns at the left edge of the cursor's row, the window's after them and nothing after those, in a full row without the last column if the terminal erases under the cursor; no other row changes; and the cursor is on its column exactly under the condition of `Viewport.CursorReachedIff`. |
| Viewport.CursorReachedIff | modules/c/console/linenoise.c:1240-1296 | A refresh puts the terminal's cursor to its column if and only if the prompt or the window before the cursor has a width, or there is one column only; on three columns or more, if and only if the prompt or the text before the cursor has a width. |
| Viewport.RefreshEmpty | modules/c/console/linenoise.c:1224-1301 | With an empty prompt the refresh of an empty line does not. |
| Viewport.ShownOnce | modules/c/console/linenoise.c:1224-1301 | There is exactly one such output. |
| Terminal.PutsHold | modules/c/console/linenoise.c:1359-1374 | Characters put from the left edge of a row on stand one after the other, row by row, in one column or two; nothing else on the screen changes. |
| Terminal.SaysSteady | modules/c/console/linenoise.c:417-476 | A text whose control sequences only set a style is read as its characters, and is as wide as utf8StrWidth says. |
| Rows.SentSays | modules/c/console/linenoise.c:1337-1409 | The bytes of a move are read back as that move with its number, whatever follows. |
| Rows.MultiLine.Clear | modules/c/console/linenoise.c:1337-1357 | The moves go from the cursor's row to the last and up again, and leave every row of the line blank with the cursor at the top left, and the rows above as they were. |
| Rows.ClearRun | modules/c/console/linenoise.c:1337-1357 | From any row: the same moves end at the left edge of a row, with all rows from there to the lowest reached erased and no other. |
| Rows.ClearAgainIff | modules/c/console/linenoise.c:1337-1357 | From the first row of a hidden line: they stay there if and only if the last position was on row 1 or the line has one row at most; otherwise every row from the one they end on to the prompt is erased. |
| Rows.HideTwice | modules/c/console/linenoise.c:1312-1418 | Hiding a line of two rows twice ends on the row above the prompt and erases it. |
| Rows.MultiLine.Write | modules/c/console/linenoise.c:1359-1413 | Afterwards the screen holds the text row by row, the cursor is where the next character would go, on row oldrpos, and oldrows is the number of rows taken, a full last row with the cursor after it included. |
| Rows.MultiLine.Refresh | modules/c/console/linenoise.c:1312-1418 | Of the bytes sent, as a terminal reads them: from the screen that the last refresh left they do both, and a clean without a write leaves the rows blank; from a hidden line a clean, with or without a write, does so if and only if the last position was on row 1 or the line has one row at most. |
| Rows.RefreshAll | modules/c/console/linenoise.c:1312-1418 | Over any sequence of full refreshes the moves never lose the row count; after each the screen holds the text, with the cursor in its place, and what stands above the prompt is as it was. |
| Screen.RowShown | modules/c/console/linenoise.c:998-1062 | A row is shown as its characters and markers, one after the other. |
| Screen.LineShown | modules/c/console/linenoise.c:998-1062 | The line shows the faces of its row, and the cursor between those left and right of it. |
| Screen.ViewReady | modules/c/console/linenoise.c:1224-1264 | Every row without a bare ESC meets the conditions of the single-line view. |
| Screen.RowsReady | modules/c/console/linenoise.c:1312-1331 | Every row shown in characters of width one meets the conditions of the multi-line view. |
| Screen.RefreshMultiLine | modules/c/console/linenoise.c:1305-1418 | From the editor's state: what a terminal does on the bytes sent leaves the characters of the prompt and then those of the rendered line on the screen, row by row, with the cursor on its row and column, the rows counted, and what stands above as it was, under the condition of `Rows.MultiLine.Refresh`. |
| Histories.HistoryIsSuffix | modules/c/console/linenoise.c:2266-2325 | After any additions and changes of the maximum, the history is a suffix of the added lines without adjacent repeats, and within the maximum. |
| Histories.HistoryIsLongest | modules/c/console/linenoise.c:2266-2293 | With a fixed maximum it is the longest such suffix. |
| Histories.History.Add | modules/c/console/linenoise.c:2266-2293 | A line is added unless it repeats the last or nothing may be kept; the oldest goes if the history is full. |
| Histories.History.SetMaxLen | modules/c/console/linenoise.c:2299-2325 | A maximum below 1 is refused; otherwise the newest entries that it allows are kept. |
| Histories.History.Save | modules/c/console/linenoise.c:2329-2350 | One record an entry, newlines inside it written as CR. |
| Histories.History.Load | modules/c/console/linenoise.c:2357-2380 | The records of the file are added one by one, cut at a NUL, with CR read as newline. |
| Histories.ReadLine | modules/c/console/linenoise.c:2150-2188 | The next record is read whole into a buffer that doubles as it fills, the last one also without a newline. |
| Histories.LoadOfSave | modules/c/console/linenoise.c:2329-2380 | What comes back are the last entries, with CR read as newline, that do not repeat the one before. |
| Histories.RoundTripIff | modules/c/console/linenoise.c:2329-2380 | The list comes back as it was if and only if no entry holds a CR, none repeats the one before, and the maximum allows them all. |
| Recall.BuildHistoryFold | modules/c/console/linenoise.c:927-968 | The fold hides all but up to eight clusters at each end, and these too if they hold a newline. |
| Recall.RecalledOk | modules/c/console/linenoise.c:1598-1612 | A recalled entry gives an Ok line. |
| Recall.Session.HistoryNext | modules/c/console/linenoise.c:1575-1613 | The line goes back to its entry, the index moves unless it meets an end, and the neighbouring entry comes into the line, of an entry too long for the buffer as much as it holds; where all fit it is the move of the walk. |
| Recall.WalkKeepsEdits | modules/c/console/linenoise.c:1575-1613 | Over any moves and edits each entry keeps the text it was last given, the index stays inside the history, and the buffer shows the entry it stands on. |
| Recall.UpThenDown | modules/c/console/linenoise.c:1575-1613 | As many steps down as up, meeting no end, give back the line that was being edited, and every entry. |
| Keys.ReadOfSent | modules/c/console/linenoise.c:1875-2050 | What a terminal sends for a key is read as that key, whatever comes next. |
| Keys.CharIsInsert | modules/c/console/linenoise.c:2033-2050 | A typed character is the insertion of its code point. |
| Keys.ControlKeys | modules/c/console/linenoise.c:1901-2076 | Which key each control character is. |
| Keys.EscapeKeys | modules/c/console/linenoise.c:1967-2031 | Which key each sequence of three bytes with ESC [ or ESC O is. |
| Keys.KeysOnRow | modules/c/console/linenoise.c:1901-2076 | What each key does to a row of atoms with the cursor between two of them. |
| Keys.Feed | modules/c/console/linenoise.c:1875-2076 | One key is read off the input and does to line, history and input what it stands for, and ends the line or not; Enter gives the line up to its first NUL; where the input ends inside a key, the bytes not read are those that the arrays held. |
| Blocking.OneKey | modules/c/console/linenoise.c:1875-2076 | A key of simple input is one command of the row or none, and leaves text and entries simple, without NUL and within the buffer's maximum. |
| Blocking.EndingKeys | modules/c/console/linenoise.c:1883-1929 | Enter, Ctrl-C, Ctrl-D on an empty line and the end of the input end the line, with what each gives back and leaves of the history; no other byte does. |
| Blocking.WalkingKeys | modules/c/console/linenoise.c:1960-1965 | Ctrl-P brings in the entry before, Ctrl-N the entry after, with the cursor at the end. |
| Blocking.BlockingEdit | modules/c/console/linenoise.c:2096-2117 | From an empty line, simple input is read key by key until one ends the line; whenever the line is shown it is Ok, within 1 MiB, with the cursor in no fold and, if no newline is typed, none in view; what is returned is that line, and the history can serve the next call. |
| Blocking.StepKeepsLineOk | modules/c/console/linenoise.c:1875-2076 | Every command keeps the line that of a row, without NUL and within the maximum. |
| Blocking.SessionKeepsEdits | modules/c/console/linenoise.c:1575-1613 | At every scene of a session each entry of the history, the line standing for its own, holds the text that it was last given, and the line shows what its entry was last given. |
| Blocking.HistoryAfter | modules/c/console/linenoise.c:1901-1914 | The accepted line is what its entry was last given; every other entry keeps what it was last given, and the temporary one is gone. |
| SlotDriver.EveryRun | stress/c/auth_bff/c_stress_auth_bff.c:167-569 | For any order of events: each slot has counted as many answers as it finished iterations, has a client exactly until it has finished all, asks for each iteration at most once; no client's answer counts twice; slots_done is the number of finished slots; the end is armed exactly if all answers are in. |
| SlotDriver.PostedHasRequest | stress/c/auth_bff/c_stress_auth_bff.c:471-523 | After every run a slot that waits for its answer has sent exactly one request for its present iteration, through the client that it now has. |
| SlotDriver.OpenedSends | stress/c/auth_bff/c_stress_auth_bff.c:471-523 | A connection of a connecting client sends the request of its slot's iteration, through that client; no other event sends anything. |
| SlotDriver.AnswerCounts | stress/c/auth_bff/c_stress_auth_bff.c:525-569 | An answer is counted as good or bad for the slot of its client, which goes on with a new client or is done; no other slot changes. |
| SlotDriver.WholeRun | stress/c/auth_bff/c_stress_auth_bff.c:204-469 | For any number of slots and iterations there is a run that succeeds, with one request an iteration. |
| SlotDriver.ServersOkIff | stress/c/auth_bff/c_stress_auth_bff.c:340-405 | The servers pass if and only if there is one a slot and, over all of them, requests, calls and good calls are as many as the answers expected and every failure count is 0. |
| SlotDriver.ArmedAtTheLastAnswer | stress/c/auth_bff/c_stress_auth_bff.c:230-434 | The end is armed at most once, at exactly the answer that brings the total to slots times iterations. |
| SlotDriver.AllFinished | stress/c/auth_bff/c_stress_auth_bff.c:230-271 | There are never more answers than slots times iterations, and all slots are finished exactly if there are that many. |
| SlotDriver.VerdictIsHonest | stress/c/auth_bff/c_stress_auth_bff.c:265-434 | The final check logs nothing exactly if every answer was good and the servers' statistics add up, and names the totals if an answer was bad. |
| SlotDriver.LoggedIff | stress/c/auth_bff/c_stress_auth_bff.c:446-592 | Over every run an error is logged if and only if some event was not expected: a bad answer, a late timer, an unknown source, a connection out of turn, or servers that counted wrong at the end. |
| SlotDriver.SucceedsIff | stress/c/auth_bff/main_stress_auth_bff.c:238-256 | A run succeeds, which it does if it ends with no error logged, if and only if it ends and every event was expected; then all answers are in and all were good. |
| SlotDriver.Finishing | stress/c/auth_bff/c_stress_auth_bff.c:230-263 | From every reachable state after the launch, answers of waiting clients alone, as many as are missing, end the run; good ones and right statistics end it with nothing more logged. |
| SlotDriver.StressDriver.AcTimer | stress/c/auth_bff/c_stress_auth_bff.c:446-469 | The first timer event launches every slot with a client of its own; one while dying ends the process; any other is logged. |
| SlotDriver.StressDriver.AcOnOpen | stress/c/auth_bff/c_stress_auth_bff.c:471-523 | A connecting slot sends the request of its iteration; an unknown client, or a slot in another state, is logged and changes nothing. |
| SlotDriver.StressDriver.AcOnMessage | stress/c/auth_bff/c_stress_auth_bff.c:525-569 | An answer is counted for the slot of its client, which goes on to its next iteration or finishes; an unknown client is logged and changes nothing. |
| SlotDriver.StressDriver.AcOnClose | stress/c/auth_bff/c_stress_auth_bff.c:571-581 | A closed connection changes nothing. |
| SlotDriver.StressDriver.AcStopped | stress/c/auth_bff/c_stress_auth_bff.c:583-592 | Nor does a stopped client. |
| SlotDriver.StressDriver.SlotIndexForSrc | stress/c/auth_bff/c_stress_auth_bff.c:167-176 | The first slot with this client, or -1 if none has it. |
| SlotDriver.StressDriver.LaunchAllSlots | stress/c/auth_bff/c_stress_auth_bff.c:204-222 | Every slot gets a new client and starts at iteration 0, unless they were launched before. |
| SlotDriver.StressDriver.CloseSlotAndRestartOrFinish | stress/c/auth_bff/c_stress_auth_bff.c:230-263 | The client is dropped and the iteration counted; the slot gets a new client, or is done and may end the run. |
| SlotDriver.StressDriver.MaybeVerifyAndDie | stress/c/auth_bff/c_stress_auth_bff.c:265-434 | Nothing happens before all slots are done; then the slots' counters and the sums over the servers' statistics are checked and logged, and the timer for the end is set. |
| DocLinks.SpanLen | scripts/check_doc_line_refs.py:425-426 | The length of the backticked symbol at the start of a text, if no bracket closes after it. |
| DocLinks.LinkLen | scripts/check_doc_line_refs.py:427-431 | The length of the link of a symbol at the start of a text. |
| DocLinks.FindLinked | scripts/check_doc_line_refs.py:521-523 | The names seen at first are exactly those of the links anywhere on the page; links never overlap. |
| DocLinks.SubLine | scripts/check_doc_line_refs.py:535-571 | The loop replaces exactly the spans that the rule picks, and leaves the names seen and the three counts as the rule says. |
| DocLinks.LinkSymbolsDoc | scripts/check_doc_line_refs.py:515-575 | The loop over the lines, with code blocks skipped, gives the linked page and its counts; a page with nothing to link is not written. |
| DocLinks.LinkedOnce | scripts/check_doc_line_refs.py:515-575 | Run on its own result it changes nothing and counts nothing, for any page. |
| DocLinks.LinksFirstMentions | scripts/check_doc_line_refs.py:515-575 | Linked are exactly the symbols that have a target, that a span outside the code blocks names, and that the page did not link; each once; and all links that the page had stay. |
| LinkTargets.GoalLeads | scripts/check_doc_line_refs.py:535-569 | A symbol has a target if and only if a label of its gclass, a tool's label, an entry of the documentation or a single definition is there, and the goal leads to the first of these that is. |
| LinkTargets.NoneDangles | scripts/check_doc_line_refs.py:535-571 | Every new link of a page leads to such a target: a label that exists and is not on the page, or an address that is read back as release, file and line of the definition. |
| LinkTargets.LinksThoseWithTarget | scripts/check_doc_line_refs.py:515-575 | Linked come to be exactly the symbols mentioned outside the code blocks, not linked yet, and with such a target. |
| LinkTargets.FirstMention | scripts/check_doc_line_refs.py:515-575 | What becomes a link is the first mention: neither the lines before, outside the code blocks, nor what stands before it on its line mentions the symbol. |
| LinkTargets.FenceIff | scripts/check_doc_line_refs.py:432 | A line opens or closes a code block if and only if three backticks or tildes come first on it, behind space. |
| LinkTargets.CountsAre | scripts/check_doc_line_refs.py:524-575 | The counts are the numbers of new links of each kind. |
| DocLinks.ErasedLinks | scripts/check_doc_line_refs.py:535-572 | Without the wrappers of the added links the page is the one that it was. |
| DocLinks.NoNewFence | scripts/check_doc_line_refs.py:432 | A line that opens no code block does not come to open one. |
| DocLinks.SubLinks | scripts/check_doc_line_refs.py:535-571 | The links of a rewritten line are those of the line and the new ones. |
| Repin.FirstPass | scripts/check_doc_line_refs.py:931-947 | The map takes the old line of each symbol link to the line of its definition, the last link at a line deciding. |
| Repin.MoveLink | scripts/check_doc_line_refs.py:949-991 | The new text, tag and anchor of one link, and the symbol that has no definition. |
| Repin.Repin | scripts/check_doc_line_refs.py:924-994 | The two passes give the moved line, its three counts and the symbols without a definition. |
| Repin.CountsAre | scripts/check_doc_line_refs.py:949-994 | The counts are the numbers of links with another tag, of links with a computed line, and of those whose line moves. |
| Repin.MissingAre | scripts/check_doc_line_refs.py:961-972 | Missing are exactly the symbols of links to a line of a file that have no definition there. |
| Repin.RepinTwiceIff | scripts/check_doc_line_refs.py:886-994 | For a tag that names neither a symbol nor a line, a second run changes the line if and only if it has a locator that no symbol explained, at a line that a symbol has moved to, whose text says another line. |
| Repin.IdempotentIff | scripts/check_doc_line_refs.py:886-994 | For a tag that can be read back: every line without such a locator is left alone by the second run, wherever the symbols are defined, if and only if the tag names neither a symbol nor a line. |
| Repin.RepinTwice | scripts/check_doc_line_refs.py:924-994 | For such a tag, where every locator's text says the line of its anchor, re-pinning is idempotent. |
| Repin.RepinMovesTwice | scripts/check_doc_line_refs.py:924-994 | A line on which it is not. |
| Repin.SymbolTagMovesTwice | scripts/check_doc_line_refs.py:911-994 | For every tag that names a symbol, a line without such a locator on which it is not. |
| Repin.LocatorTagMovesTwice | scripts/check_doc_line_refs.py:912-994 | For every tag that names a line, such a line. |
| Repin.NothingDrifts | scripts/check_doc_line_refs.py:949-994 | For a tag that names neither, the second run finds no tag and no computed anchor to change. |
| Repin.TwinFollows | scripts/check_doc_line_refs.py:961-981 | A locator follows the last symbol link that was at its line, in its anchor and in its text. |
| Repin.RepinKeeps | scripts/check_doc_line_refs.py:949-994 | The text between links, the kinds, the paths and the ranges stay; an anchor changes only to the line of a definition. |
| Repin.ReplaceTag | scripts/check_doc_line_refs.py:958-960 | In a text that is just the tag, the tag is replaced where it is and nowhere else. |
| SourceLinks.ReadBackIff | scripts/check_doc_line_refs.py:900-907 | A written address is read back as kind, tag, path and anchor if and only if the tag is not empty and has no slash, closing parenthesis or hash. |
| SourceLinks.LinkBack | scripts/check_doc_line_refs.py:902-907 | A link whose text, tag and path the pattern can read is read back as it was written, whatever follows it. |
| SourceLinks.SymbolForms | scripts/check_doc_line_refs.py:910-921 | A link's text names a symbol by its name, with () behind it, between backticks, or both, and with space around. |
| SourceLinks.VersionForms | scripts/check_doc_line_refs.py:909 | Two or three numbers with dots between them are a version. |
| SourceLinks.SecondRunSees | scripts/check_doc_line_refs.py:949-992 | Re-pinned to a tag without slash, closing parenthesis or bracket, hash and backtick, every link of a line is read back as the link that the first run made. |
| SourceLinks.SlashTagMovesTwice | scripts/check_doc_line_refs.py:949-994 | For a tag with a slash the second run reads another tag and path from any file link, counts a tag, and writes a longer link. |
| SourceLinks.SlashTagExample | scripts/check_doc_line_refs.py:949-994 | Such a tag is release/7.9.3. |

## Left out

- Terminal and operating system: raw mode, window size, cursor queries, isatty, atexit, failing reads and writes, and
  failing allocations. Input is a sequence of bytes, output is a value.
- Hints and completion callbacks; of completion only what accepting a candidate does to the line. A candidate of 2 GiB or more,
  whose length snprintf cannot return, is not part of this model.
- Mask mode when painting; in the state it only switches folds off, which is modelled. Sessions are without it.
- Malformed UTF-8 and NUL bytes in the buffer. Arbitrary bytes are covered where no character is decoded: growing, inserting,
  pasting, cutting, folds, rendering, and taking a folded paste back.
- Grapheme clusters that reach over the edge of a fold, which can put the cursor inside it; the refinement by rows of atoms is
  for characters that are clusters by themselves.
- Escape sequences, flags and joiners in the text of the single-line view, whose loops measure clusters by their first code point,
  and prompts as wide as the terminal.
- Viewport.RefreshSingleLine: does not model what a terminal shows of control characters in the line, a tab among them, or of a
  prompt as in the next entry; for these it gives the bytes.
- Characters of width other than one in the multi-line view, and prompts with control characters or with control sequences other
  than those for a style, which move the cursor by more or less than their width; nor a prompt that ends in a joiner, which
  would join the first character of the line.
- Combining marks on the screen: a cell holds the character that takes the column. That they are sent, and where, is in what
  the bytes are read as. Scrolling at the bottom of the screen is not part of this model.
- Utf8.Encode1: does not exclude the surrogates, as the code does not; the results hold for all code points of RFC 3629 and those.
- Keys.Feed: does not model a failing read or write. Where Up or Down brings an entry in, what the buffer takes of it must be well
  formed; it is not where a long entry is cut inside a character.
- Recall.Session.HistoryNext: does not model an entry that is cut inside a character, whose fold is then found in malformed text.
- Blocking.BlockingEdit: does not model a completion in the middle of a session, nor flags, joiners and other characters that
  extend a cluster in its input; the keys themselves are carried out for all text (`Keys.Feed`).
- Commands.RunRefines: does not model the choice of the entry that a recall brings in; any entry that fits may come, and `Recall`
  proves which one does.
- DocLinks.LinkedOnce: does not model labels, file names or tags with a backtick or a line break, which would make new spans; the
  text is as Python reads it, with newlines translated. Regular expressions are stated by their span rules.
- The indexes of labels, definitions and lines, and the walk over files; they are fixed maps.
- Repin.IdempotentIff: does not model tags with a slash, a closing parenthesis or a hash, whose addresses are read back as others
  (`SourceLinks.ReadBackIff`), nor tags with a closing bracket or a backtick, which end the text of a link too soon.
- SourceLinks.SecondRunSees: does not model the search for the next link in a line, nor texts that start with a backtick and
  have no other, such as the one in "[`a](...)"; line numbers are ASCII digits.
- SlotDriver.SucceedsIff: does not model errors that the framework and the servers log by themselves, nor the limit of 30 seconds.
  The flag test_passed of the driver is set and read by nothing, so no result is about it.
- The framework of objects, events and timers; a failing creation of a client.
- The rest of the repository: command-line tools over the database, the other scripts, and the web pages.
