# NightNote line editor, modelled in Dafny

NightNote is a small `ed`-like line editor. It comes as two command-line
programs that share a command set: a Python one (`NightNote_25.0708.1.py`) and
a C one (`NightNote_25.0708.1.c`). Both keep several text buffers in memory,
each buffer being a list of lines, and one of them is current. The commands
insert typed lines after line `n`, append typed lines at the end, delete line
`n`, clear the buffer, switch buffers and remove a buffer. Typed input ends
with a line holding only `.`. The Python program also keeps a bounded undo
stack (`MAX_HISTORY = 10`) of whole-buffer records, a redo stack, and a
regular-expression `replace`. The C program keeps eight fixed buffers of
`MAX_LINES = 10000` rows of `MAX_LINE_LEN = 1024` characters, and reports a
buffer's size in bytes.

The project has four modules:

- `LineEdit` (`line_edit.dfy`) holds what both programs share. It defines the
  block of input before the `.` line, splicing lines in after line `n`, and
  deleting one line.
- `PyState` (`py_state.dfy`) holds the Python globals as one value. There is
  one function per command giving the state the command leaves, and the
  lemmas about those functions: undo and redo round trips, and the three
  Python findings below.
- `PyEditor` (`py_editor.dfy`) is a class whose fields are the Python
  globals. Its methods perform the commands in place. Each method is proved
  to leave exactly the state the matching `PyState` function describes.
- `CEditor` (`c_editor.dfy`) is a class over the C arrays: one array of
  rows per buffer, the line counts and the file names. The loops of the C
  code work on one buffer's rows, with the same shifts and copies. Each
  command is proved against `LineEdit`'s splice and delete on the sequence
  of a buffer's lines.

Interactive input (`input()` in Python, `fgets` on stdin in C) is a parameter:
the sequence of lines the user would type. The regular-expression engine is a
parameter too: a function that takes a line and gives the rewritten line with
its substitution count, as `regex.subn` does.

## Model

| member | source | states |
|---|---|---|
| `LineEdit.BeforeTerminator` | NightNote_25.0708.1.py:109-118 | The block read is a prefix of the input that contains no "." line. It is cut exactly at the first "." when there is one. |
| `LineEdit.TerminatorFreePrefix` | NightNote_25.0708.1.py:110-115 | Every input line before the first "." belongs to the block. |
| `LineEdit.FirstTerminator` | NightNote_25.0708.1.py:113-114 | When line `k` is the first ".", the block is exactly the `k` lines before it. |
| `LineEdit.NoTerminator` | NightNote_25.0708.1.py:110-118 | Input with no "." line is all block. |
| `LineEdit.Splice` | NightNote_25.0708.1.py:122 | `lines[n:n] = added`: the result is the first `n` lines, then `added`, then the rest, with the length adding up. |
| `LineEdit.SpliceAt` | NightNote_25.0708.1.c:82-90 | Line `j` of a splice comes from the old lines before `n`, from `added` inside the gap, and from the old lines shifted by `|added|` after the gap. |
| `LineEdit.DeleteAt` | NightNote_25.0708.1.py:156 | `lines.pop(n-1)`: one line shorter, with the lines before and after the deleted one kept in order. |
| `LineEdit.DeleteAtIndex` | NightNote_25.0708.1.c:115-117 | After a delete, line `j` is old line `j` before the deleted position and old line `j+1` from there on. |
| `LineEdit.DeleteUndoesSplice` | NightNote_25.0708.1.py:149-159 | Deleting a line just spliced in at `n` gives the original lines back. |
| `LineEdit.SpliceUndoesDelete` | NightNote_25.0708.1.py:101-125 | Splicing a deleted line back at its old position gives the original lines back. |
| `LineEdit.BlockEndsAt` | NightNote_25.0708.1.c:98-104 | A reading loop that stops at the end of input or at a "." line, having seen no "." before, has read exactly the block. |
| `LineEdit.ConcatFromParts` | NightNote_25.0708.1.c:98-105 | Rows that keep the old lines and then hold the block, one per row, are the old lines followed by the block. |
| `LineEdit.SpliceFromParts` | NightNote_25.0708.1.c:82-91 | Rows that match the old lines before `n`, the new lines in the gap, and the shifted old lines after it form exactly the splice. |
| `PyState.Init` | NightNote_25.0708.1.py:9-40 | Start-up state: one empty buffer without a file name and two empty stacks. It satisfies both invariants. |
| `PyState.Saved` | NightNote_25.0708.1.py:48-54 | `save_state` keeps the undo stack at or below MAX_HISTORY by evicting the oldest record when full. It pushes the current buffer's index, lines and file name on top, empties the redo stack and changes no buffer. Both invariants are kept. |
| `PyState.CurrentSnapshot` | NightNote_25.0708.1.py:52 | The record `save_state`, `undo_last` (line 296) and `redo` (line 311) take names the current buffer, an existing one, and holds that buffer's lines and file name as they stand. |
| `PyState.WithLines` | NightNote_25.0708.1.py:45-46 | `set_lines` makes the current buffer the given lines. The other buffers, the file names, the current index and both stacks are unchanged, and both invariants are kept. |
| `PyState.Entered` | NightNote_25.0708.1.py:109-118 | A block is entered exactly when a "." line arrives, and then it is the lines before it. Running out of input (EOFError) enters nothing. |
| `PyState.Inserted` | NightNote_25.0708.1.py:101-125 | `insert(n)` changes nothing if `n` is out of range, input ends early, or no line is entered. Otherwise the buffer becomes old[..n] ++ new ++ old[n..] and only that buffer changes. One record of the pre-insert buffer is pushed and redo is emptied. The invariants are kept. |
| `PyState.Appended` | NightNote_25.0708.1.py:127-147 | `append` makes the buffer old ++ new and pushes one pre-append record. It changes nothing when no line was entered or input ended early. |
| `PyState.Deleted` | NightNote_25.0708.1.py:149-159 | `delete(n)` is a no-op unless 1 <= n <= len. Otherwise exactly line n-1 (0-based) is removed, the other lines keep their order, and one pre-delete record is pushed. |
| `PyState.Cleared` | NightNote_25.0708.1.py:184-188 | `clear_buffer` records the buffer, then empties it. The file name and the other buffers are unchanged. |
| `PyState.PadTo` | NightNote_25.0708.1.py:212-215 | A padding `while` loop leaves the existing entries unchanged and adds fill entries until the length exceeds the index. |
| `PyState.FileSet` | NightNote_25.0708.1.py:56-59 | `set_buffer_file` names the current buffer's file and touches no other field or file name. |
| `PyState.Switched` | NightNote_25.0708.1.py:207-217 | `switch_buffer(n)` rejects n < 0. Otherwise it pads both lists with empty entries up to n, keeps the existing entries, makes n current and leaves the stacks alone. The invariants are kept. |
| `PyState.Removed` | NightNote_25.0708.1.py:227-242 | `remove_buffer(n)` rejects out-of-range n and the last buffer. Otherwise both lists lose index n and every other buffer keeps its content at its shifted index. The current index becomes 0 if it was n. Otherwise it becomes the old index shifted down past n, so it names the same buffer with the same text and file name. The stacks are untouched, which is the stale-record finding. |
| `PyState.Shifted` | NightNote_25.0708.1.py:237-241 | A buffer's index moves down by at most one when buffer n goes. Buffers before n stay before it, buffers after it stay after. |
| `PyState.ShiftedRenumbers` | NightNote_25.0708.1.py:235-241 | Of `count` buffers with n removed, every other buffer lands inside the shortened list and no two of them land on the same index. |
| `PyState.Remap` | NightNote_25.0708.1.py:227-242 | The renumbered stack is never longer than the old one. |
| `PyState.RemapConcat` | NightNote_25.0708.1.py:227-242 | Renumbering a stack is renumbering its two halves, in the same order. |
| `PyState.RemapSingle` | NightNote_25.0708.1.py:227-242 | A single record of buffer n is dropped, and any other is kept with its index shifted. With `RemapConcat` this fixes the order and the count of the renumbered records. |
| `PyState.RemapOrigin` | NightNote_25.0708.1.py:227-242 | Every renumbered record comes from a record of another buffer, with its index shifted the way the buffers are. |
| `PyState.RemapKeeps` | NightNote_25.0708.1.py:227-242 | Conversely, every record of a buffer other than n is in the renumbered stack, with its index shifted. |
| `PyState.RemapKeepsAll` | NightNote_25.0708.1.py:227-242 | With no record of buffer n, the renumbered stack has the same length and holds each record renumbered in its own place. |
| `PyState.RemapTop` | NightNote_25.0708.1.py:227-242 | A top record of another buffer stays on top of the stack, renumbered. |
| `PyState.RemapPlaceable` | NightNote_25.0708.1.py:227-242 | Records that name existing buffers still name existing buffers after the renumbering. |
| `PyState.RemovedFixed` | NightNote_25.0708.1.py:227-242 | The corrected remove gives the same buffers, file names and current index as `remove_buffer`. It keeps every record placeable, and it changes nothing for an out-of-range n or a last buffer. |
| `PyState.RemovedFixedKeepsRecords` | NightNote_25.0708.1.py:227-242 | The corrected remove keeps every record of another buffer, renumbered, on its stack. |
| `PyState.RewriteLine` | NightNote_25.0708.1.py:276-278 | A line becomes the text `subn` returns when the reported count is positive, and changes only then. |
| `PyState.Rewritten` | NightNote_25.0708.1.py:275-280 | The replace loop leaves the buffer with as many lines as before. |
| `PyState.Occurrences` | NightNote_25.0708.1.py:274-281 | The total `changed` is zero exactly when `subn` reports no substitution on any line, which is when replace reports no match. |
| `PyState.NoOccurrencesNoRewrite` | NightNote_25.0708.1.py:275-286 | When `subn` reports no substitution on any line, the loop leaves every line as it is. |
| `PyState.Replaced` | NightNote_25.0708.1.py:265-286 | `replace` as written is a no-op when nothing matched. Otherwise the current buffer holds the rewritten lines, and the other buffers, the file names and the current index stay. Redo is emptied and the undo stack grows as under `save_state`. The record pushed on top holds the REWRITTEN lines, because the rewrite happened in the buffer before the save. The invariants are kept. |
| `PyState.ReplacedFixed` | NightNote_25.0708.1.py:265-286 | The corrected replace is an edit of the current buffer that leaves its lines rewritten and pushes a record of the text before the rewrite. |
| `PyState.UndoCrashes` | NightNote_25.0708.1.py:295-298 | `undo_last` raises IndexError when its top record names a buffer past the end of the list. It cannot do so while every record names an existing buffer. |
| `PyState.RedoCrashes` | NightNote_25.0708.1.py:310-313 | `redo` raises IndexError in the same case for the redo stack, and not while every record names a buffer. |
| `PyState.Undone` | NightNote_25.0708.1.py:288-301 | `undo_last` with an empty stack changes nothing. Otherwise it pops the top record off the undo stack, pushes the CURRENT buffer's record onto redo and makes the popped record's index current. Without a crash, that buffer gets the record's lines and file name, and nothing else changes. On the IndexError no buffer or file name has changed yet. It cannot crash while every record names a buffer, and then it keeps both invariants. |
| `PyState.Redone` | NightNote_25.0708.1.py:303-316 | `redo` with an empty redo stack changes nothing. Otherwise it pops the top redo record, pushes the CURRENT buffer's record onto the undo stack and makes the popped index current. Without a crash, that buffer gets the record's lines and file name. On the IndexError no buffer or file name has changed. The push at line 311 cannot overflow because the stacks' total size is kept. |
| `PyState.UndoneFixed` | NightNote_25.0708.1.py:288-301 | The corrected undo pops the top record and pushes a record of the buffer it is about to restore, at that buffer's index. It makes the index current and writes the record's lines and file name back there. It keeps both invariants and the stacks' total size, and changes nothing on an empty stack. |
| `PyState.RedoneFixed` | NightNote_25.0708.1.py:303-316 | The corrected redo pops the top redo record and pushes a record of the buffer it is about to restore onto the undo stack. It makes that index current and writes the record back there. It keeps both invariants and the stacks' total size, and changes nothing on an empty stack. |
| `PyState.UndoRestoresEdit` | NightNote_25.0708.1.py:288-301 | Undo right after an insert, append, delete or clear restores every buffer, file name and the current index. The edited text is kept for redo. |
| `PyState.DeleteThenReinsert` | NightNote_25.0708.1.py:101-159 | Deleting line n and inserting it back after line n-1 gives the buffer back, provided the line is not ".". |
| `PyState.AppendIsInsertAtEnd` | NightNote_25.0708.1.py:101-147 | `append` is `insert` after the last line, with the same record and state. |
| `PyState.UndoRedoRoundTrip` | NightNote_25.0708.1.py:288-316 | When the undone record is of the current buffer, redo right after undo returns the whole state. |
| `PyState.RedoUndoRoundTrip` | NightNote_25.0708.1.py:288-316 | When the redone record is of the current buffer, undo right after redo returns the whole state. |
| `PyState.SwitchToExisting` | NightNote_25.0708.1.py:207-217 | Switching to an existing buffer only changes the current index. |
| `PyState.ReplaceUndoKeepsRewrite` | NightNote_25.0708.1.py:275-283 | As written, undo right after a replace leaves the rewritten lines in place. |
| `PyState.ReplaceUndoExample` | NightNote_25.0708.1.py:275-283 | Concrete case: a rule turning "cat" into "dog" on ["cat"], then undo, still leaves ["dog"]. |
| `PyState.ReplaceFixedUndoRestores` | NightNote_25.0708.1.py:265-301 | Corrected, undo right after a replace restores every buffer, file name and the current index. |
| `PyState.RemoveLeavesStaleRecords` | NightNote_25.0708.1.py:227-298 | Two concrete cases. With buffers a, b, c, b current and a record of b, removing buffer 0 makes undo write b's old text over c. With two buffers, the same removal leaves a record that crashes undo. |
| `PyState.RemovedFixedKeepsRecordsPlaceable` | NightNote_25.0708.1.py:227-242 | After the corrected remove every record still names a buffer, so neither undo nor redo can crash. |
| `PyState.RemovedFixedTop` | NightNote_25.0708.1.py:227-242 | After the corrected remove, a top undo record of another buffer is still on top, renumbered, and names an existing buffer. |
| `PyState.UndoPlacesTop` | NightNote_25.0708.1.py:288-301 | Undo with a placeable top record does not crash. It writes the record's lines and file name back at its index and makes that buffer current. |
| `PyState.RemovedFixedUndoRestores` | NightNote_25.0708.1.py:227-301 | Corrected, undo right after removing another buffer puts the top record's text and file name back into its own buffer at the new index. Every other buffer is as the removal left it. |
| `PyState.RemovedFixedUndoExample` | NightNote_25.0708.1.py:227-301 | The trace of the stale-record finding with the corrected remove: undo gives [["b0"], ["c"]], so c is left alone. |
| `PyState.UndoRedoLosesEdit` | NightNote_25.0708.1.py:288-316 | Concrete trace: start-up, append "a", switch to buffer 1, undo, redo. The line "a" is then in no buffer and in no record. |
| `PyState.UndoRedoFixedRoundTrip` | NightNote_25.0708.1.py:288-316 | Corrected, redo right after any undo returns every buffer, file name and both stacks. The current index is left at the restored buffer. |
| `PyState.RedoUndoFixedRoundTrip` | NightNote_25.0708.1.py:288-316 | Corrected, undo right after any redo returns every buffer, file name and both stacks. |
| `PyEditor.ReadBlock` | NightNote_25.0708.1.py:109-118 | The `input()` loop returns the block before "." and returns nothing when input ends first. |
| `PyEditor.PaddedIs` | NightNote_25.0708.1.py:212-215 | A list shaped by the padding loop equals the padding function's result. |
| `PyEditor.Editor.constructor` | NightNote_25.0708.1.py:9-40 | The globals start as `PyState.Init`. |
| `PyEditor.Editor.SaveState` | NightNote_25.0708.1.py:48-54 | Updates the stacks in place to exactly `Saved`. |
| `PyEditor.Editor.SetBufferFile` | NightNote_25.0708.1.py:56-59 | The padding loop, then the assignment. From a valid state the result is `FileSet`. |
| `PyEditor.Editor.Insert` | NightNote_25.0708.1.py:101-125 | Reads the block, saves, splices in place: exactly `Inserted`. |
| `PyEditor.Editor.Append` | NightNote_25.0708.1.py:127-147 | Reads the block, saves, extends in place: exactly `Appended`. |
| `PyEditor.Editor.Delete` | NightNote_25.0708.1.py:149-159 | Range check, save, pop: exactly `Deleted`. |
| `PyEditor.Editor.ClearBuffer` | NightNote_25.0708.1.py:184-188 | Exactly `Cleared`. |
| `PyEditor.Editor.SwitchBuffer` | NightNote_25.0708.1.py:207-217 | The two padding loops, then the switch: exactly `Switched`. |
| `PyEditor.Editor.DropBuffer` | NightNote_25.0708.1.py:235-242 | The two `pop`s and the move of the current index leave exactly `Removed`. |
| `PyEditor.Editor.RemoveBuffer` | NightNote_25.0708.1.py:227-242 | Exactly `Removed`, which keeps `Valid` but not the record indices. |
| `PyEditor.Editor.RemoveBufferFixed` | NightNote_25.0708.1.py:227-242 | Exactly `RemovedFixed`. |
| `PyEditor.Editor.RewriteLines` | NightNote_25.0708.1.py:273-278 | The line loop gives every line passed through `subn` and the total number of substitutions. |
| `PyEditor.Editor.Replace` | NightNote_25.0708.1.py:265-286 | `get_lines` hands back the buffer itself, so the loop rewrites the buffer in place. `save_state` comes after it: exactly `Replaced`. |
| `PyEditor.Editor.ReplaceFixed` | NightNote_25.0708.1.py:265-286 | The loop runs on a copy, the save comes first and the copy is stored after: exactly `ReplacedFixed`. |
| `PyEditor.Editor.UndoLast` | NightNote_25.0708.1.py:288-301 | Reports the IndexError exactly when `UndoCrashes`. The state is `Undone`, and valid when there is no crash. |
| `PyEditor.Editor.Redo` | NightNote_25.0708.1.py:303-316 | Reports the IndexError exactly when `RedoCrashes`. The state is `Redone`, and valid when there is no crash. |
| `PyEditor.Editor.UndoLastFixed` | NightNote_25.0708.1.py:288-301 | Exactly `UndoneFixed`. Keeps record indices valid. |
| `PyEditor.Editor.RedoFixed` | NightNote_25.0708.1.py:303-316 | Exactly `RedoneFixed`. Keeps record indices valid. |
| `CEditor.Trunc` | NightNote_25.0708.1.c:77-78 | A row written with `strncpy(.., MAX_LINE_LEN - 1)` and a NUL holds at most 1023 characters, and equals the source when it fits. |
| `CEditor.TruncKeepsPrefix` | NightNote_25.0708.1.c:77-78 | The row is a prefix of the source, cut at 1023 characters when the source is longer. |
| `CEditor.TruncAll` | NightNote_25.0708.1.c:87-90 | Every line truncated as one row, with the number of lines kept. |
| `CEditor.Taken` | NightNote_25.0708.1.c:71-79 | `insert` reads at most `room` lines, a prefix of the block before ".". It is the whole block when it stops before `room`. |
| `CEditor.StagingRoom` | NightNote_25.0708.1.c:71-73 | The corrected read bound is both no more than the staging array's rows and no more than the free rows, and it reaches one of them. |
| `CEditor.InsertOverruns` | NightNote_25.0708.1.c:71-77 | The as-written `insert` writes past its MAX_LINE_LEN staging rows exactly when n is valid, the buffer has more than MAX_LINE_LEN free rows and more than MAX_LINE_LEN lines are typed before the ".". |
| `CEditor.AppendOverruns` | NightNote_25.0708.1.c:99-104 | The as-written `append` writes at or past row MAX_LINES exactly when the bounded read would leave lines of the block unread, that is, when the count plus the block length exceeds MAX_LINES. |
| `CEditor.InsertOverrunExample` | NightNote_25.0708.1.c:72-77 | 1025 typed lines into an empty buffer overrun the staging array, while the bounded read takes exactly the first 1024. |
| `CEditor.AppendOverrunExample` | NightNote_25.0708.1.c:99-104 | One line appended to a full buffer is written at row MAX_LINES, while the bounded append adds nothing. |
| `CEditor.Bytes` | NightNote_25.0708.1.c:44-46 | The size `show_buffer_size` reports adds `strlen(row) + 1` per line, so it is at least the line count and exceeds the last line's length. |
| `CEditor.BytesConcat` | NightNote_25.0708.1.c:41-48 | The reported size of two blocks of lines together is the sum of their sizes. |
| `CEditor.SpliceSize` | NightNote_25.0708.1.c:58-93 | An insert adds exactly the inserted lines' size to the reported size. |
| `CEditor.DeleteSize` | NightNote_25.0708.1.c:109-121 | A delete takes exactly the line's length plus one off the reported size. |
| `CEditor.BytesBound` | NightNote_25.0708.1.c:41-48 | The size lies between the line count and the line count times MAX_LINE_LEN, so the `int` total cannot overflow. |
| `CEditor.ReadStaged` | NightNote_25.0708.1.c:70-79 | The reading loop stages exactly the truncated lines of `Taken`, and needs no more than the array's MAX_LINE_LEN rows. |
| `CEditor.ShiftUp` | NightNote_25.0708.1.c:82-85 | The top-down loop moves rows n..lines-1 up by k and never overwrites a row before it is moved. Rows below n are untouched and every row still fits. |
| `CEditor.CopyIn` | NightNote_25.0708.1.c:87-90 | The copy loop writes the truncated staged rows into n..n+k-1 and no other row. |
| `CEditor.SpliceRows` | NightNote_25.0708.1.c:82-90 | The shift and copy loops together turn the first `lines` rows into the splice of the staged rows after row n. |
| `CEditor.ShiftDown` | NightNote_25.0708.1.c:115-117 | The bottom-up loop of `delete` turns the first `lines` rows into those rows without row i. |
| `CEditor.WriteBlock` | NightNote_25.0708.1.c:98-104 | The unbounded reading loop of `append` leaves the rows below `start` alone and writes the block after them, one line per row. |
| `CEditor.WriteBlockBounded` | NightNote_25.0708.1.c:98-104 | The reading loop bounded by the array's rows writes the lines of the block that fit after `start`. |
| `CEditor.Editor.Lines` | NightNote_25.0708.1.c:15-16 | A buffer's lines are its first `buffer_line_counts[b]` rows. |
| `CEditor.Editor.constructor` | NightNote_25.0708.1.c:15-18 | All counts and file names start at zero and empty, with buffer 0 current. |
| `CEditor.Editor.SetCount` | NightNote_25.0708.1.c:91 | Setting the current buffer's count makes its lines the first `lines` rows and leaves the other buffers' lines alone. |
| `CEditor.Editor.Place` | NightNote_25.0708.1.c:82-91 | Shift, copy and count update together make the buffer the splice of the staged lines after line n, leaving other buffers alone. |
| `CEditor.Editor.Insert` | NightNote_25.0708.1.c:58-93 | `insert(n)` leaves everything unchanged on a bad n or a full buffer. Otherwise the buffer becomes old[..n] ++ truncated new lines ++ old[n..], with at most MAX_LINES - count new lines. Other buffers are unchanged. |
| `CEditor.Editor.InsertChecked` | NightNote_25.0708.1.c:58-93 | The corrected insert accepts any input and splices in at most StagingRoom(count) lines. |
| `CEditor.Editor.Append` | NightNote_25.0708.1.c:95-107 | `append` writes the block at consecutive rows from the old count. The buffer becomes old ++ block and other buffers are unchanged. |
| `CEditor.Editor.AppendChecked` | NightNote_25.0708.1.c:95-107 | The corrected append stops at MAX_LINES rows and adds the lines that fit, for any input. |
| `CEditor.Editor.Delete` | NightNote_25.0708.1.c:109-121 | `delete(n)` is a no-op unless 1 <= n <= count. Otherwise rows shift down one from n and the count drops by one: the buffer is old without line n-1. Other buffers are unchanged. |
| `CEditor.Editor.ClearBuffer` | NightNote_25.0708.1.c:162-166 | The count becomes 0 and the file names and the other buffers are unchanged. |
| `CEditor.Editor.SwitchBuffer` | NightNote_25.0708.1.c:182-189 | Only 0 <= n < MAX_BUFFERS is accepted; otherwise the current buffer stays. |
| `CEditor.Editor.RemoveBuffer` | NightNote_25.0708.1.c:203-220 | An out-of-range n changes nothing. Otherwise only buffer n is emptied and loses its file name, no other buffer moves, and the current buffer becomes 0 only if it was n. |
| `CEditor.Editor.BufferSize` | NightNote_25.0708.1.c:41-48 | The line count and the byte total, strlen + 1 summed over the current buffer's lines, within the no-overflow bound. |

## Left out

- Printing and messages, the help, about and debug commands, `p` (print all lines), `search`, `list_buffers` and `list_history`.
- `operation_history` (Python): it only feeds `list_history`'s printout.
- Python `show_buffer_size`: it counts UTF-8 bytes via `.encode`. Python strings are modelled as sequences of characters, without an encoding.
- File I/O: `select_file` and `write` in both programs. `save_state`'s caller in `write` is therefore not modelled either.
- The regular-expression engine and `re.compile` errors. `replace` takes an abstract per-line rewrite returning the new line and its substitution count.
- Command dispatch in both `main` functions, and argument parsing (`int()`, `atoi`).
- The Qt and tkinter front ends (`NightNote_PyQt.py`, `NightNote_GUI.py`). Their state machine repeats the Python one on whole-text buffers.
- Input: a line is what `input()` returns, or what `fgets` returns with its newline stripped. `fgets` splitting a line of 1023 characters or longer into pieces (a line of exactly 1023 characters comes back without its newline, followed by an empty line) is not modelled, and neither is what happens to the rest of the input stream after a block.
- The C `remove_buffer` check `MAX_BUFFERS == 1` is always false with eight buffers, so the model has no branch for it.
- Python crashes: an `IndexError` in `undo_last` or `redo` ends the program. The model returns a `crashed` flag together with the state at the point the exception is raised.
- `CEditor.Editor.Append` requires that the block fits in the free rows. The C code does not check this and writes past the array when the block does not fit; see Findings. It also requires every input line to fit a row, which `fgets` into a 1024-byte buffer guarantees.
- `CEditor.Editor.Insert` requires that no more than MAX_LINE_LEN lines are read. The C staging array has that many rows and the reading loop does not stop there; see Findings.
- C memory layout: each buffer is its own array of MAX_LINES rows rather than a slice of one `char[8][10000][1024]` block. A row is a string with its NUL left implicit. Writes outside the arrays are excluded by preconditions rather than modelled.
- `PyEditor.Editor.SetBufferFile` promises `FileSet` only from a valid state. From other states it still states the exact new file list.

## Findings

| source | as written | input that shows it | evidently intended | confidence | as-written member | corrected member |
|---|---|---|---|---|---|---|
| NightNote_25.0708.1.py:275-283 | `replace` rewrites the lines in the buffer itself and then calls `save_state`, so the undo record holds the rewritten text | buffer ["cat"], a rule turning "cat" into "dog", then `u z`: the buffer still reads ["dog"] | record the buffer before rewriting it, so undo restores the text from before the replace | high, not executed | `PyState.ReplaceUndoExample` | `PyState.ReplaceFixedUndoRestores` |
| NightNote_25.0708.1.py:227-242 | `remove_buffer` renumbers the buffers but not the buffer indices stored in the undo and redo records | buffers a, b, c, b current, one undo record of b; `u r 0` then `u z` writes b's old text into c. With only a and b, `u z` raises IndexError | renumber the records with the buffers and drop those of the removed buffer | high, not executed | `PyState.RemoveLeavesStaleRecords` | `PyState.RemovedFixedUndoRestores` |
| NightNote_25.0708.1.py:295-298 | `undo_last` pushes the current buffer onto the redo stack, not the buffer it is about to overwrite | append "a" to buffer 0, `u s 1`, `u z`, `u y`: "a" is gone from every buffer and both stacks | push a record of the buffer being restored, so redo undoes the undo | high, not executed | `PyState.UndoRedoLosesEdit` | `PyState.UndoRedoFixedRoundTrip` |
| NightNote_25.0708.1.c:99-104 | `append` copies lines to `buffers[current][lines++]` with no check against MAX_LINES | on a buffer holding 10000 lines, `a`, "x", ".": row 10000 is written, outside the buffer | stop reading once the buffer is full, as `select_file` does | high, not executed | `CEditor.AppendOverrunExample` | `CEditor.Editor.AppendChecked` |
| NightNote_25.0708.1.c:71-77 | `insert` reads up to `MAX_LINES - lines` lines into a staging array of MAX_LINE_LEN rows | on an empty buffer, `i 0`, 1025 lines of "x", ".": the 1025th goes to `insert_lines[1024]`, past the array | bound the reading loop by the staging array's rows as well | high, not executed | `CEditor.InsertOverrunExample` | `CEditor.Editor.InsertChecked` |
