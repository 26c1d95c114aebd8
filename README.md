# Gap-buffer line store and line-addressed document, in Dafny

This project models the editing core of a small terminal text editor written
in Rust:

- **`GapBuffer`** (`text-editor/src/models/gap_buffer.rs`). It stores one line
  of characters in a vector with one contiguous gap, tracked by a gap start
  and a gap size. The line's text is the part before the gap followed by the
  part after it. Every positioned edit first moves the gap to the column by
  copying characters across it one at a time. When the gap is used up, the
  storage grows by its own size (at least 10) and the part after the gap
  moves to the new end. A line can be split at a column into two buffers, and
  another buffer can be merged onto its end.
- **`Document`** (`text-editor/src/models/document.rs`). It is a non-empty
  list of lines addressed by row and column. It can break a line, insert a
  character, and delete backwards. Deleting at column 0 joins the line onto
  the previous one, and deleting at (0, 0) does nothing. A bad row or column
  gives `RowOutOfBounds` or `ColOutOfBounds` and leaves the document as it was.

Modules:

- `TextEdits` (`text_edits.dfy`): the edits on one line as a plain sequence of
  characters (`InsertAt`, `InsertAllAt`, `DeleteBefore`). Both components are
  specified against these.
- `GapBuffers` (`gap_buffer.dfy`): the class `GapBuffer` over an
  `array<char>` with the fields `data`, `gapStart` and `gapSize`. `Chars()` is
  the abstraction to the line's text. Every method states its effect on that
  text. The copy loops of `move_gap` carry their invariants, and lemmas prove
  that moving and widening the gap keep the text.
- `Documents` (`document.dfy`): each document edit as a function from the old
  lines to the new lines or an error (`NewlineEdit`, `InsertCharEdit`,
  `DeleteEdit`). The class `Document` holds the lines in a `seq<string>`
  field, and its methods apply the edits in place with the original's
  branches. Round-trip lemmas relate the edits to each other.
- `DocumentText` (`document_text.dfy`): the document as the screen shows it,
  with its lines joined by `'\n'`. Lemmas prove that each successful edit,
  except a delete at (0, 0), which changes nothing, inserts or removes exactly
  one character of that text, at the offset of the edited position. Breaking
  a line inserts a newline there, typing inserts the character, and deleting
  removes the character before the position, which is a newline when the
  position starts a line below the first.

Assumptions made by the model:

- Each line is a sequence of characters, and a column is a character index.
- The vector behind a gap buffer is an array whose length is the vector's
  length. The vector's `resize` and `truncate` allocate a new array.
- Where the original panics (a gap moved past the end of the line, or
  `Vec::remove` past the last line), the model has a precondition.

## Model

| member | source | states |
|---|---|---|
| TextEdits.InsertAt | text-editor/src/models/gap_buffer.rs:17-27 | inserting a character at column `col` gives one more character: it sits at `col`, earlier characters stay, and later ones shift right by one |
| TextEdits.InsertAllAt | text-editor/src/models/gap_buffer.rs:73-83 | inserting a string at `col` gives `|t|` more characters: the prefix stays, `t` occupies `[col, col+|t|)`, and the rest shifts right by `|t|` |
| TextEdits.DeleteBefore | text-editor/src/models/gap_buffer.rs:29-36 | at column 0 the line is unchanged; otherwise it loses exactly the character at `col-1`, and the others keep their order |
| TextEdits.InsertEach | text-editor/src/models/gap_buffer.rs:75-82 | typing a string one character at a time, each just after the last, lengthens the line by the string's length |
| TextEdits.InsertEachIsInsertAll | text-editor/src/models/gap_buffer.rs:73-83 | inserting a string equals inserting its characters one by one at advancing columns, for every line, column and string |
| TextEdits.InsertAllAtStep | text-editor/src/models/gap_buffer.rs:75-82 | one more loop iteration of `insert_str` extends the inserted prefix of the string by its next character |
| TextEdits.DeleteUndoesInsert | text-editor/src/models/gap_buffer.rs:17-36 | deleting before column `col+1` right after inserting at `col` gives back the line |
| GapBuffers.LogicalAt | text-editor/src/models/gap_buffer.rs:66-71 | the text of a gap buffer has storage length minus gap size characters, character i being cell i before the gap start and cell i + gap size from there on |
| GapBuffers.GapMovedLeft | text-editor/src/models/gap_buffer.rs:90-95 | copying the characters in `[idx, gapStart)` to the top end of the gap, last first, keeps the text with the gap now starting at `idx` |
| GapBuffers.GapMovedRight | text-editor/src/models/gap_buffer.rs:96-101 | copying the characters just after the gap down to its start, first first, keeps the text with the gap now starting at `idx` |
| GapBuffers.GapWidened | text-editor/src/models/gap_buffer.rs:105-123 | storage enlarged by `growBy`, with the part after the gap moved up by `growBy`, holds the same text with a gap wider by `growBy` |
| GapBuffers.GapWidenedBack | text-editor/src/models/gap_buffer.rs:32-35 | moving the gap start back by one and widening the gap by one deletes the character just before the gap from the text |
| GapBuffers.GapFilled | text-editor/src/models/gap_buffer.rs:24-26 | writing a character into the first gap cell and moving the gap start past it inserts that character into the text at the old gap start |
| GapBuffers.Resize | text-editor/src/models/gap_buffer.rs:110 | the vector's resize: a new array of the new length, with the old elements first and the filler after them |
| GapBuffers.CopyWithin | text-editor/src/models/gap_buffer.rs:114-120 | `copy_within`: the destination range receives the old source range, and every other cell is unchanged |
| GapBuffers.Truncate | text-editor/src/models/gap_buffer.rs:52 | the vector's truncate: a new array holding exactly the first `newLength` old elements |
| GapBuffers.ShiftGapDown | text-editor/src/models/gap_buffer.rs:90-95 | the backward copy loop of `move_gap` leaves the storage holding the same text with its gap starting at `idx` |
| GapBuffers.ShiftGapUp | text-editor/src/models/gap_buffer.rs:96-101 | the forward copy loop of `move_gap` leaves the storage holding the same text with its gap starting at `idx` |
| GapBuffers.GapBuffer.Chars | text-editor/src/models/gap_buffer.rs:66-71 | the characters `chars()` yields: the storage before the gap, then after it; there are storage length minus gap size of them |
| GapBuffers.GapBuffer.Len | text-editor/src/models/gap_buffer.rs:62-64 | `len()` is the number of characters of the line, which is the storage length minus the gap size |
| GapBuffers.GapBuffer.ToString | text-editor/src/models/gap_buffer.rs:126-133 | `to_string()` yields exactly the characters `chars()` iterates over, and `len()` of them |
| GapBuffers.GapBuffer.constructor | text-editor/src/models/gap_buffer.rs:8-15 | a new buffer has capacity 10, all of it gap (`gapStart = 0`, `gapSize = 10`), and the empty text |
| GapBuffers.GapBuffer.MoveGap | text-editor/src/models/gap_buffer.rs:85-103 | for `idx <= len`: the gap starts at `idx`, keeps its size and its array, and the text is unchanged; when `idx` is already the gap start the storage is untouched |
| GapBuffers.GapBuffer.Grow | text-editor/src/models/gap_buffer.rs:105-123 | capacity grows by `max(old capacity, 10)`, the gap size grows by the same amount, and the gap start and the text are unchanged |
| GapBuffers.GapBuffer.FillGap | text-editor/src/models/gap_buffer.rs:24-26 | writing into the first cell of a non-empty gap inserts the character at the gap start and shrinks the gap by one |
| GapBuffers.GapBuffer.InsertChar | text-editor/src/models/gap_buffer.rs:17-27 | for `col <= len`: the text becomes `old[..col] + [c] + old[col..]`, and the gap ends up just after the new character |
| GapBuffers.GapBuffer.Delete | text-editor/src/models/gap_buffer.rs:29-36 | for `col <= len`: the character at `col-1` is removed when `col > 0`; the text is unchanged when `col == 0` |
| GapBuffers.GapBuffer.InsertStr | text-editor/src/models/gap_buffer.rs:73-83 | for `col <= len`: the text becomes `old[..col] + s + old[col..]`, the gap ends up just after the inserted string, and the storage is either the old array or a fresh one |
| GapBuffers.GapBuffer.Merge | text-editor/src/models/gap_buffer.rs:38-44 | the text becomes this buffer's old text followed by the other buffer's text |
| GapBuffers.GapBuffer.Split | text-editor/src/models/gap_buffer.rs:46-60 | for `col <= len`: this buffer keeps `old[..col]`, and a new buffer with its own storage holds `old[col..]` |
| GapBuffers.FromChars | text-editor/src/models/gap_buffer.rs:54-57 | appending the characters of `s` one at a time to a new buffer gives a buffer whose text is `s` |
| GapBuffers.SplitThenMerge | text-editor/src/models/gap_buffer.rs:38-60 | splitting at any column in `[0, len]` and merging the returned part back restores the original text |
| Documents.NewlineEdit | text-editor/src/models/document.rs:22-35 | succeeds iff the row exists and the column is at most the line's length; the error is `RowOutOfBounds` for a bad row, otherwise `ColOutOfBounds`; on success there is one more line, line `row` is the text before the column and line `row+1` the text after it, earlier lines stay, and later lines shift down by one |
| Documents.InsertCharEdit | text-editor/src/models/document.rs:37-49 | the same errors as breaking a line; on success the line count and every other line are unchanged, and line `row` has `c` inserted at `col` |
| Documents.DeleteEdit | text-editor/src/models/document.rs:51-77 | at (0, 0): success and no change; at column 0 of a later row: one line fewer, with line `row-1` followed by line `row` as the new line `row-1`; elsewhere: the row and column errors as above, or line `row` loses the character at `col-1` with the count and the other lines unchanged |
| Documents.EditsKeepDocumentNonEmpty | text-editor/src/models/document.rs:16-77 | no successful edit turns a document with at least one line into one with none |
| Documents.NewlineThenJoin | text-editor/src/models/document.rs:22-64 | breaking a line at any valid position and then deleting at column 0 of the new line gives back the original lines |
| Documents.JoinThenNewline | text-editor/src/models/document.rs:22-64 | joining line `row` onto the line before and then breaking that line at the join point gives back the original lines |
| Documents.InsertThenDelete | text-editor/src/models/document.rs:37-77 | typing a character and then deleting just after it gives back the original lines |
| Documents.Document.constructor | text-editor/src/models/document.rs:16-20 | a new document has exactly one line, and it is empty |
| Documents.Document.Lines | text-editor/src/models/document.rs:79-81 | `lines()` returns the stored lines, and there is always at least one |
| Documents.Document.InsertNewline | text-editor/src/models/document.rs:22-35 | returns Ok and the lines become `NewlineEdit`'s result, or returns its error and leaves the lines unchanged; the document stays non-empty |
| Documents.Document.InsertChar | text-editor/src/models/document.rs:37-49 | returns Ok and the lines become `InsertCharEdit`'s result, or returns its error and leaves the lines unchanged; the document stays non-empty |
| Documents.Document.Delete | text-editor/src/models/document.rs:51-77 | for a join only with `row < |lines|` (where `Vec::remove` would panic): returns Ok and the lines become `DeleteEdit`'s result, or returns its error and leaves the lines unchanged; the document stays non-empty |
| Documents.TypingScenario | text-editor/src/models/document.rs:16-49 | from a new document, typing "ab", breaking the line at its end and typing "c" gives the lines "ab" and "c" |
| DocumentText.JoinDropsLastNewline | text-editor/src/main.rs:32 | `Join`, the model of `lines.join("\n")`, is every line ended by a newline with the final newline dropped |
| DocumentText.OffsetInText | text-editor/src/main.rs:26-32 | every valid (row, column) position has an offset within the text that joins the lines with newlines |
| DocumentText.NewlineInText | text-editor/src/models/document.rs:22-35 | in the newline-joined text, breaking a line inserts one `'\n'` at the offset of the break position and changes nothing else |
| DocumentText.InsertCharInText | text-editor/src/models/document.rs:37-49 | in the newline-joined text, typing `c` inserts `c` at the offset of the typing position and changes nothing else |
| DocumentText.DeleteInText | text-editor/src/models/document.rs:51-77 | in the newline-joined text, a successful delete removes exactly the character before the position's offset; at the start of a line below the first, that character is the newline joining the two lines; the offset is 0, and the text is unchanged, exactly at (0, 0) |

## Left out

- `text-editor/src/main.rs` is not modelled: terminal setup, raw mode, reading
  key events and drawing are I/O over external libraries. The only part used
  is how it shows the document: the lines joined with `"\n"`.
- `text-editor/src/models/editor.rs` is not modelled. It calls
  `Document::insert(row, &str)`, which the document does not have. Its
  Backspace calls `delete(row, col - 1)`, which is off by one under the
  delete-before-column meaning of `Document::delete`. It is driven by key
  events from an external library.
- Rust `String` byte lengths and the panics at non-character boundaries in
  `split_off`, `insert` and `remove` are not modelled. Columns are character
  indices.
- `Document::delete` has a `RowOutOfBounds` return after `Vec::remove` that
  can never be taken: the previous row always exists there. The model has no
  branch for it.
- `GapBuffer::merge` takes the other buffer by value. The model reads the
  other buffer and leaves it in place. A precondition that it shares no
  storage with this buffer stands for the ownership transfer.
- Vector capacity beyond the length is not modelled. `resize` and `truncate`
  allocate a new array, and `String::with_capacity` in `to_string` is not
  modelled.
- The `'\0'` filler in the gap is written as in the original. No contract
  depends on what the gap holds.
- The original has no file open or save, no recovery snapshots, no modal
  editing, no movement keys and no preferred column. None of these is
  modelled, and neither is the cursor column that the editor moves after a
  typed character or a backspace.
