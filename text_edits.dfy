/** Edits on one line of text, seen as a plain sequence of characters.
    Both the gap buffer and the document are specified against these:
    a column is a character index in [0, length], and the end-of-line
    column is a valid place to insert. */
module TextEdits {

  /** The line with `c` placed at column `col`; everything from `col` on moves right by one. */
  function InsertAt(s: string, col: nat, c: char): (r: string)
    requires col <= |s|
    ensures |r| == |s| + 1
    ensures r[col] == c
    ensures forall i :: 0 <= i < col ==> r[i] == s[i]
    ensures forall i :: col < i < |r| ==> r[i] == s[i - 1]
  {
    s[..col] + [c] + s[col..]
  }

  /** The line with all of `t` placed at column `col`, in order. */
  function InsertAllAt(s: string, col: nat, t: string): (r: string)
    requires col <= |s|
    ensures |r| == |s| + |t|
    ensures forall i :: 0 <= i < col ==> r[i] == s[i]
    ensures forall i :: 0 <= i < |t| ==> r[col + i] == t[i]
    ensures forall i :: col + |t| <= i < |r| ==> r[i] == s[i - |t|]
  {
    s[..col] + t + s[col..]
  }

  /** The line without the character just before column `col`;
      at column 0 there is none, and the line is unchanged. */
  function DeleteBefore(s: string, col: nat): (r: string)
    requires col <= |s|
    ensures col == 0 ==> r == s
    ensures col > 0 ==> |r| == |s| - 1
    ensures col > 0 ==> forall i :: 0 <= i < col - 1 ==> r[i] == s[i]
    ensures col > 0 ==> forall i :: col - 1 <= i < |r| ==> r[i] == s[i + 1]
  {
    if col == 0 then s else s[..col - 1] + s[col..]
  }

  /** Typing `t` one character at a time: each character goes in at the
      column just after the previous one. */
  function InsertEach(s: string, col: nat, t: string): (r: string)
    requires col <= |s|
    ensures |r| == |s| + |t|
    decreases |t|
  {
    if t == [] then s else InsertEach(InsertAt(s, col, t[0]), col + 1, t[1..])
  }

  /** One more character of `t` typed after a prefix of it is the longer prefix inserted at once. */
  lemma InsertAllAtStep(s: string, col: nat, t: string, i: nat)
    requires col <= |s| && i < |t|
    ensures InsertAt(InsertAllAt(s, col, t[..i]), col + i, t[i]) == InsertAllAt(s, col, t[..i + 1])
  {
  }

  /** Inserting a string equals typing it character by character. */
  lemma {:induction false} InsertEachIsInsertAll(s: string, col: nat, t: string)
    requires col <= |s|
    ensures InsertEach(s, col, t) == InsertAllAt(s, col, t)
    decreases |t|
  {
    if t != [] {
      var s' := InsertAt(s, col, t[0]);
      InsertEachIsInsertAll(s', col + 1, t[1..]);
      InsertFirstThenRest(s, col, t);
    }
  }

  /** Inserting the first character of `t` and then the rest just after it
      inserts all of `t`. */
  lemma InsertFirstThenRest(s: string, col: nat, t: string)
    requires col <= |s| && t != []
    ensures InsertAllAt(InsertAt(s, col, t[0]), col + 1, t[1..]) == InsertAllAt(s, col, t)
  {
  }

  /** Inserting at the end of a line appends. */
  lemma InsertAtEnd(s: string, c: char)
    ensures InsertAt(s, |s|, c) == s + [c]
  {
  }

  /** Deleting just after a freshly inserted character removes it again. */
  lemma DeleteUndoesInsert(s: string, col: nat, c: char)
    requires col <= |s|
    ensures DeleteBefore(InsertAt(s, col, c), col + 1) == s
  {
  }
}
