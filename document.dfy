/** A text document: a non-empty ordered list of lines addressed by row and
    column. Every line is a sequence of characters and a column is a
    character index into it. Each edit is given twice: as a function from
    the old lines to the new ones (or an error), and as a method of
    `Document` that applies it in place. */
module Documents {
  import opened TextEdits

  datatype DocumentError = RowOutOfBounds | ColOutOfBounds

  datatype Result<T> = Ok(value: T) | Err(error: DocumentError)

  /** Breaking line `row` at column `col`: the part after the column becomes
      a new line right below. */
  function NewlineEdit(lines: seq<string>, row: nat, col: nat): (r: Result<seq<string>>)
    ensures r.Ok? <==> row < |lines| && col <= |lines[row]|
    ensures r.Err? ==> (r.error == RowOutOfBounds <==> row >= |lines|)
    ensures r.Ok? ==> |r.value| == |lines| + 1
    ensures r.Ok? ==> r.value[..row] == lines[..row] && r.value[row + 2..] == lines[row + 1..]
    ensures r.Ok? ==> r.value[row] == lines[row][..col] && r.value[row + 1] == lines[row][col..]
    ensures r.Ok? ==> r.value[row] + r.value[row + 1] == lines[row]
  {
    if row >= |lines| then Err(RowOutOfBounds)
    else if col > |lines[row]| then Err(ColOutOfBounds)
    else Ok(lines[..row] + [lines[row][..col], lines[row][col..]] + lines[row + 1..])
  }

  /** Typing `c` at column `col` of line `row`. */
  function InsertCharEdit(lines: seq<string>, row: nat, col: nat, c: char): (r: Result<seq<string>>)
    ensures r.Ok? <==> row < |lines| && col <= |lines[row]|
    ensures r.Err? ==> (r.error == RowOutOfBounds <==> row >= |lines|)
    ensures r.Ok? ==> |r.value| == |lines|
    ensures r.Ok? ==> r.value[row] == InsertAt(lines[row], col, c)
    ensures r.Ok? ==> forall i :: 0 <= i < |lines| && i != row ==> r.value[i] == lines[i]
  {
    if row >= |lines| then Err(RowOutOfBounds)
    else if col > |lines[row]| then Err(ColOutOfBounds)
    else Ok(lines[row := InsertAt(lines[row], col, c)])
  }

  /** Deleting backwards from (row, col). Inside a line the character before
      the column goes; at column 0 the line is joined onto the previous one;
      at the very start of the document nothing happens. Joining a row past
      the last line is outside the domain: the original panics there. */
  function DeleteEdit(lines: seq<string>, row: nat, col: nat): (r: Result<seq<string>>)
    requires col == 0 && row > 0 ==> row < |lines|
    ensures col == 0 && row == 0 ==> r == Ok(lines)
    ensures col == 0 && row > 0 ==> r.Ok? && |r.value| == |lines| - 1
    ensures col == 0 && row > 0 ==> r.value[row - 1] == lines[row - 1] + lines[row]
    ensures col == 0 && row > 0 ==> r.value[..row - 1] == lines[..row - 1] && r.value[row..] == lines[row + 1..]
    ensures col > 0 ==> (r.Ok? <==> row < |lines| && col <= |lines[row]|)
    ensures col > 0 && r.Err? ==> (r.error == RowOutOfBounds <==> row >= |lines|)
    ensures col > 0 && r.Ok? ==> |r.value| == |lines| && r.value[row] == DeleteBefore(lines[row], col)
    ensures col > 0 && r.Ok? ==> forall i :: 0 <= i < |lines| && i != row ==> r.value[i] == lines[i]
  {
    if col == 0 then
      if row == 0 then Ok(lines)
      else Ok(lines[..row - 1] + [lines[row - 1] + lines[row]] + lines[row + 1..])
    else if row >= |lines| then Err(RowOutOfBounds)
    else if col > |lines[row]| then Err(ColOutOfBounds)
    else Ok(lines[row := DeleteBefore(lines[row], col)])
  }

  /** No edit empties a non-empty document: the join removes a line only
      when there is an earlier line to join it onto. */
  lemma EditsKeepDocumentNonEmpty(lines: seq<string>, row: nat, col: nat, c: char)
    requires |lines| >= 1
    requires col == 0 && row > 0 ==> row < |lines|
    ensures NewlineEdit(lines, row, col).Ok? ==> |NewlineEdit(lines, row, col).value| >= 1
    ensures InsertCharEdit(lines, row, col, c).Ok? ==> |InsertCharEdit(lines, row, col, c).value| >= 1
    ensures DeleteEdit(lines, row, col).Ok? ==> |DeleteEdit(lines, row, col).value| >= 1
  {
  }

  /** Breaking a line and then deleting backwards from the start of the new
      line joins the two halves again. */
  lemma NewlineThenJoin(lines: seq<string>, row: nat, col: nat)
    requires NewlineEdit(lines, row, col).Ok?
    ensures DeleteEdit(NewlineEdit(lines, row, col).value, row + 1, 0) == Ok(lines)
  {
    var split := NewlineEdit(lines, row, col).value;
    var joined := DeleteEdit(split, row + 1, 0).value;
    assert |joined| == |lines|;
    forall i | 0 <= i < |lines| ensures joined[i] == lines[i] {
      if i < row {
        assert joined[i] == joined[..row][i] == split[..row][i];
      } else if i > row {
        assert joined[i] == joined[row + 1..][i - row - 1] == split[row + 2..][i - row - 1];
      }
    }
    assert joined == lines;
  }

  /** Joining line `row` onto the line before it and then breaking that line
      where the join happened gives back the two lines. */
  lemma JoinThenNewline(lines: seq<string>, row: nat)
    requires 0 < row < |lines|
    ensures NewlineEdit(DeleteEdit(lines, row, 0).value, row - 1, |lines[row - 1]|) == Ok(lines)
  {
    var joined := DeleteEdit(lines, row, 0).value;
    var split := NewlineEdit(joined, row - 1, |lines[row - 1]|).value;
    assert split[row - 1] == lines[row - 1];
    assert split[row] == lines[row];
    assert |split| == |lines|;
    forall i | 0 <= i < |lines| ensures split[i] == lines[i] {
      if i < row - 1 {
        assert split[i] == split[..row - 1][i] == joined[..row - 1][i];
      } else if i > row {
        assert split[i] == split[row + 1..][i - row - 1] == joined[row..][i - row - 1];
      }
    }
    assert split == lines;
  }

  /** Typing a character and then deleting backwards from just after it
      restores the document. */
  lemma InsertThenDelete(lines: seq<string>, row: nat, col: nat, c: char)
    requires InsertCharEdit(lines, row, col, c).Ok?
    ensures DeleteEdit(InsertCharEdit(lines, row, col, c).value, row, col + 1) == Ok(lines)
  {
    var typed := InsertCharEdit(lines, row, col, c).value;
    DeleteUndoesInsert(lines[row], col, c);
    assert DeleteEdit(typed, row, col + 1).value == lines;
  }

  /** The edit's status and the lines afterwards are what `e` prescribes:
      its lines and Ok on success, the unchanged lines and its error otherwise. */
  predicate Applied(e: Result<seq<string>>, r: Result<()>, before: seq<string>, after: seq<string>)
  {
    match e
    case Ok(ls) => r == Ok(()) && after == ls
    case Err(err) => r == Err(err) && after == before
  }

  class Document {
    var lines: seq<string>

    /** A document always has at least one line. */
    ghost predicate Valid()
      reads this
    {
      |lines| >= 1
    }

    /** A new document: exactly one line, and it is empty. */
    constructor ()
      ensures Valid() && lines == [[]]
    {
      lines := [[]];
    }

    /** The lines, first to last; there is always at least one. */
    function Lines(): (ls: seq<string>)
      reads this
      requires Valid()
      ensures |ls| >= 1 && ls == lines
    {
      lines
    }

    /** Breaks line `row` at column `col`. */
    method InsertNewline(row: nat, col: nat) returns (r: Result<()>)
      requires Valid()
      modifies this
      ensures Valid()
      ensures Applied(NewlineEdit(old(lines), row, col), r, old(lines), lines)
    {
      if row >= |lines| {
        return Err(RowOutOfBounds);
      }
      var line := lines[row];
      if col > |line| {
        return Err(ColOutOfBounds);
      }
      var tail := line[col..];
      lines := lines[row := line[..col]];
      lines := lines[..row + 1] + [tail] + lines[row + 1..];
      return Ok(());
    }

    /** Inserts `c` at column `col` of line `row`. */
    method InsertChar(row: nat, col: nat, c: char) returns (r: Result<()>)
      requires Valid()
      modifies this
      ensures Valid()
      ensures Applied(InsertCharEdit(old(lines), row, col, c), r, old(lines), lines)
    {
      if row >= |lines| {
        return Err(RowOutOfBounds);
      }
      var line := lines[row];
      if col > |line| {
        return Err(ColOutOfBounds);
      }
      lines := lines[row := line[..col] + [c] + line[col..]];
      return Ok(());
    }

    /** Deletes backwards from (row, col); see `DeleteEdit`. */
    method Delete(row: nat, col: nat) returns (r: Result<()>)
      requires Valid()
      requires col == 0 && row > 0 ==> row < |lines|
      modifies this
      ensures Valid()
      ensures Applied(DeleteEdit(old(lines), row, col), r, old(lines), lines)
    {
      if col == 0 {
        if row == 0 {
          return Ok(());
        }
        var current := lines[row];
        lines := lines[..row] + lines[row + 1..];
        // row - 1 < |lines| here, so the lookup of the previous line cannot fail
        lines := lines[row - 1 := lines[row - 1] + current];
      } else {
        if row >= |lines| {
          return Err(RowOutOfBounds);
        }
        var line := lines[row];
        if col > |line| {
          return Err(ColOutOfBounds);
        }
        lines := lines[row := line[..col - 1] + line[col..]];
      }
      return Ok(());
    }
  }

  /** Starting from a new document, typing "ab", breaking the line at the
      end and typing "c" leaves the lines "ab" and "c". */
  method TypingScenario() returns (text: seq<string>)
    ensures text == ["ab", "c"]
  {
    var doc := new Document();
    var r := doc.InsertChar(0, 0, 'a');
    assert InsertAt("", 0, 'a') == "a";
    assert doc.lines == ["a"];
    r := doc.InsertChar(0, 1, 'b');
    assert InsertAt("a", 1, 'b') == "ab";
    assert doc.lines == ["ab"];
    r := doc.InsertNewline(0, 2);
    assert "ab"[..2] == "ab" && "ab"[2..] == "";
    assert doc.lines == ["ab", ""];
    r := doc.InsertChar(1, 0, 'c');
    assert InsertAt("", 0, 'c') == "c";
    text := doc.Lines();
  }
}
