/** The document as the screen shows it: its lines joined into one text with
    a newline character between consecutive lines. Seen this way, every
    successful document edit except a delete at (0, 0), which changes
    nothing, is a single character inserted into or removed from that text,
    at the offset of the edited (row, column) position. */
module DocumentText {
  import opened TextEdits
  import opened Documents

  /** The lines joined with '\n' between consecutive lines (no newline after the last). */
  function Join(lines: seq<string>): string
  {
    if |lines| == 0 then []
    else if |lines| == 1 then lines[0]
    else lines[0] + ['\n'] + Join(lines[1..])
  }

  /** Every line followed by a newline: the text before the next line. */
  function Lead(lines: seq<string>): string
  {
    if lines == [] then [] else lines[0] + ['\n'] + Lead(lines[1..])
  }

  /** Every line preceded by a newline: the text after the previous line. */
  function Trail(lines: seq<string>): string
  {
    if lines == [] then [] else ['\n'] + lines[0] + Trail(lines[1..])
  }

  /** The joined text is every line ended by a newline, except that the
      last newline is dropped. */
  lemma {:induction false} JoinDropsLastNewline(lines: seq<string>)
    requires |lines| >= 1
    ensures Join(lines) + ['\n'] == Lead(lines)
    decreases |lines|
  {
    if |lines| > 1 {
      JoinDropsLastNewline(lines[1..]);
    }
  }

  /** The position in the joined text of column `col` of line `row`. */
  function Offset(lines: seq<string>, row: nat, col: nat): nat
    requires row <= |lines|
  {
    |Lead(lines[..row])| + col
  }

  /** The joined text is the first line followed by the others, each after a newline. */
  lemma {:induction false} JoinFromFirst(lines: seq<string>)
    requires |lines| >= 1
    ensures Join(lines) == lines[0] + Trail(lines[1..])
    decreases |lines|
  {
    if |lines| > 1 {
      JoinFromFirst(lines[1..]);
      assert lines[1..][1..] == lines[2..];
      assert Trail(lines[1..]) == ['\n'] + lines[1] + Trail(lines[2..]);
    }
  }

  /** One more line before a position adds that line and its newline. */
  lemma {:induction false} LeadSnoc(lines: seq<string>, x: string)
    ensures Lead(lines + [x]) == Lead(lines) + x + ['\n']
    decreases |lines|
  {
    if lines == [] {
      assert [x][1..] == [];
    } else {
      LeadSnoc(lines[1..], x);
      assert (lines + [x])[1..] == lines[1..] + [x];
      assert Lead(lines + [x]) == lines[0] + ['\n'] + Lead(lines[1..] + [x]);
    }
  }

  /** The joined text around line `row`: the lines before it each with their
      newline, the line itself, then the later lines each after a newline. */
  lemma {:induction false} JoinAround(a: seq<string>, x: string, b: seq<string>)
    ensures Join(a + [x] + b) == Lead(a) + x + Trail(b)
    decreases |a|
  {
    if a == [] {
      assert a + [x] + b == [x] + b;
      JoinFromFirst([x] + b);
      assert ([x] + b)[1..] == b;
    } else {
      JoinAround(a[1..], x, b);
      assert (a + [x] + b)[1..] == a[1..] + [x] + b;
    }
  }

  /** A list of lines is the lines before `row`, line `row`, and the lines after it. */
  lemma Around(lines: seq<string>, row: nat)
    requires row < |lines|
    ensures lines == lines[..row] + [lines[row]] + lines[row + 1..]
  {
  }

  /** `JoinAround` for line `row` of a given list. */
  lemma JoinAt(lines: seq<string>, row: nat)
    requires row < |lines|
    ensures Join(lines) == Lead(lines[..row]) + lines[row] + Trail(lines[row + 1..])
  {
    Around(lines, row);
    JoinAround(lines[..row], lines[row], lines[row + 1..]);
  }

  /** Every position of the document lies inside the joined text. */
  lemma OffsetInText(lines: seq<string>, row: nat, col: nat)
    requires row < |lines| && col <= |lines[row]|
    ensures Offset(lines, row, col) <= |Join(lines)|
  {
    JoinAt(lines, row);
  }

  /** Inserting into the middle part of a text inserts into that part. */
  lemma InsertInside(p: string, s: string, q: string, col: nat, c: char)
    requires col <= |s|
    ensures InsertAt(p + s + q, |p| + col, c) == p + InsertAt(s, col, c) + q
  {
  }

  /** Deleting inside the middle part of a text deletes inside that part. */
  lemma DeleteInside(p: string, s: string, q: string, col: nat)
    requires 0 < col <= |s|
    ensures DeleteBefore(p + s + q, |p| + col) == p + DeleteBefore(s, col) + q
  {
  }

  /** The first of the later lines comes right after a newline. */
  lemma TrailCons(y: string, b: seq<string>)
    ensures Trail([y] + b) == ['\n'] + y + Trail(b)
  {
  }

  /** The lines after each successful edit, as before-part, edited part, after-part. */
  lemma NewlineShape(lines: seq<string>, row: nat, col: nat)
    requires NewlineEdit(lines, row, col).Ok?
    ensures NewlineEdit(lines, row, col).value
         == lines[..row] + [lines[row][..col]] + ([lines[row][col..]] + lines[row + 1..])
  {
  }

  lemma InsertCharShape(lines: seq<string>, row: nat, col: nat, c: char)
    requires InsertCharEdit(lines, row, col, c).Ok?
    ensures InsertCharEdit(lines, row, col, c).value
         == lines[..row] + [InsertAt(lines[row], col, c)] + lines[row + 1..]
  {
  }

  lemma DeleteShape(lines: seq<string>, row: nat, col: nat)
    requires col == 0 && row > 0 ==> row < |lines|
    requires DeleteEdit(lines, row, col).Ok? && (row > 0 || col > 0)
    ensures col == 0 ==> lines[..row] == lines[..row - 1] + [lines[row - 1]]
    ensures col == 0 ==> lines[row..] == [lines[row]] + lines[row + 1..]
    ensures col == 0 ==>
      DeleteEdit(lines, row, col).value == lines[..row - 1] + [lines[row - 1] + lines[row]] + lines[row + 1..]
    ensures col > 0 ==>
      DeleteEdit(lines, row, col).value == lines[..row] + [DeleteBefore(lines[row], col)] + lines[row + 1..]
  {
  }

  /** Breaking a line puts a newline into the joined text at the break position. */
  lemma NewlineInText(lines: seq<string>, row: nat, col: nat)
    requires NewlineEdit(lines, row, col).Ok?
    ensures Offset(lines, row, col) <= |Join(lines)|
    ensures Join(NewlineEdit(lines, row, col).value) == InsertAt(Join(lines), Offset(lines, row, col), '\n')
  {
    var a, x, b := lines[..row], lines[row], lines[row + 1..];
    NewlineShape(lines, row, col);
    JoinAround(a, x[..col], [x[col..]] + b);
    TrailCons(x[col..], b);
    JoinAt(lines, row);
    OffsetInText(lines, row, col);
    InsertInside(Lead(a), x, Trail(b), col, '\n');
  }

  /** Typing a character puts it into the joined text at the typing position. */
  lemma InsertCharInText(lines: seq<string>, row: nat, col: nat, c: char)
    requires InsertCharEdit(lines, row, col, c).Ok?
    ensures Offset(lines, row, col) <= |Join(lines)|
    ensures Join(InsertCharEdit(lines, row, col, c).value) == InsertAt(Join(lines), Offset(lines, row, col), c)
  {
    var a, x, b := lines[..row], lines[row], lines[row + 1..];
    InsertCharShape(lines, row, col, c);
    JoinAround(a, InsertAt(x, col, c), b);
    JoinAt(lines, row);
    OffsetInText(lines, row, col);
    InsertInside(Lead(a), x, Trail(b), col, c);
  }

  /** Deleting backwards removes the character just before the deletion
      position from the joined text: a character of the line, or the newline
      that ended the previous line when the position is a line start. At the
      start of the document there is no such character and the text stays. */
  lemma DeleteInText(lines: seq<string>, row: nat, col: nat)
    requires col == 0 && row > 0 ==> row < |lines|
    requires DeleteEdit(lines, row, col).Ok?
    ensures row <= |lines| && Offset(lines, row, col) <= |Join(lines)|
    ensures row == 0 && col == 0 <==> Offset(lines, row, col) == 0
    ensures col == 0 && row > 0 ==> 0 < Offset(lines, row, col) && Join(lines)[Offset(lines, row, col) - 1] == '\n'
    ensures Join(DeleteEdit(lines, row, col).value) == DeleteBefore(Join(lines), Offset(lines, row, col))
  {
    if col == 0 && row == 0 {
    } else if col == 0 {
      var a, x, y, b := lines[..row - 1], lines[row - 1], lines[row], lines[row + 1..];
      DeleteShape(lines, row, col);
      JoinAround(a, x + y, b);
      LeadSnoc(a, x);
      JoinAt(lines, row - 1);
      TrailCons(y, b);
      JoinLineEnd(Lead(a), x, y, Trail(b));
      assert lines[..row] == a + [x];
    } else {
      var a, x, b := lines[..row], lines[row], lines[row + 1..];
      DeleteShape(lines, row, col);
      JoinAround(a, DeleteBefore(x, col), b);
      JoinAt(lines, row);
      OffsetInText(lines, row, col);
      DeleteInside(Lead(a), x, Trail(b), col);
    }
  }

  /** Removing the newline between `x` and `y` joins them. */
  lemma JoinLineEnd(p: string, x: string, y: string, q: string)
    ensures DeleteBefore(p + x + (['\n'] + y + q), |p| + |x| + 1) == p + (x + y) + q
  {
    var text := p + x + (['\n'] + y + q);
    assert text[..|p| + |x|] == p + x;
    assert text[|p| + |x| + 1..] == y + q;
  }
}
