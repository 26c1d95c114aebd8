/** One line of text stored as a gap buffer: an array of characters with a
    single contiguous unused region (the gap) at the current edit position.
    The vector of the original is an array whose length is the vector's
    length; a resize or truncate of the vector allocates a new array. */
module GapBuffers {
  import opened TextEdits

  /** Capacity of a new buffer, and the least amount by which `Grow` enlarges it. */
  const InitialCapacity: nat := 10

  /** The text held by storage `d` whose gap is the index range
      [gapStart, gapStart + gapSize). */
  function Logical(d: seq<char>, gapStart: nat, gapSize: nat): string
    requires gapStart + gapSize <= |d|
  {
    d[..gapStart] + d[gapStart + gapSize..]
  }

  /** Where each character of the text is stored: before the gap start at
      its own index, from there on `gapSize` cells further up. */
  lemma LogicalAt(d: seq<char>, gapStart: nat, gapSize: nat)
    requires gapStart + gapSize <= |d|
    ensures |Logical(d, gapStart, gapSize)| == |d| - gapSize
    ensures forall i :: 0 <= i < |d| - gapSize ==>
      Logical(d, gapStart, gapSize)[i] == if i < gapStart then d[i] else d[i + gapSize]
  {
  }

  /** Copying the `gapStart - idx` characters just before the gap to its far
      end, last one first, moves the gap down to `idx` and keeps the text. */
  lemma GapMovedLeft(before: seq<char>, after: seq<char>, gapStart: nat, gapSize: nat, idx: nat)
    requires idx < gapStart && gapStart + gapSize <= |before| == |after|
    requires forall k :: 0 <= k < idx ==> after[k] == before[k]
    requires forall k :: idx + gapSize <= k < gapStart + gapSize ==> after[k] == before[k - gapSize]
    requires forall k :: gapStart + gapSize <= k < |after| ==> after[k] == before[k]
    ensures Logical(after, idx, gapSize) == Logical(before, gapStart, gapSize)
  {
  }

  /** Copying the `idx - gapStart` characters just after the gap to its near
      end, first one first, moves the gap up to `idx` and keeps the text. */
  lemma GapMovedRight(before: seq<char>, after: seq<char>, gapStart: nat, gapSize: nat, idx: nat)
    requires gapStart < idx && idx + gapSize <= |before| == |after|
    requires forall k :: 0 <= k < gapStart ==> after[k] == before[k]
    requires forall k :: gapStart <= k < idx ==> after[k] == before[k + gapSize]
    requires forall k :: idx + gapSize <= k < |after| ==> after[k] == before[k]
    ensures Logical(after, idx, gapSize) == Logical(before, gapStart, gapSize)
  {
  }

  /** Storage enlarged by `growBy` cells, with the characters after the gap
      moved up by the same amount, holds the same text with a wider gap. */
  lemma GapWidened(before: seq<char>, after: seq<char>, gapStart: nat, gapSize: nat, growBy: nat)
    requires gapStart + gapSize <= |before| && |after| == |before| + growBy
    requires forall k :: 0 <= k < gapStart ==> after[k] == before[k]
    requires forall k :: gapStart + gapSize + growBy <= k < |after| ==> after[k] == before[k - growBy]
    ensures Logical(after, gapStart, gapSize + growBy) == Logical(before, gapStart, gapSize)
  {
  }

  /** Taking the last character before the gap into the gap deletes it from the text. */
  lemma GapWidenedBack(d: seq<char>, gapStart: nat, gapSize: nat)
    requires 0 < gapStart && gapStart + gapSize <= |d|
    ensures Logical(d, gapStart - 1, gapSize + 1) == DeleteBefore(Logical(d, gapStart, gapSize), gapStart)
  {
  }

  /** Writing a character into the first cell of the gap and moving the gap
      start past it inserts the character into the text at the old gap start. */
  lemma GapFilled(d: seq<char>, gapStart: nat, gapSize: nat, c: char)
    requires 0 < gapSize && gapStart + gapSize <= |d|
    ensures Logical(d[gapStart := c], gapStart + 1, gapSize - 1) == InsertAt(Logical(d, gapStart, gapSize), gapStart, c)
  {
  }

  /** The vector's resize to a larger length: a new array holding the old
      elements followed by `fill`. */
  method Resize(d: array<char>, newLength: nat, fill: char) returns (r: array<char>)
    requires d.Length <= newLength
    ensures fresh(r) && r.Length == newLength
    ensures forall i :: 0 <= i < d.Length ==> r[i] == d[i]
    ensures forall i :: d.Length <= i < newLength ==> r[i] == fill
  {
    r := new char[newLength];
    forall i | 0 <= i < newLength {
      r[i] := if i < d.Length then d[i] else fill;
    }
  }

  /** The slice's copy_within: the elements in [src, end) are copied to the
      cells from `dest` on, each read before any is written. */
  method CopyWithin(d: array<char>, src: nat, end: nat, dest: nat)
    requires src <= end <= d.Length && dest + (end - src) <= d.Length
    modifies d
    ensures forall k :: 0 <= k < d.Length && !(dest <= k < dest + (end - src)) ==> d[k] == old(d[k])
    ensures forall k :: dest <= k < dest + (end - src) ==> d[k] == old(d[k - dest + src])
  {
    forall k | 0 <= k < end - src {
      d[dest + k] := d[src + k];
    }
  }

  /** The vector's truncate: a new array holding the first `newLength` elements. */
  method Truncate(d: array<char>, newLength: nat) returns (r: array<char>)
    requires newLength <= d.Length
    ensures fresh(r) && r[..] == d[..newLength]
  {
    r := new char[newLength];
    forall i | 0 <= i < newLength {
      r[i] := d[i];
    }
  }

  /** The copy loop of `MoveGap` for a target before the gap: the
      characters in [idx, gapStart) are copied, last one first, to the
      cells just below the end of the gap. */
  method ShiftGapDown(d: array<char>, gapStart: nat, gapSize: nat, idx: nat)
    requires idx < gapStart && gapStart + gapSize <= d.Length
    modifies d
    ensures Logical(d[..], idx, gapSize) == Logical(old(d[..]), gapStart, gapSize)
  {
    ghost var before := d[..];
    var distance := gapStart - idx;
    for i := 0 to distance
      invariant forall k :: 0 <= k < gapStart - i ==> d[k] == before[k]
      invariant forall k :: gapStart + gapSize - i <= k < gapStart + gapSize ==> d[k] == before[k - gapSize]
      invariant forall k :: gapStart + gapSize <= k < d.Length ==> d[k] == before[k]
    {
      d[gapStart + gapSize - 1 - i] := d[gapStart - 1 - i];
    }
    GapMovedLeft(before, d[..], gapStart, gapSize, idx);
  }

  /** The copy loop of `MoveGap` for a target after the gap: the
      characters in [gapStart + gapSize, idx + gapSize) are copied, first
      one first, to the cells from the start of the gap on. */
  method ShiftGapUp(d: array<char>, gapStart: nat, gapSize: nat, idx: nat)
    requires gapStart < idx && idx + gapSize <= d.Length
    modifies d
    ensures Logical(d[..], idx, gapSize) == Logical(old(d[..]), gapStart, gapSize)
  {
    ghost var before := d[..];
    var distance := idx - gapStart;
    for i := 0 to distance
      invariant forall k :: 0 <= k < gapStart ==> d[k] == before[k]
      invariant forall k :: gapStart <= k < gapStart + i ==> d[k] == before[k + gapSize]
      invariant forall k :: gapStart + gapSize + i <= k < d.Length ==> d[k] == before[k]
    {
      d[gapStart + i] := d[gapStart + gapSize + i];
    }
    GapMovedRight(before, d[..], gapStart, gapSize, idx);
  }

  class GapBuffer {
    var data: array<char>
    var gapStart: nat
    var gapSize: nat

    /** The gap lies inside the storage. */
    ghost predicate Valid()
      reads this
    {
      gapStart + gapSize <= data.Length
    }

    /** The characters of the line, in order: what `chars` iterates over.
        Logical index i is stored at physical index i before the gap and at
        i + gapSize after it (see `LogicalAt`). */
    function Chars(): (s: string)
      reads this, data
      requires Valid()
      ensures |s| == data.Length - gapSize
    {
      Logical(data[..], gapStart, gapSize)
    }

    /** The number of characters in the line. */
    function Len(): (n: nat)
      reads this, data
      requires Valid()
      ensures n == |Chars()|
    {
      data.Length - gapSize
    }

    /** The line as text; it agrees with `Chars` and has `Len` characters. */
    function ToString(): (s: string)
      reads this, data
      requires Valid()
      ensures |s| == Len()
      ensures s == Chars()
    {
      var prefix := data[..gapStart];
      prefix + data[gapStart + gapSize..]
    }

    /** An empty line whose whole storage is gap. */
    constructor ()
      ensures Valid() && fresh(data)
      ensures data.Length == InitialCapacity && gapStart == 0 && gapSize == InitialCapacity
      ensures Chars() == []
    {
      data := new char[InitialCapacity](_ => '\0');
      gapStart, gapSize := 0, InitialCapacity;
    }

    /** Moves the gap so that it starts at `idx`, copying the characters in
        between one at a time across the gap. */
    method MoveGap(idx: nat)
      requires Valid() && idx <= Len()
      modifies this, data
      ensures Valid() && data == old(data)
      ensures gapStart == idx && gapSize == old(gapSize)
      ensures Chars() == old(Chars())
      ensures idx == old(gapStart) ==> data[..] == old(data[..])
    {
      if idx == gapStart {
        return;
      }
      if idx < gapStart {
        ShiftGapDown(data, gapStart, gapSize, idx);
      } else {
        ShiftGapUp(data, gapStart, gapSize, idx);
      }
      gapStart := idx;
    }

    /** Enlarges the storage by its own size (at least `InitialCapacity`)
        and moves the characters after the gap to the new end, so the gap
        grows by the same amount. */
    method Grow()
      requires Valid()
      modifies this
      ensures Valid() && fresh(data)
      ensures data.Length == old(data.Length) + (if old(data.Length) < InitialCapacity then InitialCapacity else old(data.Length))
      ensures gapStart == old(gapStart)
      ensures gapSize == old(gapSize) + (data.Length - old(data.Length))
      ensures Chars() == old(Chars())
    {
      ghost var before := data[..];
      var oldCap := data.Length;
      var growBy := if oldCap < InitialCapacity then InitialCapacity else oldCap;
      var newCap := oldCap + growBy;

      var resized := Resize(data, newCap, '\0');
      var suffixLen := oldCap - (gapStart + gapSize);
      if suffixLen > 0 {
        var oldSuffixStart := gapStart + gapSize;
        var newSuffixStart := oldSuffixStart + growBy;
        CopyWithin(resized, oldSuffixStart, oldCap, newSuffixStart);
      }
      GapWidened(before, resized[..], gapStart, gapSize, growBy);
      data := resized;
      gapSize := gapSize + growBy;
      assert Chars() == Logical(resized[..], gapStart, gapSize);
    }

    /** Writes `c` into the first cell of the gap and shrinks the gap by one. */
    method FillGap(c: char)
      requires Valid() && gapSize > 0
      modifies this, data
      ensures Valid() && data == old(data)
      ensures gapStart == old(gapStart) + 1 && gapSize == old(gapSize) - 1
      ensures Chars() == InsertAt(old(Chars()), old(gapStart), c)
    {
      GapFilled(data[..], gapStart, gapSize, c);
      data[gapStart] := c;
      gapStart, gapSize := gapStart + 1, gapSize - 1;
    }

    /** Inserts `c` at column `col`. */
    method InsertChar(col: nat, c: char)
      requires Valid() && col <= Len()
      modifies this, data
      ensures Valid() && (data == old(data) || fresh(data))
      ensures gapStart == col + 1
      ensures Chars() == InsertAt(old(Chars()), col, c)
    {
      MoveGap(col);
      if gapSize == 0 {
        Grow();
      }
      FillGap(c);
    }

    /** Removes the character before column `col`; nothing at column 0. */
    method Delete(col: nat)
      requires Valid() && col <= Len()
      modifies this, data
      ensures Valid() && data == old(data)
      ensures Chars() == DeleteBefore(old(Chars()), col)
    {
      MoveGap(col);
      ghost var text := Chars();
      if gapStart > 0 {
        GapWidenedBack(data[..], gapStart, gapSize);
        gapStart, gapSize := gapStart - 1, gapSize + 1;
        assert Chars() == DeleteBefore(text, col);
      }
    }

    /** Inserts the characters of `s` at column `col`, one at a time. */
    method InsertStr(col: nat, s: string)
      requires Valid() && col <= Len()
      modifies this, data
      ensures Valid() && (data == old(data) || fresh(data))
      ensures gapStart == col + |s|
      ensures Chars() == InsertAllAt(old(Chars()), col, s)
    {
      MoveGap(col);
      ghost var text := Chars();
      for i := 0 to |s|
        invariant Valid() && (data == old(data) || fresh(data))
        invariant gapStart == col + i
        invariant Chars() == InsertAllAt(text, col, s[..i])
      {
        if gapSize == 0 {
          Grow();
        }
        FillGap(s[i]);
        InsertAllAtStep(text, col, s, i);
      }
      assert s[..|s|] == s;
    }

    /** Appends all characters of `other` to the end of this line. The
        other buffer is handed over, so it shares no storage with this one. */
    method Merge(other: GapBuffer)
      requires Valid() && other.Valid()
      requires other != this && other.data != data
      modifies this, data
      ensures Valid() && (data == old(data) || fresh(data))
      ensures Chars() == old(Chars()) + old(other.Chars())
    {
      MoveGap(Len());
      ghost var head := Chars();
      var tail := other.Chars();
      for i := 0 to |tail|
        invariant Valid() && (data == old(data) || fresh(data))
        invariant Chars() == head + tail[..i]
      {
        ghost var line := Chars();
        InsertChar(Len(), tail[i]);
        InsertAtEnd(line, tail[i]);
        assert tail[..i + 1] == tail[..i] + [tail[i]];
      }
      assert tail[..|tail|] == tail;
    }

    /** Cuts the line at column `col`: this buffer keeps the characters
        before `col`, and a new buffer receives the rest. */
    method Split(col: nat) returns (rest: GapBuffer)
      requires Valid() && col <= Len()
      modifies this, data
      ensures Valid() && (data == old(data) || fresh(data))
      ensures rest.Valid() && fresh(rest) && fresh(rest.data) && rest.data != data
      ensures Chars() == old(Chars())[..col]
      ensures rest.Chars() == old(Chars())[col..]
    {
      MoveGap(col);
      var suffixStart := gapStart + gapSize;
      var suffix := data[suffixStart..];
      assert old(Chars()) == data[..col] + suffix;
      var kept := Truncate(data, suffixStart);
      assert Logical(kept[..], gapStart, gapSize) == data[..col];
      data := kept;
      rest := FromChars(suffix);
    }
  }

  /** A new buffer holding `s`, built by appending its characters one at a
      time to an empty buffer, as `split` builds the cut-off part. */
  method FromChars(s: string) returns (b: GapBuffer)
    ensures fresh(b) && fresh(b.data) && b.Valid()
    ensures b.Chars() == s
  {
    b := new GapBuffer();
    for i := 0 to |s|
      invariant fresh(b) && fresh(b.data) && b.Valid()
      invariant b.Chars() == s[..i]
    {
      ghost var line := b.Chars();
      b.InsertChar(b.Len(), s[i]);
      InsertAtEnd(line, s[i]);
      assert s[..i + 1] == s[..i] + [s[i]];
    }
    assert s[..|s|] == s;
  }

  /** Splitting a line and merging the cut-off part back restores it, for
      every column from 0 to the length. */
  method SplitThenMerge(line: GapBuffer, col: nat)
    requires line.Valid() && col <= line.Len()
    modifies line, line.data
    ensures line.Valid()
    ensures line.Chars() == old(line.Chars())
  {
    var rest := line.Split(col);
    line.Merge(rest);
  }
}
