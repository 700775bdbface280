/** How `fish` reads its two frames (fish/fish.c, add_frames): two files are read byte by byte in
    step, line against line, and every cell that is not blank in both becomes a blinking character. */
module Frames {
  import opened Bytes

  const OFFSET: nat := 40
  const COLS: nat := 80
  const FILLER: Byte := 48   // '0'

  /** A character handed to mp1_ioctl: its cell, the location stored for it in an unsigned short, and
      what the two files have there. */
  datatype Placed = Placed(row: nat, col: nat, location: nat, on: Byte, off: Byte)

  /** The character of a cell. */
  function PlaceOf(row: nat, col: nat, on: Byte, off: Byte): Placed {
    Placed(row, col, (COLS * row + col + OFFSET) % 0x1_0000, on, off)
  }

  // ---- The two files as ragged lines ----

  /** A line padded with spaces. */
  function Cell(line: seq<Byte>, col: nat): Byte {
    if col < |line| then line[col] else SPACE
  }

  /** Both lines have ended. */
  predicate Past(a: seq<Byte>, b: seq<Byte>, col: nat) {
    |a| <= col && |b| <= col
  }

  predicate Blank(a: seq<Byte>, b: seq<Byte>, col: nat) {
    Cell(a, col) == SPACE && Cell(b, col) == SPACE
  }

  function RowAdds(row: nat, a: seq<Byte>, b: seq<Byte>, col: nat): seq<Placed>
    decreases |a| + |b| - col
  {
    if Past(a, b, col) then []
    else (if Blank(a, b, col) then [] else [PlaceOf(row, col, Cell(a, col), Cell(b, col))])
         + RowAdds(row, a, b, col + 1)
  }

  function First(lines: seq<seq<Byte>>): seq<Byte> {
    if lines == [] then [] else lines[0]
  }

  function Rest(lines: seq<seq<Byte>>): seq<seq<Byte>> {
    if lines == [] then [] else lines[1..]
  }

  /** The characters of two frames, row by row. */
  function Adds(row: nat, p: seq<seq<Byte>>, q: seq<seq<Byte>>): seq<Placed>
    decreases |p| + |q|
  {
    if p == [] && q == [] then []
    else RowAdds(row, First(p), First(q), 0) + Adds(row + 1, Rest(p), Rest(q))
  }

  // ---- Exactly one character for each cell that is not blank in both, in row-major order ----

  function LineAt(lines: seq<seq<Byte>>, r: nat): seq<Byte> {
    if r < |lines| then lines[r] else []
  }

  predicate Before(a: Placed, b: Placed) {
    a.row < b.row || (a.row == b.row && a.col < b.col)
  }

  ghost predicate Sorted(s: seq<Placed>) {
    forall i, j :: 0 <= i < j < |s| ==> Before(s[i], s[j])
  }

  /** A character for its cell of two lines: the location on the screen, on with the first line's byte and
      off with the second's, which are not both blank. */
  ghost predicate Shows(x: Placed, a: seq<Byte>, b: seq<Byte>) {
    && (Cell(a, x.col) != SPACE || Cell(b, x.col) != SPACE)
    && x.location == (80 * x.row + x.col + 40) % 0x1_0000
    && x.on == Cell(a, x.col) && x.off == Cell(b, x.col)
  }

  lemma {:induction false} RowAddsExact(row: nat, a: seq<Byte>, b: seq<Byte>, col: nat, x: Placed)
    ensures x in RowAdds(row, a, b, col) <==> x.row == row && col <= x.col && Shows(x, a, b)
    decreases |a| + |b| - col
  {
    if !Past(a, b, col) {
      RowAddsExact(row, a, b, col + 1, x);
    }
  }

  lemma {:induction false} AddsShow(row: nat, p: seq<seq<Byte>>, q: seq<seq<Byte>>, x: Placed)
    ensures x in Adds(row, p, q) <==> row <= x.row && Shows(x, LineAt(p, x.row - row), LineAt(q, x.row - row))
    decreases |p| + |q|
  {
    if p != [] || q != [] {
      assert |Rest(p)| + |Rest(q)| < |p| + |q|;
      hide RowAdds, Shows, Adds, First, Rest, LineAt;
      AddsStep(row, p, q);
      RowAddsExact(row, First(p), First(q), 0, x);
      AddsShow(row + 1, Rest(p), Rest(q), x);
      if row <= x.row {
        LineAtStep(p, x.row - row);
        LineAtStep(q, x.row - row);
      }
    } else {
      assert forall i :: LineAt(p, i) == [] && LineAt(q, i) == [];
    }
  }

  lemma LineAtStep(lines: seq<seq<Byte>>, r: nat)
    ensures LineAt(lines, r) == if r == 0 then First(lines) else LineAt(Rest(lines), r - 1)
  {
  }

  /** Membership: a character is added if and only if its cell is not blank in both files. It is on with
      the first file's byte and off with the second's. */
  lemma AddsExact(p: seq<seq<Byte>>, q: seq<seq<Byte>>, x: Placed)
    ensures x in Adds(0, p, q)
       <==> var a, b := LineAt(p, x.row), LineAt(q, x.row);
            && (Cell(a, x.col) != SPACE || Cell(b, x.col) != SPACE)
            && x.location == (80 * x.row + x.col + 40) % 0x1_0000
            && x.on == Cell(a, x.col) && x.off == Cell(b, x.col)
  {
    AddsShow(0, p, q, x);
  }

  lemma {:induction false} RowAddsSorted(row: nat, a: seq<Byte>, b: seq<Byte>, col: nat)
    ensures Sorted(RowAdds(row, a, b, col))
    ensures forall i :: 0 <= i < |RowAdds(row, a, b, col)| ==>
              RowAdds(row, a, b, col)[i].row == row && col <= RowAdds(row, a, b, col)[i].col
    decreases |a| + |b| - col
  {
    if !Past(a, b, col) {
      RowAddsSorted(row, a, b, col + 1);
    }
  }

  lemma SortedConcat(s: seq<Placed>, t: seq<Placed>)
    requires Sorted(s) && Sorted(t)
    requires forall i, j :: 0 <= i < |s| && 0 <= j < |t| ==> Before(s[i], t[j])
    ensures Sorted(s + t)
  {
  }

  /** Order: the cells come strictly row by row and left to right, so each comes once. */
  lemma {:induction false} AddsSorted(row: nat, p: seq<seq<Byte>>, q: seq<seq<Byte>>)
    ensures Sorted(Adds(row, p, q))
    ensures forall i :: 0 <= i < |Adds(row, p, q)| ==> row <= Adds(row, p, q)[i].row
    decreases |p| + |q|
  {
    if p != [] || q != [] {
      hide RowAdds;
      RowAddsSorted(row, First(p), First(q), 0);
      AddsSorted(row + 1, Rest(p), Rest(q));
      SortedConcat(RowAdds(row, First(p), First(q), 0), Adds(row + 1, Rest(p), Rest(q)));
    }
  }

  // ---- The loops ----

  /** One of the two open files with the byte last read from it. */
  class Stream {
    const file: seq<Byte>
    var pos: nat
    var c: Byte
    var eof: bool
    var closed: bool

    constructor (file: seq<Byte>)
      ensures this.file == file && pos == 0 && AtRow()
    {
      this.file, pos, c, eof, closed := file, 0, FILLER, false, false;
    }

    /** Between two rows: at the end of the file the byte is parked on a newline for good, and only
        then is the descriptor closed. */
    ghost predicate AtRow()
      reads this
    {
      && pos <= |file|
      && (eof ==> pos == |file| && c == NEWLINE)
      && (!eof ==> c != NEWLINE)
      && (closed ==> eof)
    }

    /** Inside the row that began at `start`, before column `col` is looked at. */
    ghost predicate InRow(start: nat, col: nat)
      reads this
    {
      && start <= pos <= |file| && (closed ==> eof)
      && LineState(file[start..], IndexOf(file[start..], NEWLINE), pos - start, c, eof, col)
    }

    /** `s` is the file from the row's beginning, `e` the length of its first line, `n` how much of it
        was read. */
    static ghost predicate LineState(s: seq<Byte>, e: nat, n: nat, c: Byte, eof: bool, col: nat) {
      && (c != NEWLINE ==> n == col <= e && !eof)
      && (c == NEWLINE ==> n == (if e < |s| then e + 1 else e) && (e < col || s == []))
      && (c == NEWLINE && e == |s| ==> eof)
      && (eof ==> e == |s| && c == NEWLINE)
    }

    lemma RowBegins()
      requires AtRow()
      ensures InRow(pos, 0)
    {
    }

    /** The line that began at `start`. */
    ghost function Line(start: nat): seq<Byte>
      requires start <= |file|
    {
      file[start..][..IndexOf(file[start..], NEWLINE)]
    }

    /** A read of one byte, made only while the line has not ended, and so never from a closed file. */
    method Fetch(ghost start: nat, ghost col: nat)
      requires InRow(start, col)
      modifies this
      ensures InRow(start, col + 1)
      ensures c == if col < |Line(start)| then Line(start)[col] else NEWLINE
      ensures old(c) != NEWLINE ==> !old(closed)
      ensures Left() <= old(Left()) && (old(c) != NEWLINE ==> Left() < old(Left()))
      ensures old(eof) ==> eof
    {
      hide IndexOf;
      if c != NEWLINE {
        if pos < |file| {
          assert file[start..][col] == file[pos];
          c := file[pos];
          pos := pos + 1;
        } else {
          c := NEWLINE;
          eof := true;
        }
      }
    }

    /** Bytes not yet read, and one more while the end has not been seen. */
    ghost function Left(): nat
      requires pos <= |file|
      reads this
    {
      |file| - pos + if eof then 0 else 1
    }

    /** The end of a row. */
    method EndRow(ghost start: nat, ghost col: nat)
      requires InRow(start, col) && c == NEWLINE
      modifies this
      ensures AtRow() && pos == old(pos) && eof == old(eof)
      ensures start <= |file| && Lines(file[pos..]) == Rest(Lines(file[start..]))
      ensures start <= |file| && Line(start) == First(Lines(file[start..]))
    {
      hide Lines, IndexOf;
      LineEnds(file, start, pos);
      if eof {
        c := NEWLINE;
        closed := true;
      } else {
        c := FILLER;
      }
    }
  }

  /** Behind its first line a file has the rest of its lines. */
  lemma LineEnds(file: seq<Byte>, start: nat, pos: nat)
    requires start <= pos <= |file|
    requires var s := file[start..];
             var e := IndexOf(s, NEWLINE);
             pos == start + if e < |s| then e + 1 else e
    ensures Lines(file[pos..]) == Rest(Lines(file[start..]))
    ensures file[start..][..IndexOf(file[start..], NEWLINE)] == First(Lines(file[start..]))
  {
    var s := file[start..];
    var e := IndexOf(s, NEWLINE);
    var rest := if e < |s| then s[e + 1..] else [];
    assert file[pos..] == rest;
    if s != [] {
      assert Lines(s) == [s[..e]] + Lines(rest);
    }
    hide Lines, IndexOf;
  }

  /** One row: both lines are read to their ends and the cells that are not blank in both are added. */
  method AddRow(s0: Stream, s1: Stream, row: nat) returns (out: seq<Placed>)
    requires s0 != s1 && s0.AtRow() && s1.AtRow() && !(s0.eof && s1.eof)
    modifies s0, s1
    ensures s0.AtRow() && s1.AtRow()
    ensures out == RowAdds(row, First(Lines(old(s0.file[s0.pos..]))), First(Lines(old(s1.file[s1.pos..]))), 0)
    ensures Lines(s0.file[s0.pos..]) == Rest(Lines(old(s0.file[s0.pos..])))
    ensures Lines(s1.file[s1.pos..]) == Rest(Lines(old(s1.file[s1.pos..])))
    ensures s0.Left() + s1.Left() < old(s0.Left() + s1.Left())
  {
    hide Lines, IndexOf, RowAdds;
    ghost var a, b := s0.pos, s1.pos;
    ghost var p, q := s0.Line(a), s1.Line(b);
    out := [];
    var col := 0;
    s0.RowBegins();
    s1.RowBegins();
    while true
      invariant 0 <= col && s0.InRow(a, col) && s1.InRow(b, col)
      invariant out + RowAdds(row, p, q, col) == RowAdds(row, p, q, 0)
      invariant s0.Left() + s1.Left() <= old(s0.Left() + s1.Left())
      invariant col != 0 ==> s0.Left() + s1.Left() < old(s0.Left() + s1.Left())
      invariant !(s0.c == NEWLINE && s1.c == NEWLINE)
      decreases s0.Left() + s1.Left()
    {
      s0.Fetch(a, col);
      s1.Fetch(b, col);
      RowAddsStep(row, p, q, col);
      if s0.c == NEWLINE && s1.c == NEWLINE {
        break;
      }
      if (s0.c != SPACE && s0.c != NEWLINE) || (s1.c != SPACE && s1.c != NEWLINE) {
        var on := if s0.c == NEWLINE then SPACE else s0.c;
        var off := if s1.c == NEWLINE then SPACE else s1.c;
        var location := (row * 80 + col + 40) % 0x1_0000;
        out := out + [Placed(row, col, location, on, off)];
      }
      col := col + 1;
    }
    s0.EndRow(a, col + 1);
    s1.EndRow(b, col + 1);
  }

  lemma RowAddsStep(row: nat, a: seq<Byte>, b: seq<Byte>, col: nat)
    ensures RowAdds(row, a, b, col)
         == if Past(a, b, col) then []
            else if Blank(a, b, col) then RowAdds(row, a, b, col + 1)
            else [PlaceOf(row, col, Cell(a, col), Cell(b, col))] + RowAdds(row, a, b, col + 1)
  {
  }

  /** add_frames on two files that could be opened: exactly the characters of the two frames. */
  method AddFrames(s0: Stream, s1: Stream) returns (out: seq<Placed>)
    requires s0 != s1 && s0.AtRow() && s1.AtRow() && s0.pos == 0 == s1.pos && !s0.eof && !s1.eof
    modifies s0, s1
    ensures out == Adds(0, Lines(s0.file), Lines(s1.file))
  {
    hide Lines, RowAdds, Adds;
    ghost var all := Adds(0, Lines(s0.file), Lines(s1.file));
    out := [];
    var row := 0;
    assert s0.file[0..] == s0.file && s1.file[0..] == s1.file;
    while !s0.eof || !s1.eof
      invariant 0 <= row && s0.AtRow() && s1.AtRow()
      invariant out + Adds(row, Lines(s0.file[s0.pos..]), Lines(s1.file[s1.pos..])) == all
      decreases s0.Left() + s1.Left()
    {
      ghost var p, q := Lines(s0.file[s0.pos..]), Lines(s1.file[s1.pos..]);
      AddsStep(row, p, q);
      var more := AddRow(s0, s1, row);
      out := out + more;
      row := row + 1;
    }
    assert s0.file[s0.pos..] == [] && s1.file[s1.pos..] == [];
    NoLines();
    AddsStep(row, [], []);
    assert out + [] == out;
  }

  lemma AddsStep(row: nat, p: seq<seq<Byte>>, q: seq<seq<Byte>>)
    ensures p == [] && q == [] ==> Adds(row, p, q) == []
    ensures Adds(row, p, q) == RowAdds(row, First(p), First(q), 0) + Adds(row + 1, Rest(p), Rest(q))
  {
  }

  lemma NoLines()
    ensures Lines([]) == []
  {
  }
}
