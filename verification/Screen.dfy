/** The text screen (student-distrib/lib.c): 80x25 cells of video memory, a cursor, wrap, scroll
    and backspace, against an endless blank tape seen through a window that only moves down. */
module Screen {
  import opened Bytes

  const COLS: nat := 80
  const ROWS: nat := 25
  const CELLS: nat := 2000      // COLS * ROWS
  const MAPPED: nat := 0x4000   // cells in the eight video pages the kernel maps
  const ATTRIB: Byte := 7

  // ---- What putc_term does to video memory ----

  /** Video memory as characters and attributes, and the cursor. */
  datatype Text = Text(chars: seq<Byte>, attrs: seq<Byte>, x: nat, y: nat) {
    ghost predicate Sized() {
      |chars| == |attrs| == MAPPED
    }
  }

  /** A write past the mapped video pages is a page fault. */
  datatype Outcome = Shown(text: Text) | Fault

  function Blanks(n: nat): (r: seq<Byte>)
    ensures |r| == n && forall i :: 0 <= i < n ==> r[i] == SPACE
  {
    seq(n, i => SPACE)
  }

  /** scroll_term: rows move up by one, the last row is blanked, attributes stay where they are. */
  function Scrolled(t: Text): Text
    requires t.Sized()
  {
    t.(chars := RowsUp(t.chars))
  }

  function RowsUp(chars: seq<Byte>): (r: seq<Byte>)
    requires |chars| == MAPPED
    ensures |r| == MAPPED
  {
    chars[COLS..CELLS] + Blanks(COLS) + chars[CELLS..]
  }

  /** A character and its attribute at the cursor. */
  function WriteAtCursor(t: Text, c: Byte): (r: Outcome)
    requires t.Sized()
    ensures r.Shown? ==> r.text.Sized() && r.text.x == t.x && r.text.y == t.y
  {
    var i := COLS * t.y + t.x;
    if i < MAPPED then Shown(t.(chars := t.chars[i := c], attrs := t.attrs[i := ATTRIB])) else Fault
  }

  /** backspace_pressed */
  function Backspaced(t: Text): Outcome
    requires t.Sized()
  {
    var back := if t.x != 0 then t.(x := t.x - 1)
                else if t.y != 0 then t.(x := COLS - 1, y := t.y - 1)
                else t;
    WriteAtCursor(back, SPACE)
  }

  function Clipped(t: Text): Text
    requires t.Sized()
  {
    if ROWS <= t.y then Scrolled(t).(y := ROWS - 1) else t
  }

  /** The cursor after a printed character: the next column, or the next row, or a scrolled screen. */
  function Advanced(t: Text): (r: Text)
    requires t.Sized()
    ensures r.Sized()
  {
    var v := if t.x + 1 < COLS then t
             else if t.y == 24 then Scrolled(t)
             else t.(y := t.y + 1);
    v.(x := (t.x + 1) % COLS)
  }

  /** putc_term */
  function Put(t: Text, c: Byte): (r: Outcome)
    requires t.Sized()
    ensures r.Shown? ==> r.text.Sized()
  {
    if c == BACKSPACE then
      var b := Backspaced(t);
      if b.Fault? then Fault else Shown(Clipped(b.text))
    else if c == TAB then Shown(Clipped(t.(x := t.x + 4)))
    else if c == RETURN then Shown(Clipped(t.(x := 0)))
    else if c == NEWLINE then Shown(Clipped(t.(x := 0, y := t.y + 1)))
    else if SPACE <= c then
      var w := WriteAtCursor(t, c);
      if w.Fault? then Fault else
        Shown(Clipped(Advanced(w.text)))
    else Shown(Clipped(t))
  }

  /** A whole output stream, up to the first fault. */
  function PutAll(t: Text, s: seq<Byte>): (r: Outcome)
    requires t.Sized()
    ensures r.Shown? ==> r.text.Sized()
    decreases |s|
  {
    if s == [] then Shown(t) else
      var r := Put(t, s[0]);
      if r.Fault? then Fault else PutAll(r.text, s[1..])
  }

  /** clear_term */
  function Cleared(t: Text): Text
    requires t.Sized()
  {
    Text(Blanks(CELLS) + t.chars[CELLS..], seq(CELLS, i => ATTRIB) + t.attrs[CELLS..], 0, 0)
  }

  // ---- The endless tape ----

  /** Everything ever written, the position of the head, and the first row that is visible. */
  datatype Tape = Tape(cells: map<nat, Byte>, head: nat, top: nat)

  const BLANK_TAPE := Tape(map[], 0, 0)

  function CellAt(p: Tape, i: nat): Byte {
    if i in p.cells then p.cells[i] else SPACE
  }

  /** The window follows the head down, and never moves up. */
  function Followed(p: Tape): Tape {
    if p.top + ROWS <= p.head / COLS then p.(top := p.head / COLS - (ROWS - 1)) else p
  }

  function TapePut(p: Tape, c: Byte): Tape {
    if c == BACKSPACE then
      var h := if COLS * p.top < p.head then p.head - 1 else p.head;
      p.(cells := p.cells[h := SPACE], head := h)
    else if c == TAB then Followed(p.(head := p.head + 4))
    else if c == RETURN then p.(head := p.head / COLS * COLS)
    else if c == NEWLINE then Followed(p.(head := (p.head / COLS + 1) * COLS))
    else if SPACE <= c then Followed(p.(cells := p.cells[p.head := c], head := p.head + 1))
    else p
  }

  function TapePutAll(p: Tape, s: seq<Byte>): Tape
    decreases |s|
  {
    if s == [] then p else TapePutAll(TapePut(p, s[0]), s[1..])
  }

  /** The screen is the window at `top`: the cursor is on it, its cells are the tape's, nothing was
      ever written below it, and every cell has the one attribute. */
  ghost predicate Refines(t: Text, p: Tape) {
    && t.Sized()
    && t.x < COLS && t.y < ROWS
    && p.head == COLS * (p.top + t.y) + t.x
    && (forall i :: 0 <= i < CELLS ==> t.chars[i] == CellAt(p, COLS * p.top + i))
    && (forall i :: 0 <= i < CELLS ==> t.attrs[i] == ATTRIB)
    && (forall k :: k in p.cells ==> k < COLS * (p.top + ROWS))
  }

  lemma ClearedRefines(t: Text)
    requires t.Sized()
    ensures Cleared(t).Sized() && Refines(Cleared(t), BLANK_TAPE)
  {
  }

  lemma RowAndColumn(row: nat, col: nat)
    requires col < COLS
    ensures (COLS * row + col) / COLS == row && (COLS * row + col) % COLS == col
  {
  }

  /** Moving the window down one row is scrolling. */
  lemma ScrollRefines(t: Text, p: Tape)
    requires t.Sized() && p.head == COLS * (p.top + ROWS) && t.y == ROWS - 1 && t.x == 0
    requires forall i :: 0 <= i < CELLS ==> t.chars[i] == CellAt(p, COLS * p.top + i)
    requires forall i :: 0 <= i < CELLS ==> t.attrs[i] == ATTRIB
    requires forall k :: k in p.cells ==> k < COLS * (p.top + ROWS)
    ensures Refines(Scrolled(t), Followed(p)) && Followed(p).top == p.top + 1
  {
    RowAndColumn(p.top + ROWS, 0);
    var q, u := Followed(p), Scrolled(t);
    assert COLS * q.top == COLS * p.top + COLS;
    forall i | 0 <= i < CELLS
      ensures u.chars[i] == CellAt(q, COLS * q.top + i)
    {
      if i < CELLS - COLS {
        assert u.chars[i] == t.chars[i + COLS];
      }
    }
  }

  /** Overwriting the cell under the head. */
  lemma WriteRefines(t: Text, p: Tape, c: Byte)
    requires Refines(t, p)
    ensures WriteAtCursor(t, c).Shown?
    ensures Refines(WriteAtCursor(t, c).text, p.(cells := p.cells[p.head := c]))
  {
  }

  lemma BackspaceRefines(t: Text, p: Tape)
    requires Refines(t, p)
    ensures Put(t, BACKSPACE).Shown? && Refines(Put(t, BACKSPACE).text, TapePut(p, BACKSPACE))
  {
    var back := if t.x != 0 then t.(x := t.x - 1)
                else if t.y != 0 then t.(x := COLS - 1, y := t.y - 1)
                else t;
    var q := p.(head := if COLS * p.top < p.head then p.head - 1 else p.head);
    assert Refines(back, q);
    WriteRefines(back, q, SPACE);
    hide Refines;
  }

  lemma NewlineRefines(t: Text, p: Tape)
    requires Refines(t, p)
    ensures Put(t, NEWLINE).Shown? && Refines(Put(t, NEWLINE).text, TapePut(p, NEWLINE))
  {
    RowAndColumn(p.top + t.y, t.x);
    RowAndColumn(p.top + t.y + 1, 0);
    if t.y + 1 == ROWS {
      var q := p.(head := (p.head / COLS + 1) * COLS);
      ScrollRefines(t.(x := 0), q);
      hide Refines, RowsUp;
      assert Put(t, NEWLINE).text == Scrolled(t.(x := 0));
    }
  }

  lemma AdvanceRefines(t: Text, p: Tape)
    requires Refines(t, p)
    ensures Refines(Clipped(Advanced(t)), Followed(p.(head := p.head + 1)))
  {
    var q := p.(head := p.head + 1);
    if t.x + 1 < COLS {
      RowAndColumn(p.top + t.y, t.x + 1);
    } else {
      RowAndColumn(p.top + t.y + 1, 0);
      if t.y + 1 == ROWS {
        ScrollRefines(t.(x := 0), q);
        assert Advanced(t) == Scrolled(t.(x := 0));
      }
    }
  }

  lemma PrintableRefines(t: Text, p: Tape, c: Byte)
    requires Refines(t, p) && SPACE <= c
    ensures Put(t, c).Shown? && Refines(Put(t, c).text, TapePut(p, c))
  {
    WriteRefines(t, p, c);
    hide Refines, WriteAtCursor, Advanced, Clipped, Followed;
    AdvanceRefines(WriteAtCursor(t, c).text, p.(cells := p.cells[p.head := c]));
  }

  /** One character: the screen shows the tape's window afterwards, if a tab does not leave the row. */
  lemma PutRefines(t: Text, p: Tape, c: Byte)
    requires Refines(t, p) && (c == TAB ==> t.x + 4 < COLS)
    ensures Put(t, c).Shown? && Refines(Put(t, c).text, TapePut(p, c))
  {
    if c == BACKSPACE {
      BackspaceRefines(t, p);
    } else if c == NEWLINE {
      NewlineRefines(t, p);
    } else if SPACE <= c {
      PrintableRefines(t, p, c);
    } else {
      RowAndColumn(p.top + t.y, t.x);
      if c == TAB {
        RowAndColumn(p.top + t.y, t.x + 4);
      }
    }
  }

  // ---- Whole streams: the exact condition for staying on the screen ----

  /** After every prefix of the stream the cursor is on the screen. */
  ghost predicate StaysOnScreen(t: Text, s: seq<Byte>)
    requires t.Sized()
    decreases |s|
  {
    && t.x < COLS && t.y < ROWS
    && (s != [] ==>
          var r := Put(t, s[0]);
          r.Shown? && StaysOnScreen(r.text, s[1..]))
  }

  /** No tab of the stream is sent with fewer than five columns left in the row. */
  ghost predicate TabsFit(p: Tape, s: seq<Byte>)
    decreases |s|
  {
    s != [] ==> (s[0] == TAB ==> p.head % COLS + 4 < COLS) && TabsFit(TapePut(p, s[0]), s[1..])
  }

  /** For every stream: the cursor stays on the screen exactly when every tab fits, and then the
      screen is the tape's window. */
  lemma {:induction false} StreamRefines(t: Text, p: Tape, s: seq<Byte>)
    requires Refines(t, p)
    ensures StaysOnScreen(t, s) <==> TabsFit(p, s)
    ensures TabsFit(p, s) ==> PutAll(t, s).Shown? && Refines(PutAll(t, s).text, TapePutAll(p, s))
    decreases |s|
  {
    if s != [] {
      RowAndColumn(p.top + t.y, t.x);
      if s[0] == TAB && COLS <= t.x + 4 {
        assert Put(t, s[0]).text.x == t.x + 4;
      } else {
        PutRefines(t, p, s[0]);
        StreamRefines(Put(t, s[0]).text, TapePut(p, s[0]), s[1..]);
      }
    }
  }

  /** Whatever is written, every visible cell keeps the one attribute. */
  lemma {:induction false} AttributesKept(t: Text, s: seq<Byte>)
    requires t.Sized() && forall i :: 0 <= i < CELLS ==> t.attrs[i] == ATTRIB
    ensures PutAll(t, s).Shown? ==> forall i :: 0 <= i < CELLS ==> PutAll(t, s).text.attrs[i] == ATTRIB
    decreases |s|
  {
    if s != [] && Put(t, s[0]).Shown? {
      AttributesKept(Put(t, s[0]).text, s[1..]);
    }
  }

  /** What has scrolled off the screen is never written again. */
  lemma {:induction false} HistoryKept(p: Tape, s: seq<Byte>, i: nat)
    requires i < COLS * p.top <= p.head
    ensures CellAt(TapePutAll(p, s), i) == CellAt(p, i)
    decreases |s|
  {
    if s != [] {
      var q := TapePut(p, s[0]);
      assert COLS * q.top <= q.head && p.top <= q.top;
      HistoryKept(q, s[1..], i);
    }
  }

  /** Printable text lies on the tape as it was sent, across row ends and scrolling. */
  lemma {:induction false} TextLiesOnTape(p: Tape, s: seq<Byte>)
    requires forall i :: 0 <= i < |s| ==> SPACE <= s[i]
    ensures TapePutAll(p, s).head == p.head + |s|
    ensures forall i :: 0 <= i < |s| ==> CellAt(TapePutAll(p, s), p.head + i) == s[i]
    ensures forall k: nat :: k < p.head || p.head + |s| <= k ==> CellAt(TapePutAll(p, s), k) == CellAt(p, k)
    decreases |s|
  {
    if s != [] {
      var q := TapePut(p, s[0]);
      TextLiesOnTape(q, s[1..]);
      var r := TapePutAll(q, s[1..]);
      forall i | 0 <= i < |s|
        ensures CellAt(r, p.head + i) == s[i]
      {
        if i != 0 {
          assert s[i] == s[1..][i - 1];
          assert CellAt(r, q.head + (i - 1)) == s[1..][i - 1];
        }
      }
    }
  }

  // ---- The same, on video memory in place ----

  class Display {
    const video: array<Byte>   // character and attribute bytes interleaved
    var screenX: nat
    var screenY: nat

    ghost predicate Valid() {
      video.Length == 2 * MAPPED
    }

    ghost function Chars(): (r: seq<Byte>)
      requires Valid()
      reads video
      ensures |r| == MAPPED
    {
      seq(MAPPED, i requires 0 <= i < MAPPED reads video => video[2 * i])
    }

    ghost function Attrs(): (r: seq<Byte>)
      requires Valid()
      reads video
      ensures |r| == MAPPED
    {
      seq(MAPPED, i requires 0 <= i < MAPPED reads video => video[2 * i + 1])
    }

    ghost function View(): (t: Text)
      requires Valid()
      reads this, video
      ensures t.Sized()
    {
      Text(Chars(), Attrs(), screenX, screenY)
    }

    constructor ()
      ensures Valid() && fresh(video)
    {
      video := new Byte[2 * MAPPED](_ => 0);
      screenX, screenY := 0, 0;
    }

    method Clear()
      requires Valid()
      modifies video
      ensures View() == Cleared(old(View())).(x := screenX, y := screenY)
    {
      for i := 0 to CELLS
        invariant forall k :: 0 <= k < i ==> video[2 * k] == SPACE && video[2 * k + 1] == ATTRIB
        invariant forall k :: i <= k < MAPPED ==>
                    video[2 * k] == old(video[2 * k]) && video[2 * k + 1] == old(video[2 * k + 1])
      {
        video[2 * i] := SPACE;
        video[2 * i + 1] := ATTRIB;
      }
    }

    method ClearTerm()
      requires Valid()
      modifies this, video
      ensures View() == Cleared(old(View()))
    {
      Clear();
      screenX, screenY := 0, 0;
    }

    method ScrollTerm()
      requires Valid()
      modifies video
      ensures View() == Scrolled(old(View()))
    {
      for i := 0 to CELLS - COLS
        invariant forall k :: 0 <= k < i ==> video[2 * k] == old(video[2 * (k + COLS)])
        invariant forall k :: i <= k < MAPPED ==> video[2 * k] == old(video[2 * k])
        invariant forall k :: 0 <= k < MAPPED ==> video[2 * k + 1] == old(video[2 * k + 1])
      {
        video[2 * i] := video[2 * (i + COLS)];
      }
      for i := CELLS - COLS to CELLS
        invariant forall k :: 0 <= k < CELLS - COLS ==> video[2 * k] == old(video[2 * (k + COLS)])
        invariant forall k :: CELLS - COLS <= k < i ==> video[2 * k] == SPACE
        invariant forall k :: i <= k < MAPPED ==> video[2 * k] == old(video[2 * k])
        invariant forall k :: 0 <= k < MAPPED ==> video[2 * k + 1] == old(video[2 * k + 1])
      {
        video[2 * i] := SPACE;
      }
    }

    /** Stores a character and its attribute at the cursor, or faults. */
    method Poke(c: Byte) returns (fault: bool)
      requires Valid()
      modifies video
      ensures fault == WriteAtCursor(old(View()), c).Fault?
      ensures !fault ==> View() == WriteAtCursor(old(View()), c).text
    {
      var i := COLS * screenY + screenX;
      if MAPPED <= i {
        return true;
      }
      video[2 * i] := c;
      video[2 * i + 1] := ATTRIB;
      fault := false;
    }

    method BackspacePressed() returns (fault: bool)
      requires Valid()
      modifies this, video
      ensures fault == Backspaced(old(View())).Fault?
      ensures !fault ==> View() == Backspaced(old(View())).text
    {
      if screenX == 0 {
        if screenY != 0 {
          screenX := COLS - 1;
          screenY := screenY - 1;
        }
      } else {
        screenX := screenX - 1;
      }
      fault := Poke(SPACE);
    }

    method PutcTerm(c: Byte) returns (fault: bool)
      requires Valid()
      modifies this, video
      ensures fault == Put(old(View()), c).Fault?
      ensures !fault ==> View() == Put(old(View()), c).text
    {
      hide Chars, Attrs, RowsUp, WriteAtCursor, Backspaced;
      ghost var t := View();
      fault := false;
      if c == BACKSPACE {
        fault := BackspacePressed();
      } else if c == TAB {
        screenX := screenX + 4;
      } else if c == RETURN {
        screenX := 0;
      } else if c == NEWLINE {
        screenY := screenY + 1;
        screenX := 0;
      } else if SPACE <= c {
        fault := Poke(c);
        if !fault {
          screenX := screenX + 1;
          if COLS <= screenX {
            if screenY == 24 {
              ScrollTerm();
            } else {
              screenY := screenY + 1;
            }
          }
          screenX := screenX % COLS;
        }
      }
      assert !fault ==> Put(t, c) == Shown(Clipped(View()));
      if !fault && ROWS <= screenY {
        ScrollTerm();
        screenY := ROWS - 1;
      }
    }

    /** terminal_write: refuses a count that is not positive, else shows the bytes in order. */
    method TerminalWrite(buf: seq<Byte>, nbytes: int) returns (fault: bool, r: int)
      requires Valid() && nbytes <= |buf|
      modifies this, video
      ensures nbytes <= 0 ==> r == -1 && !fault && View() == old(View())
      ensures 0 < nbytes ==> fault == PutAll(old(View()), buf[..nbytes]).Fault?
      ensures 0 < nbytes && !fault ==> r == nbytes && View() == PutAll(old(View()), buf[..nbytes]).text
    {
      if nbytes <= 0 {
        return false, -1;
      }
      ghost var all := PutAll(View(), buf[..nbytes]);
      fault, r := false, 0;
      for i := 0 to nbytes
        invariant !fault && PutAll(View(), buf[i..nbytes]) == all
      {
        ghost var rest := buf[i..nbytes];
        assert rest[1..] == buf[i + 1..nbytes];
        fault := PutcTerm(buf[i]);
        if fault {
          return true, -1;
        }
      }
      r := nbytes;
    }
  }
}
