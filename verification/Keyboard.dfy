/** The line editor: keyboard interrupts edit a 128-byte buffer in place and echo on the screen
    (student-distrib/keyboard.c), and a reader takes the finished line (student-distrib/terminal.c). */
module Keyboard {
  import opened Bytes
  import opened Screen

  const SIZE: nat := 128   // KEYBOARD_BUFFER_SIZE

  // ---- Scancodes ----

  /** The bits of `key_status`. */
  datatype Status = Status(shift: bool, caps: bool, ctrl: bool, alt: bool, num: bool, scroll: bool)

  /** The tables hold text, the editing characters and Escape, and nothing else. */
  type KeyByte = b: Byte | b in {NUL, BACKSPACE, TAB, NEWLINE, ESCAPE} || SPACE <= b witness NUL

  type Lower = b: KeyByte | 97 <= b <= 122 witness 97

  // The letter rows: scancodes 0x10 to 0x19, 0x1E to 0x26 and 0x2C to 0x32.
  const ROW_Q: seq<Lower> := [113, 119, 101, 114, 116, 121, 117, 105, 111, 112]
  const ROW_A: seq<Lower> := [97, 115, 100, 102, 103, 104, 106, 107, 108]
  const ROW_Z: seq<Lower> := [122, 120, 99, 118, 98, 110, 109]

  function Small(row: seq<Lower>): (r: seq<KeyByte>)
    ensures |r| == |row| && forall i :: 0 <= i < |r| ==> r[i] == row[i]
  {
    row
  }

  function Capitals(row: seq<Lower>): (r: seq<KeyByte>)
    ensures |r| == |row| && forall i :: 0 <= i < |r| ==> r[i] == Capital(row[i])
  {
    seq(|row|, i requires 0 <= i < |row| => Capital(row[i]))
  }

  function Capital(b: int): int {
    b - 32
  }

  const KEYPAD: seq<KeyByte> := [
    0, 42, 0, 32, 0, 0, 0, 0, 0, 0, 0, 0, 0, 0, 0, 0, 0, 0, 0, 0, 45, 0, 0, 0, 43]

  const KEYMAP: seq<KeyByte> :=
    [0, 27, 49, 50, 51, 52, 53, 54, 55, 56, 57, 48, 45, 61, 8, 9] + Small(ROW_Q)
    + [91, 93, 10, 0] + Small(ROW_A)
    + [59, 39, 96, 0, 92] + Small(ROW_Z)
    + [44, 46, 47] + KEYPAD + Nothing(49)

  const KEYMAP_UPPER: seq<KeyByte> :=
    [0, 27, 33, 64, 35, 36, 37, 94, 38, 42, 40, 41, 95, 43, 8, 9] + Capitals(ROW_Q)
    + [123, 125, 10, 0] + Capitals(ROW_A)
    + [58, 34, 126, 0, 124] + Capitals(ROW_Z)
    + [60, 62, 63] + KEYPAD + Nothing(49)

  function Nothing(n: nat): (r: seq<KeyByte>)
    ensures |r| == n && forall i :: 0 <= i < n ==> r[i] == 0
  {
    seq(n, i => 0)
  }

  predicate IsLetter(sc: Byte) {
    0x10 <= sc <= 0x19 || 0x1E <= sc <= 0x26 || 0x2C <= sc <= 0x32
  }

  /** handle_standard_key */
  function CharOf(st: Status, sc: Byte): KeyByte
    requires sc < 128
  {
    if st.caps then
      if IsLetter(sc) then (if st.shift then KEYMAP[sc] else KEYMAP_UPPER[sc])
      else (if st.shift then KEYMAP_UPPER[sc] else KEYMAP[sc])
    else (if st.shift then KEYMAP_UPPER[sc] else KEYMAP[sc])
  }

  predicate IsModifier(sc: Byte) {
    sc in {0x2A, 0x36, 0x3A, 0x1D, 0x38, 0x45, 0x46}
  }

  function StatusAfter(st: Status, sc: Byte): Status {
    if sc == 0xAA || sc == 0xB6 then st.(shift := false)
    else if sc == 0x9D then st.(ctrl := false)
    else if sc == 0xB8 then st.(alt := false)
    else if sc == 0x2A || sc == 0x36 then st.(shift := true)
    else if sc == 0x3A then st.(caps := !st.caps)
    else if sc == 0x1D then st.(ctrl := true)
    else if sc == 0x38 then st.(alt := true)
    else if sc == 0x45 then st.(num := !st.num)
    else if sc == 0x46 then st.(scroll := !st.scroll)
    else st
  }

  predicate IsCtrlL(st: Status, sc: Byte) {
    st.ctrl && sc == 0x26
  }

  /** What a scancode types: nothing for a release, a modifier, Ctrl+L or an unmapped key. */
  function Types(st: Status, sc: Byte): KeyByte {
    if 128 <= sc || IsModifier(sc) || IsCtrlL(st, sc) then NUL else CharOf(st, sc)
  }

  /** A letter key types a capital exactly when one of Shift and Caps Lock is in effect; on the other
      keys Caps Lock makes no difference. */
  lemma LetterCase(st: Status, sc: Byte)
    requires sc < 128
    ensures IsLetter(sc) ==> if st.caps != st.shift then 65 <= CharOf(st, sc) <= 90 else 97 <= CharOf(st, sc) <= 122
    ensures !IsLetter(sc) ==> CharOf(st, sc) == CharOf(st.(caps := !st.caps), sc)
  {
    if IsLetter(sc) {
      LetterRows(sc);
    }
  }

  lemma LetterRows(sc: Byte)
    requires IsLetter(sc)
    ensures 97 <= KEYMAP[sc] <= 122 && KEYMAP_UPPER[sc] == KEYMAP[sc] - 32
  {
    if sc <= 0x19 {
      RowQ(sc - 0x10);
    } else if sc <= 0x26 {
      RowA(sc - 0x1E);
    } else {
      RowZ(sc - 0x2C);
    }
  }

  lemma RowQ(i: nat)
    requires i < |ROW_Q|
    ensures KEYMAP[0x10 + i] == ROW_Q[i] && KEYMAP_UPPER[0x10 + i] == KEYMAP[0x10 + i] - 32
  {
    assert KEYMAP_UPPER[0x10 + i] == Capitals(ROW_Q)[i];
  }

  lemma RowA(i: nat)
    requires i < |ROW_A|
    ensures KEYMAP[0x1E + i] == ROW_A[i] && KEYMAP_UPPER[0x1E + i] == KEYMAP[0x1E + i] - 32
  {
    assert KEYMAP_UPPER[0x1E + i] == Capitals(ROW_A)[i];
  }

  lemma RowZ(i: nat)
    requires i < |ROW_Z|
    ensures KEYMAP[0x2C + i] == ROW_Z[i] && KEYMAP_UPPER[0x2C + i] == KEYMAP[0x2C + i] - 32
  {
    assert KEYMAP_UPPER[0x2C + i] == Capitals(ROW_Z)[i];
  }

  // ---- The keys as they are labelled ----

  const DIGIT_KEYS: seq<Byte> := Ascii("1234567890-=")
  const DIGIT_KEYS_SHIFTED: seq<Byte> := Ascii("!@#$%^&*()_+")
  const Q_KEYS: seq<Byte> := Ascii("qwertyuiop[]")
  const Q_KEYS_SHIFTED: seq<Byte> := Ascii("QWERTYUIOP{}")
  const A_KEYS: seq<Byte> := Ascii("asdfghjkl;'`")
  const A_KEYS_SHIFTED: seq<Byte> := Ascii("ASDFGHJKL:\"~")
  const Z_KEYS: seq<Byte> := Ascii("\\zxcvbnm,./")
  const Z_KEYS_SHIFTED: seq<Byte> := Ascii("|ZXCVBNM<>?")

  const UNHELD := Status(false, false, false, false, false, false)
  const SHIFT_HELD := UNHELD.(shift := true)

  /** The keys from scancode `first` on type this text. */
  ghost predicate KeysType(st: Status, first: nat, text: seq<Byte>)
    requires first + |text| <= 128
  {
    forall i :: 0 <= i < |text| ==> CharOf(st, first + i) == text[i]
  }

  lemma DigitKeys()
    ensures KeysType(UNHELD, 0x02, DIGIT_KEYS)
  {
  }

  lemma DigitKeysShifted()
    ensures KeysType(SHIFT_HELD, 0x02, DIGIT_KEYS_SHIFTED)
  {
  }

  lemma QKeys()
    ensures KeysType(UNHELD, 0x10, Q_KEYS)
  {
  }

  lemma QKeysShifted()
    ensures KeysType(SHIFT_HELD, 0x10, Q_KEYS_SHIFTED)
  {
  }

  lemma AKeys()
    ensures KeysType(UNHELD, 0x1E, A_KEYS)
  {
  }

  lemma AKeysShifted()
    ensures KeysType(SHIFT_HELD, 0x1E, A_KEYS_SHIFTED)
  {
  }

  lemma ZKeys()
    ensures KeysType(UNHELD, 0x2B, Z_KEYS)
  {
  }

  lemma ZKeysShifted()
    ensures KeysType(SHIFT_HELD, 0x2B, Z_KEYS_SHIFTED)
  {
  }

  /** What the four rows of keys type, without and with Shift. */
  lemma KeyRows()
    ensures KeysType(UNHELD, 0x02, DIGIT_KEYS) && KeysType(UNHELD, 0x10, Q_KEYS)
    ensures KeysType(UNHELD, 0x1E, A_KEYS) && KeysType(UNHELD, 0x2B, Z_KEYS)
    ensures KeysType(SHIFT_HELD, 0x02, DIGIT_KEYS_SHIFTED) && KeysType(SHIFT_HELD, 0x10, Q_KEYS_SHIFTED)
    ensures KeysType(SHIFT_HELD, 0x1E, A_KEYS_SHIFTED) && KeysType(SHIFT_HELD, 0x2B, Z_KEYS_SHIFTED)
  {
    hide KeysType;
    DigitKeys();
    DigitKeysShifted();
    QKeys();
    QKeysShifted();
    AKeys();
    AKeysShifted();
    ZKeys();
    ZKeysShifted();
  }

  /** The editing keys, whatever is held. */
  lemma EditingKeys(st: Status)
    ensures CharOf(st, 0x01) == ESCAPE && CharOf(st, 0x0E) == BACKSPACE && CharOf(st, 0x0F) == TAB
    ensures CharOf(st, 0x1C) == NEWLINE && CharOf(st, 0x39) == SPACE
  {
  }

  /** The screen is cleared by Ctrl and the key that types an l, and by no other. */
  lemma ClearKeyIff(st: Status, sc: Byte)
    ensures IsCtrlL(st, sc) <==> st.ctrl && 0 <= sc - 0x1E < |A_KEYS| && A_KEYS[sc - 0x1E] == 108
  {
  }

  // ---- The buffer, edited in place ----

  datatype Line = Line(buf: seq<Byte>, index: nat, status: Status, enter: bool) {
    ghost predicate Sized() {
      |buf| == SIZE && index < SIZE
    }
  }

  /** What one keyboard interrupt does to the buffer, its index and the flags. */
  function KeyStep(l: Line, sc: Byte): (r: Line)
    requires l.Sized()
    ensures r.Sized()
  {
    var c := Types(l.status, sc);
    var l := l.(status := StatusAfter(l.status, sc));
    if c == BACKSPACE then (if l.index != 0 then l.(index := l.index - 1) else l)
    else if c == NUL then l
    else
      var stored := if l.index < SIZE - 1 then l.(buf := l.buf[l.index := c], index := l.index + 1) else l;
      if c != NEWLINE then stored
      else
        var edge := if stored.index == SIZE - 1 then stored.(buf := stored.buf[stored.index := c]) else stored;
        edge.(index := 0, enter := true)
  }

  function KeySteps(l: Line, keys: seq<Byte>): (r: Line)
    requires l.Sized()
    ensures r.Sized()
    decreases |keys|
  {
    if keys == [] then l else KeySteps(KeyStep(l, keys[0]), keys[1..])
  }

  // ---- The line that was meant: push and pop with a cap ----

  function Typed(line: seq<Byte>, c: Byte): (r: seq<Byte>)
    ensures |line| < SIZE ==> |r| < SIZE
  {
    if c == BACKSPACE then (if line == [] then [] else line[..|line| - 1])
    else if c == NUL || |line| == SIZE - 1 then line
    else line + [c]
  }

  /** The text on the line after a run of keys, given the modifiers held at its start. */
  function LineTyped(st: Status, line: seq<Byte>, keys: seq<Byte>): (r: seq<Byte>)
    ensures |line| < SIZE ==> |r| < SIZE
    decreases |keys|
  {
    if keys == [] then line
    else LineTyped(StatusAfter(st, keys[0]), Typed(line, Types(st, keys[0])), keys[1..])
  }

  /** No key of the run is Enter. */
  ghost predicate NoEnter(st: Status, keys: seq<Byte>)
    decreases |keys|
  {
    keys != [] ==> Types(st, keys[0]) != NEWLINE && NoEnter(StatusAfter(st, keys[0]), keys[1..])
  }

  function StatusAfterAll(st: Status, keys: seq<Byte>): Status
    decreases |keys|
  {
    if keys == [] then st else StatusAfterAll(StatusAfter(st, keys[0]), keys[1..])
  }

  /** Whether a modifier is held after a run, by the last press or release of its left or right key; a
      release is the press with the high bit set. */
  function HeldAfter(held: bool, left: nat, right: nat, keys: seq<Byte>): bool
    decreases |keys|
  {
    if keys == [] then held else
      var last := keys[|keys| - 1];
      if last == left || last == right then true
      else if last == left + 0x80 || last == right + 0x80 then false
      else HeldAfter(held, left, right, keys[..|keys| - 1])
  }

  lemma {:induction false} StatusLast(st: Status, keys: seq<Byte>, sc: Byte)
    ensures StatusAfterAll(st, keys + [sc]) == StatusAfter(StatusAfterAll(st, keys), sc)
    decreases |keys|
  {
    hide StatusAfter;
    if keys != [] {
      assert (keys + [sc])[1..] == keys[1..] + [sc];
      StatusLast(StatusAfter(st, keys[0]), keys[1..], sc);
    } else {
      assert [sc][1..] == [];
    }
  }

  /** Whether a lock key was pressed an odd number of times. */
  function OddPresses(sc: Byte, keys: seq<Byte>): bool
    decreases |keys|
  {
    keys != [] && (keys[|keys| - 1] == sc) != OddPresses(sc, keys[..|keys| - 1])
  }

  /** The modifiers are what the run of keys made of them. */
  ghost predicate Follows(st: Status, keys: seq<Byte>, r: Status) {
    && r.shift == HeldAfter(st.shift, 0x2A, 0x36, keys)
    && r.ctrl == HeldAfter(st.ctrl, 0x1D, 0x1D, keys)
    && r.alt == HeldAfter(st.alt, 0x38, 0x38, keys)
    && r.caps == (st.caps != OddPresses(0x3A, keys))
    && r.num == (st.num != OddPresses(0x45, keys))
    && r.scroll == (st.scroll != OddPresses(0x46, keys))
  }

  /** For every run of keys: Shift, Ctrl and Alt are held exactly when the last press or release of one
      was a press, and Caps Lock, Num Lock and Scroll Lock have changed exactly when their presses
      are odd in number. */
  lemma {:induction false} ModifiersHold(st: Status, keys: seq<Byte>)
    ensures Follows(st, keys, StatusAfterAll(st, keys))
    decreases |keys|
  {
    if keys != [] {
      var front, last := keys[..|keys| - 1], keys[|keys| - 1];
      assert keys == front + [last];
      hide StatusAfter, StatusAfterAll, Follows;
      StatusLast(st, front, last);
      ModifiersHold(st, front);
      FollowsStep(st, keys, StatusAfterAll(st, front));
    }
  }

  lemma {:induction false} FollowsStep(st: Status, keys: seq<Byte>, r: Status)
    requires keys != [] && Follows(st, keys[..|keys| - 1], r)
    ensures Follows(st, keys, StatusAfter(r, keys[|keys| - 1]))
  {
    hide HeldAfter, OddPresses, StatusAfter;
    var last := keys[|keys| - 1];
    ShiftAfter(r, last);
    CtrlAfter(r, last);
    AltAfter(r, last);
    CapsAfter(r, last);
    NumAfter(r, last);
    ScrollAfter(r, last);
    HeldStep(st.shift, 0x2A, 0x36, keys);
    HeldStep(st.ctrl, 0x1D, 0x1D, keys);
    HeldStep(st.alt, 0x38, 0x38, keys);
    OddStep(0x3A, keys);
    OddStep(0x45, keys);
    OddStep(0x46, keys);
  }

  lemma ShiftAfter(r: Status, sc: Byte)
    ensures StatusAfter(r, sc).shift == if sc == 0x2A || sc == 0x36 then true
                                        else if sc == 0xAA || sc == 0xB6 then false else r.shift
  {
  }

  lemma CtrlAfter(r: Status, sc: Byte)
    ensures StatusAfter(r, sc).ctrl == if sc == 0x1D then true else if sc == 0x9D then false else r.ctrl
  {
  }

  lemma AltAfter(r: Status, sc: Byte)
    ensures StatusAfter(r, sc).alt == if sc == 0x38 then true else if sc == 0xB8 then false else r.alt
  {
  }

  lemma CapsAfter(r: Status, sc: Byte)
    ensures StatusAfter(r, sc).caps == ((sc == 0x3A) != r.caps)
  {
  }

  lemma NumAfter(r: Status, sc: Byte)
    ensures StatusAfter(r, sc).num == ((sc == 0x45) != r.num)
  {
  }

  lemma ScrollAfter(r: Status, sc: Byte)
    ensures StatusAfter(r, sc).scroll == ((sc == 0x46) != r.scroll)
  {
  }

  lemma {:induction false} HeldStep(held: bool, left: nat, right: nat, keys: seq<Byte>)
    requires keys != []
    ensures var last := keys[|keys| - 1];
            HeldAfter(held, left, right, keys) ==
            if last == left || last == right then true
            else if last == left + 0x80 || last == right + 0x80 then false
            else HeldAfter(held, left, right, keys[..|keys| - 1])
  {
  }

  lemma {:induction false} OddStep(sc: Byte, keys: seq<Byte>)
    requires keys != []
    ensures OddPresses(sc, keys) == ((keys[|keys| - 1] == sc) != OddPresses(sc, keys[..|keys| - 1]))
  {
  }

  /** While a line is being typed the buffer starts with it; what lies behind is stale but holds no
      newline. */
  ghost predicate Editing(l: Line, line: seq<Byte>) {
    l.Sized() && l.index == |line| && l.buf[..l.index] == line && NEWLINE !in l.buf && NUL !in line && !l.enter
  }

  lemma {:induction false} EditingKept(l: Line, line: seq<Byte>, keys: seq<Byte>)
    requires Editing(l, line) && NoEnter(l.status, keys)
    ensures Editing(KeySteps(l, keys), LineTyped(l.status, line, keys))
    ensures KeySteps(l, keys).status == StatusAfterAll(l.status, keys)
    decreases |keys|
  {
    if keys != [] {
      var m := KeyStep(l, keys[0]);
      var c := Types(l.status, keys[0]);
      assert m.buf[..m.index] == Typed(line, c);
      assert NEWLINE !in m.buf;
      EditingKept(m, Typed(line, c), keys[1..]);
    }
  }

  /** terminal_read, once Enter was pressed: up to and including the first newline, and the buffer
      and the flag are cleared. */
  function ReadLine(l: Line): (seq<Byte>, Line)
    requires l.Sized() && NEWLINE in l.buf
  {
    (l.buf[..IndexOf(l.buf, NEWLINE) + 1], l.(buf := Nothing(SIZE), enter := false))
  }

  /** Ready for a new line: nothing typed, and no newline anywhere in the buffer. */
  ghost predicate Ready(l: Line) {
    Editing(l, [])
  }

  /** For every run of keys up to its only Enter, the reader gets exactly the line that was typed, at
      most 127 characters, and a newline; and the editor is ready for the next line. */
  lemma LineDelivered(l: Line, keys: seq<Byte>, enter: Byte)
    requires Ready(l) && NoEnter(l.status, keys)
    requires Types(StatusAfterAll(l.status, keys), enter) == NEWLINE
    ensures var m := KeyStep(KeySteps(l, keys), enter);
            && m.enter && NEWLINE in m.buf && NUL !in m.buf[..IndexOf(m.buf, NEWLINE)]
            && ReadLine(m).0 == LineTyped(l.status, [], keys) + [NEWLINE]
            && |ReadLine(m).0| <= SIZE
            && Ready(ReadLine(m).1)
            && ReadLine(m).1.status == StatusAfter(StatusAfterAll(l.status, keys), enter)
  {
    EditingKept(l, [], keys);
    var e := KeySteps(l, keys);
    var m := KeyStep(e, enter);
    assert m.buf[e.index] == NEWLINE;
    assert m.buf[..e.index] == e.buf[..e.index];
    IndexOfIs(m.buf, NEWLINE, e.index);
  }

  /** One line of a session: the keys before Enter, and the key that is Enter. */
  datatype Entry = Entry(keys: seq<Byte>, enter: Byte)

  ghost predicate IsSession(st: Status, entries: seq<Entry>)
    decreases |entries|
  {
    entries != [] ==>
      var held := StatusAfterAll(st, entries[0].keys);
      && NoEnter(st, entries[0].keys)
      && Types(held, entries[0].enter) == NEWLINE
      && IsSession(StatusAfter(held, entries[0].enter), entries[1..])
  }

  /** What a reader that takes every line gets. */
  ghost function Delivered(l: Line, entries: seq<Entry>): seq<seq<Byte>>
    requires l.Sized()
    decreases |entries|
  {
    if entries == [] then [] else
      var m := KeyStep(KeySteps(l, entries[0].keys), entries[0].enter);
      if NEWLINE !in m.buf then []
      else [ReadLine(m).0] + Delivered(ReadLine(m).1, entries[1..])
  }

  /** What was typed, line by line. */
  ghost function Meant(st: Status, entries: seq<Entry>): seq<seq<Byte>>
    decreases |entries|
  {
    if entries == [] then [] else
      [LineTyped(st, [], entries[0].keys) + [NEWLINE]]
      + Meant(StatusAfter(StatusAfterAll(st, entries[0].keys), entries[0].enter), entries[1..])
  }

  lemma {:induction false} SessionDelivered(l: Line, entries: seq<Entry>)
    requires Ready(l) && IsSession(l.status, entries)
    ensures Delivered(l, entries) == Meant(l.status, entries)
    decreases |entries|
  {
    if entries != [] {
      LineDelivered(l, entries[0].keys, entries[0].enter);
      var m := KeyStep(KeySteps(l, entries[0].keys), entries[0].enter);
      SessionDelivered(ReadLine(m).1, entries[1..]);
    }
  }

  // ---- Keys between Enter and the read ----

  /** What one key stores, typed at index `at`: Enter at 126 stores two newlines, one of them at 127. */
  function StoredBy(c: Byte, at: nat): map<nat, Byte> {
    if c == BACKSPACE || c == NUL then map[]
    else if c == NEWLINE then
      if at < SIZE - 2 then map[at := c] else if at == SIZE - 2 then map[at := c, at + 1 := c] else map[SIZE - 1 := c]
    else if at < SIZE - 1 then map[at := c] else map[]
  }

  function IndexAfter(c: Byte, at: nat): nat {
    if c == BACKSPACE then (if at == 0 then 0 else at - 1)
    else if c == NEWLINE then 0
    else if c == NUL || SIZE - 1 <= at then at else at + 1
  }

  /** The last byte a run of keys stores at each index of the buffer, from index `at` on. */
  function LastStored(st: Status, at: nat, keys: seq<Byte>): map<nat, Byte>
    decreases |keys|
  {
    if keys == [] then map[] else
      var c := Types(st, keys[0]);
      StoredBy(c, at) + LastStored(StatusAfter(st, keys[0]), IndexAfter(c, at), keys[1..])
  }

  /** The buffer afterwards is the one before with these bytes stored in it. */
  ghost predicate Over(before: seq<Byte>, after: seq<Byte>, stored: map<nat, Byte>) {
    && |before| == |after| == SIZE
    && (forall i: nat :: i < SIZE ==> after[i] == if i in stored then stored[i] else before[i])
  }

  lemma OverTwice(a: seq<Byte>, b: seq<Byte>, c: seq<Byte>, first: map<nat, Byte>, later: map<nat, Byte>)
    requires Over(a, b, first) && Over(b, c, later)
    ensures Over(a, c, first + later)
  {
  }

  lemma KeyStores(l: Line, sc: Byte)
    requires l.Sized()
    ensures var c, m := Types(l.status, sc), KeyStep(l, sc);
            m.status == StatusAfter(l.status, sc) && m.index == IndexAfter(c, l.index)
            && Over(l.buf, m.buf, StoredBy(c, l.index))
  {
    hide CharOf;
  }

  lemma {:induction false} StoredOver(l: Line, keys: seq<Byte>)
    requires l.Sized()
    ensures Over(l.buf, KeySteps(l, keys).buf, LastStored(l.status, l.index, keys))
    decreases |keys|
  {
    if keys != [] {
      hide Types, KeyStep, StatusAfter, Over, StoredBy, IndexAfter;
      KeyStores(l, keys[0]);
      var m := KeyStep(l, keys[0]);
      StoredOver(m, keys[1..]);
      OverTwice(l.buf, m.buf, KeySteps(m, keys[1..]).buf, StoredBy(Types(l.status, keys[0]), l.index),
                LastStored(m.status, m.index, keys[1..]));
    }
  }

  /** Type-ahead is not kept apart: the keys typed between Enter and the read, whatever they are and
      further Enters included, edit the finished line from its start. The reader still gets it exactly
      when what they leave stored over the line and its newline is what was there. */
  lemma TypeAheadIff(l: Line, line: seq<Byte>, enter: Byte, keys: seq<Byte>)
    requires Editing(l, line) && Types(l.status, enter) == NEWLINE
    ensures var m := KeySteps(KeyStep(l, enter), keys);
            var stored := LastStored(StatusAfter(l.status, enter), 0, keys);
            (NEWLINE in m.buf && ReadLine(m).0 == line + [NEWLINE]
             <==> && (|line| in stored ==> stored[|line|] == NEWLINE)
                  && forall i :: i in stored && i < |line| ==> stored[i] == line[i])
  {
    hide CharOf, IndexOf;
    var a, n := KeyStep(l, enter), |line|;
    assert a.index == 0 && a.status == StatusAfter(l.status, enter);
    assert forall i :: 0 <= i < n ==> a.buf[i] == line[i] == l.buf[i] != NEWLINE by {
      assert forall i :: 0 <= i < n ==> l.buf[..n][i] == l.buf[i] && l.buf[i] in l.buf;
    }
    assert a.buf[n] == NEWLINE;
    StoredOver(a, keys);
    hide KeyStep, Types, KeySteps;
    DeliveredIff(KeySteps(a, keys), line);
  }

  /** The reader gets a line exactly when the buffer begins with it and a newline. */
  lemma DeliveredIff(m: Line, line: seq<Byte>)
    requires m.Sized() && |line| < SIZE && NEWLINE !in line
    ensures NEWLINE in m.buf && ReadLine(m).0 == line + [NEWLINE]
       <==> m.buf[|line|] == NEWLINE && forall i :: 0 <= i < |line| ==> m.buf[i] == line[i]
  {
    hide IndexOf;
    var n, whole := |line|, line + [NEWLINE];
    if NEWLINE in m.buf && ReadLine(m).0 == whole {
      assert forall i :: 0 <= i <= n ==> m.buf[i] == ReadLine(m).0[i] == whole[i];
    }
    if m.buf[n] == NEWLINE && forall i :: 0 <= i < n ==> m.buf[i] == line[i] {
      assert m.buf[..n] == line;
      IndexOfIs(m.buf, NEWLINE, n);
      assert m.buf[..n + 1] == whole;
    }
  }

  // ---- Echo ----

  datatype Action = PutChar(c: Byte) | Back | Clear

  function Repeat(a: Action, n: nat): (r: seq<Action>)
    ensures |r| == n && forall i :: 0 <= i < n ==> r[i] == a
  {
    seq(n, i => a)
  }

  /** What one keyboard interrupt does to the screen, in order. */
  function Echo(l: Line, sc: Byte): seq<Action>
    requires l.Sized()
  {
    if 128 <= sc || IsModifier(sc) then []
    else if IsCtrlL(l.status, sc) then [Clear]
    else
      var c := CharOf(l.status, sc);
      if c == BACKSPACE then
        if l.index == 0 then []
        else if l.buf[l.index - 1] == TAB then Repeat(Back, 4)
        else [PutChar(c)]
      else
        (if l.index < SIZE - 1 then [PutChar(c)] else [])
        + (if c == NEWLINE && SIZE - 2 <= l.index then [PutChar(c)] else [])
  }

  function Act(t: Text, a: Action): (r: Outcome)
    requires t.Sized()
    ensures r.Shown? ==> r.text.Sized()
  {
    match a
    case PutChar(c) => Put(t, c)
    case Back => Backspaced(t)
    case Clear => Shown(Cleared(t))
  }

  function ActAll(t: Text, acts: seq<Action>): (r: Outcome)
    requires t.Sized()
    ensures r.Shown? ==> r.text.Sized()
    decreases |acts|
  {
    if acts == [] then Shown(t) else
      var r := Act(t, acts[0]);
      if r.Fault? then Fault else ActAll(r.text, acts[1..])
  }

  function TapeAct(p: Tape, a: Action): Tape {
    match a
    case PutChar(c) => TapePut(p, c)
    case Back => TapePut(p, BACKSPACE)
    case Clear => BLANK_TAPE
  }

  function TapeActAll(p: Tape, acts: seq<Action>): Tape
    decreases |acts|
  {
    if acts == [] then p else TapeActAll(TapeAct(p, acts[0]), acts[1..])
  }

  /** Echo and buffer agree: from the line's first cell up to the cursor the tape reads exactly the
      bytes typed, all of it still on the screen. */
  ghost predicate Agrees(l: Line, t: Text, p: Tape, start: nat) {
    && l.Sized()
    && Refines(t, p)
    && COLS * p.top <= start
    && p.head == start + l.index
    && (forall i :: 0 <= i < l.index ==> l.buf[i] == CellAt(p, start + i) && SPACE <= l.buf[i])
  }

  /** The keys whose echo is not what they store: Tab and Escape while there is room, and Ctrl+L while
      something is on the line. */
  predicate Diverges(l: Line, sc: Byte) {
    if IsCtrlL(l.status, sc) then l.index != 0
    else Types(l.status, sc) in {TAB, ESCAPE} && l.index < SIZE - 1
  }

  /** The next line starts where Enter left the cursor, and a cleared screen's in the corner. */
  function StartAfter(l: Line, p: Tape, start: nat, sc: Byte): nat
    requires l.Sized()
  {
    if IsCtrlL(l.status, sc) then 0
    else if Types(l.status, sc) == NEWLINE then TapeActAll(p, Echo(l, sc)).head else start
  }

  lemma ActOne(t: Text, p: Tape, a: Action)
    requires t.Sized()
    ensures ActAll(t, [a]) == Act(t, a) && TapeActAll(p, [a]) == TapeAct(p, a)
  {
    if Act(t, a).Shown? {
      assert ActAll(Act(t, a).text, []) == Act(t, a);
    }
  }

  lemma ActTwo(t: Text, p: Tape, a: Action)
    requires t.Sized() && Act(t, a).Shown?
    ensures ActAll(t, [a, a]) == Act(Act(t, a).text, a) && TapeActAll(p, [a, a]) == TapeAct(TapeAct(p, a), a)
  {
    assert [a, a][1..] == [a];
    ActOne(Act(t, a).text, TapeAct(p, a), a);
  }

  /** Storing a printable character keeps the agreement, also when it wraps or scrolls. */
  lemma StoredAgrees(l: Line, t: Text, p: Tape, start: nat, sc: Byte)
    requires Agrees(l, t, p, start) && SPACE <= Types(l.status, sc) && l.index < SIZE - 1
    ensures var r := ActAll(t, Echo(l, sc));
            r.Shown? && Agrees(KeyStep(l, sc), r.text, TapeActAll(p, Echo(l, sc)), start)
  {
    var c := Types(l.status, sc);
    assert Echo(l, sc) == [PutChar(c)];
    ActOne(t, p, PutChar(c));
    PutRefines(t, p, c);
    hide ActAll, TapeActAll, Refines, Types, Put;
    var q := TapePut(p, c);
    assert q.head == p.head + 1 && q.cells == p.cells[p.head := c];
    assert COLS * q.top <= start;
  }

  lemma BackspaceAgrees(l: Line, t: Text, p: Tape, start: nat, sc: Byte)
    requires Agrees(l, t, p, start) && BACKSPACE == Types(l.status, sc)
    ensures var r := ActAll(t, Echo(l, sc));
            r.Shown? && Agrees(KeyStep(l, sc), r.text, TapeActAll(p, Echo(l, sc)), start)
  {
    if l.index != 0 {
      assert Echo(l, sc) == [PutChar(BACKSPACE)];
      ActOne(t, p, PutChar(BACKSPACE));
      PutRefines(t, p, BACKSPACE);
      hide ActAll, TapeActAll, Refines, Types, Put;
    }
  }

  lemma EnterAgrees(l: Line, t: Text, p: Tape, sc: Byte)
    requires l.Sized() && Refines(t, p) && NEWLINE == Types(l.status, sc)
    ensures var r := ActAll(t, Echo(l, sc));
            var q := TapeActAll(p, Echo(l, sc));
            r.Shown? && Agrees(KeyStep(l, sc), r.text, q, q.head)
  {
    PutRefines(t, p, NEWLINE);
    var u, q := Put(t, NEWLINE).text, TapePut(p, NEWLINE);
    if l.index == SIZE - 2 {
      assert Echo(l, sc) == [PutChar(NEWLINE), PutChar(NEWLINE)];
      ActTwo(t, p, PutChar(NEWLINE));
      PutRefines(u, q, NEWLINE);
    } else {
      assert Echo(l, sc) == [PutChar(NEWLINE)];
      ActOne(t, p, PutChar(NEWLINE));
    }
    hide ActAll, TapeActAll, Put, TapePut;
  }

  /** Enter moves the cursor to the start of the next row, and of the one after it exactly when 126 bytes
      were on the line. */
  lemma EnterMoves(l: Line, t: Text, p: Tape, sc: Byte)
    requires l.Sized() && t.Sized() && Refines(t, p) && NEWLINE == Types(l.status, sc)
    ensures TapeActAll(p, Echo(l, sc)).head == COLS * (p.head / COLS + if l.index == 126 then 2 else 1)
  {
    hide CharOf, Refines;
    if l.index == SIZE - 2 {
      assert Echo(l, sc) == [PutChar(NEWLINE), PutChar(NEWLINE)];
      PutRefines(t, p, NEWLINE);
      ActTwo(t, p, PutChar(NEWLINE));
    } else {
      assert Echo(l, sc) == [PutChar(NEWLINE)];
      ActOne(t, p, PutChar(NEWLINE));
    }
    hide ActAll, TapeActAll, Echo, Types, Put;
  }

  /** Tab and Escape move the cursor by four cells or none, and store one byte. */
  lemma DivergedDisagrees(l: Line, t: Text, p: Tape, start: nat, sc: Byte)
    requires Agrees(l, t, p, start) && Types(l.status, sc) in {TAB, ESCAPE} && l.index < SIZE - 1
    ensures var q := TapeActAll(p, Echo(l, sc)); q.head != start + KeyStep(l, sc).index
  {
    var c := Types(l.status, sc);
    assert Echo(l, sc) == [PutChar(c)];
    ActOne(t, p, PutChar(c));
  }

  /** Backspaces in a row move the cursor back and blank what they pass. */
  lemma {:induction false} Backs(t: Text, n: nat)
    requires t.Sized() && n <= t.x < COLS && t.y < ROWS
    ensures var r := ActAll(t, Repeat(Back, n));
            && r.Shown? && r.text.x == t.x - n && r.text.y == t.y
            && forall i :: 0 <= i < MAPPED ==>
                 r.text.chars[i] == if COLS * t.y + t.x - n <= i < COLS * t.y + t.x then SPACE else t.chars[i]
    decreases n
  {
    if n != 0 {
      var b := Backspaced(t);
      assert b.Shown? && b.text.x == t.x - 1 && b.text.y == t.y;
      assert Repeat(Back, n)[1..] == Repeat(Back, n - 1);
      Backs(b.text, n - 1);
    }
  }

  /** A Tab that is taken back, with room in the row, leaves line and cursor as they were, and four
      blank cells. */
  lemma TabUndone(l: Line, t: Text, tab: Byte, back: Byte)
    requires l.Sized() && l.index < SIZE - 1 && t.Sized() && t.x + 4 < COLS && t.y < ROWS
    requires Types(l.status, tab) == TAB && Types(StatusAfter(l.status, tab), back) == BACKSPACE
    ensures KeyStep(KeyStep(l, tab), back).index == l.index
    ensures var r := ActAll(t, Echo(l, tab));
            && r.Shown?
            && var u := ActAll(r.text, Echo(KeyStep(l, tab), back));
               && u.Shown? && u.text.x == t.x && u.text.y == t.y
               && forall i :: 0 <= i < MAPPED ==>
                    u.text.chars[i] == if 0 <= i - (COLS * t.y + t.x) < 4 then SPACE else t.chars[i]
  {
    hide KeyStep, Echo, Types, ActAll, StatusAfter;
    TabEchoes(l, tab, back);
    ActOne(t, BLANK_TAPE, PutChar(TAB));
    Backs(t.(x := t.x + 4), 4);
  }

  lemma TabEchoes(l: Line, tab: Byte, back: Byte)
    requires l.Sized() && l.index < SIZE - 1
    requires Types(l.status, tab) == TAB && Types(StatusAfter(l.status, tab), back) == BACKSPACE
    ensures KeyStep(KeyStep(l, tab), back).index == l.index
    ensures Echo(l, tab) == [PutChar(TAB)] && Echo(KeyStep(l, tab), back) == Repeat(Back, 4)
  {
    hide CharOf, StatusAfter;
  }

  lemma ClearAgreesIff(l: Line, t: Text, p: Tape, start: nat, sc: Byte)
    requires Agrees(l, t, p, start) && IsCtrlL(l.status, sc)
    ensures Echo(l, sc) == [Clear] && KeyStep(l, sc) == l
    ensures var r := ActAll(t, [Clear]);
            r.Shown? && (Agrees(l, r.text, TapeActAll(p, [Clear]), 0) <==> l.index == 0)
  {
    ActOne(t, p, Clear);
    ClearedRefines(t);
    hide ActAll, TapeActAll, Refines;
  }

  /** Keys that type nothing, and text that no longer fits, change neither side. */
  lemma SilentAgrees(l: Line, t: Text, p: Tape, start: nat, sc: Byte)
    requires Agrees(l, t, p, start) && !IsCtrlL(l.status, sc)
    requires var c := Types(l.status, sc);
             c == NUL || (l.index == SIZE - 1 && c != NEWLINE && c != BACKSPACE)
    ensures ActAll(t, Echo(l, sc)) == Shown(t) && TapeActAll(p, Echo(l, sc)) == p
    ensures Agrees(KeyStep(l, sc), t, p, start)
  {
    var acts := Echo(l, sc);
    if acts != [] {
      assert acts == [PutChar(NUL)];
      ActOne(t, p, PutChar(NUL));
    }
    hide ActAll, TapeActAll, Refines, Put, TapePut, Types;
  }

  /** Echo and buffer still agree after a key exactly when the key is not one that diverges. */
  lemma EchoAgreesIff(l: Line, t: Text, p: Tape, start: nat, sc: Byte)
    requires Agrees(l, t, p, start)
    ensures StillAgrees(l, t, p, start, sc) <==> !Diverges(l, sc)
  {
    hide ActAll, TapeActAll, Types, KeyStep, Echo;
    var c := Types(l.status, sc);
    if IsCtrlL(l.status, sc) {
      ClearAgreesIff(l, t, p, start, sc);
      CtrlLTypesNothing(l.status, sc);
    } else if c == NEWLINE {
      EnterAgrees(l, t, p, sc);
    } else if c == BACKSPACE {
      BackspaceAgrees(l, t, p, start, sc);
    } else if c == NUL || l.index == SIZE - 1 {
      SilentAgrees(l, t, p, start, sc);
    } else if SPACE <= c {
      StoredAgrees(l, t, p, start, sc);
    } else {
      DivergedDisagrees(l, t, p, start, sc);
    }
  }

  lemma CtrlLTypesNothing(st: Status, sc: Byte)
    requires IsCtrlL(st, sc)
    ensures Types(st, sc) == NUL
  {
  }

  ghost predicate StillAgrees(l: Line, t: Text, p: Tape, start: nat, sc: Byte)
    requires l.Sized() && t.Sized()
  {
    var r := ActAll(t, Echo(l, sc));
    && r.Shown?
    && Agrees(KeyStep(l, sc), r.text, TapeActAll(p, Echo(l, sc)), StartAfter(l, p, start, sc))
  }

  /** Echo and buffer agree after every key of the run. */
  ghost predicate AgreesThroughout(l: Line, t: Text, p: Tape, start: nat, keys: seq<Byte>)
    decreases |keys|
  {
    && Agrees(l, t, p, start)
    && (keys != [] ==>
          var r := ActAll(t, Echo(l, keys[0]));
          && r.Shown?
          && AgreesThroughout(KeyStep(l, keys[0]), r.text, TapeActAll(p, Echo(l, keys[0])),
                              StartAfter(l, p, start, keys[0]), keys[1..]))
  }

  /** No key of the run diverges when its turn comes. */
  ghost predicate NeverDiverges(l: Line, keys: seq<Byte>)
    requires l.Sized()
    decreases |keys|
  {
    keys != [] ==> !Diverges(l, keys[0]) && NeverDiverges(KeyStep(l, keys[0]), keys[1..])
  }

  /** For every run of keys, over any number of lines: echo and buffer agree throughout exactly when
      no key diverges. */
  lemma {:induction false} EchoAgreesThroughoutIff(l: Line, t: Text, p: Tape, start: nat, keys: seq<Byte>)
    requires Agrees(l, t, p, start)
    ensures AgreesThroughout(l, t, p, start, keys) <==> NeverDiverges(l, keys)
    decreases |keys|
  {
    if keys != [] {
      hide Agrees, KeyStep, Echo, ActAll, TapeActAll, StartAfter, Diverges;
      EchoAgreesIff(l, t, p, start, keys[0]);
      var r := ActAll(t, Echo(l, keys[0]));
      var m, q := KeyStep(l, keys[0]), TapeActAll(p, Echo(l, keys[0]));
      var next := StartAfter(l, p, start, keys[0]);
      if !Diverges(l, keys[0]) {
        EchoAgreesThroughoutIff(m, r.text, q, next, keys[1..]);
      } else if r.Shown? {
        assert !Agrees(m, r.text, q, next);
      }
    }
  }

  // ---- The interrupt handler and the reader, in place ----

  class Terminal {
    const buffer: array<Byte>   // keyboard_buffer, and the byte that follows it in memory
    var index: nat
    var status: Status
    var enterpress: bool
    const display: Display

    ghost predicate Valid()
      reads this
    {
      buffer.Length == SIZE + 1 && buffer != display.video && index < SIZE && display.Valid()
    }

    ghost function Content(): (l: Line)
      requires Valid()
      reads this, buffer
      ensures l.Sized()
    {
      Line(buffer[..SIZE], index, status, enterpress)
    }

    constructor (display: Display)
      requires display.Valid()
      ensures Valid() && this.display == display && fresh(buffer)
      ensures Ready(Content())
    {
      this.display := display;
      buffer := new Byte[SIZE + 1](_ => 0);
      index, status, enterpress := 0, Status(false, false, false, false, false, false), false;
    }

    /** A key that is no modifier and not Ctrl+L. */
    method StandardKey(c: Byte, ghost scancode: Byte) returns (fault: bool)
      requires Valid() && scancode < 128 && !IsModifier(scancode) && !IsCtrlL(status, scancode)
      requires c == CharOf(status, scancode)
      modifies `index, `enterpress, buffer, display, display.video
      ensures fault == ActAll(old(display.View()), Echo(old(Content()), scancode)).Fault?
      ensures !fault ==> Valid() && Content() == KeyStep(old(Content()), scancode)
      ensures !fault ==> Shown(display.View()) == ActAll(old(display.View()), Echo(old(Content()), scancode))
    {
      hide Put, Backspaced, CharOf;
      ghost var l, t := Content(), display.View();
      ghost var acts := Echo(l, scancode);
      fault := false;
      if c == BACKSPACE && index != 0 {
        if buffer[index - 1] == TAB {
          for i := 0 to 4
            invariant Valid() && Content() == l
            invariant ActAll(display.View(), Repeat(Back, 4 - i)) == ActAll(t, acts)
          {
            assert Repeat(Back, 4 - i)[1..] == Repeat(Back, 4 - (i + 1));
            fault := display.BackspacePressed();
            if fault {
              return;
            }
          }
        } else {
          ActOne(t, BLANK_TAPE, PutChar(c));
          fault := display.PutcTerm(c);
          if fault {
            return;
          }
        }
        index := index - 1;
      } else if index < SIZE - 1 && c != BACKSPACE {
        assert acts == [PutChar(c)] + acts[1..];
        fault := display.PutcTerm(c);
        if fault {
          return;
        }
      }
      ghost var u := display.View();
      if c != 0 && index < SIZE - 1 && c != BACKSPACE {
        buffer[index] := c;
        index := index + 1;
      }
      if c == NEWLINE {
        if index == SIZE - 1 {
          assert ActAll(t, acts) == ActAll(u, [PutChar(c)]);
          ActOne(u, BLANK_TAPE, PutChar(c));
          buffer[index] := c;
          index := index + 1;
          fault := display.PutcTerm(c);
          if fault {
            return;
          }
        }
        enterpress := true;
        index := 0;
      }
    }

    /** keyboard_handler */
    method KeyboardHandler(scancode: Byte) returns (fault: bool)
      requires Valid()
      modifies this, buffer, display, display.video
      ensures fault == ActAll(old(display.View()), Echo(old(Content()), scancode)).Fault?
      ensures !fault ==> Valid() && Content() == KeyStep(old(Content()), scancode)
      ensures !fault ==> Shown(display.View()) == ActAll(old(display.View()), Echo(old(Content()), scancode))
    {
      fault := false;
      if 128 <= scancode || IsModifier(scancode) {
        status := StatusAfter(status, scancode);
      } else if status.ctrl && scancode == 0x26 {
        ActOne(display.View(), BLANK_TAPE, Clear);
        display.ClearTerm();
      } else {
        var c := CharOf(status, scancode);
        fault := StandardKey(c, scancode);
      }
    }

    /** strncpy (student-distrib/lib.c): the C string, cut or padded with NULs to `n` bytes. The
        source is read one byte beyond the last one copied. */
    static method StrNCpy(dest: array<Byte>, src: array<Byte>, n: nat)
      requires dest != src && n <= dest.Length && (n < src.Length || NUL in src[..])
      modifies dest
      ensures forall i :: 0 <= i < n ==> dest[i] == if i < |CStr(src[..])| then src[i] else NUL
      ensures forall i :: n <= i < dest.Length ==> dest[i] == old(dest[i])
    {
      ghost var s := CStr(src[..]);
      var i := 0;
      while src[i] != NUL && i < n
        invariant 0 <= i <= n && i <= |s|
        invariant forall k :: 0 <= k < i ==> dest[k] == src[k]
        invariant forall k :: n <= k < dest.Length ==> dest[k] == old(dest[k])
        decreases n - i
      {
        dest[i] := src[i];
        i := i + 1;
      }
      assert i < n ==> i == |s|;
      while i < n
        invariant |s| <= i <= n || i == n
        invariant forall k :: 0 <= k < i ==> dest[k] == if k < |s| then src[k] else NUL
        invariant forall k :: n <= k < dest.Length ==> dest[k] == old(dest[k])
      {
        dest[i] := NUL;
        i := i + 1;
      }
    }

    /** terminal_read, entered once Enter was pressed. The byte count asked for is clamped and then
        ignored, so the caller's buffer has to hold the line. */
    method TerminalRead(buf: array<Byte>, nbytes: int) returns (n: int)
      requires Valid() && buf != buffer
      requires enterpress && NEWLINE in Content().buf && IndexOf(Content().buf, NEWLINE) < buf.Length
      requires NUL !in Content().buf[..IndexOf(Content().buf, NEWLINE)]
      modifies buf, buffer, `enterpress
      ensures Valid()
      ensures 0 < n <= SIZE && n <= buf.Length && buf[..n] == ReadLine(old(Content())).0
      ensures Content() == ReadLine(old(Content())).1
      ensures forall i :: n <= i < buf.Length ==> buf[i] == old(buf[i])
    {
      ghost var l := Content();
      hide CStr, IndexOf;
      var i := FindNewline();
      BeginsCStr(buffer[..], l.buf, i);
      StrNCpy(buf, buffer, i + 1);
      n := i + 1;
      assert buf[..n] == l.buf[..n];
      ClearBuffer();
      enterpress := false;
    }

    method FindNewline() returns (i: nat)
      requires Valid() && NEWLINE in Content().buf
      ensures i < SIZE && buffer[i] == NEWLINE && i == IndexOf(Content().buf, NEWLINE)
    {
      ghost var l := Content();
      i := 0;
      while i < SIZE && buffer[i] != NEWLINE
        invariant 0 <= i <= SIZE && NEWLINE !in l.buf[..i]
      {
        i := i + 1;
      }
      IndexOfIs(l.buf, NEWLINE, i);
    }

    method ClearBuffer()
      requires Valid()
      modifies buffer
      ensures Content().buf == Nothing(SIZE)
    {
      for k := 0 to SIZE
        invariant forall j :: 0 <= j < k ==> buffer[j] == 0
      {
        buffer[k] := 0;
      }
    }
  }

  /** The bytes up to the first newline belong to the buffer's C string. */
  lemma BeginsCStr(s: seq<Byte>, buf: seq<Byte>, n: nat)
    requires buf <= s && n < |buf| && NUL !in buf[..n] && buf[n] == NEWLINE
    ensures n < |CStr(s)| && forall k :: 0 <= k <= n ==> CStr(s)[k] == s[k] == buf[k]
  {
    var r := CStr(s);
    assert forall k :: 0 <= k < n ==> s[k] == buf[..n][k];
  }
}
