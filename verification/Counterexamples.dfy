/** One concrete input for each property the source sets out to keep and does not. The lemmas named in
    the comments say for every input whether the property holds. */
module Counterexamples {
  import opened Bytes
  import Screen
  import Keyboard
  import Grep
  import FS = FileSystem
  import D = Descriptors
  import C = Command
  import P = Processes
  import opened Paging
  import Runs
  import Lifetimes
  import Blink
  import Arguments

  function Of(b: Byte, n: nat): (r: seq<Byte>)
    ensures |r| == n && forall i :: 0 <= i < n ==> r[i] == b
  {
    seq(n, i => b)
  }

  /** Screen.StreamRefines: a tab in column 76 moves the cursor off the screen. */
  lemma TabInColumn76()
    ensures var t := Screen.Text(Of(SPACE, Screen.MAPPED), Of(Screen.ATTRIB, Screen.MAPPED), 76, 0);
            !Screen.StaysOnScreen(t, [TAB])
  {
    var t := Screen.Text(Of(SPACE, Screen.MAPPED), Of(Screen.ATTRIB, Screen.MAPPED), 76, 0);
    assert Screen.Put(t, TAB).Shown? ==> Screen.Put(t, TAB).text.x == 80;
  }

  const NO_KEYS := Keyboard.Status(false, false, false, false, false, false)

  /** An editor in which nothing was typed. */
  function Idle(): Keyboard.Line {
    Keyboard.Line(Keyboard.Nothing(Keyboard.SIZE), 0, NO_KEYS, false)
  }

  /** Keyboard.EchoAgreesIff: a Tab on an empty line stores one byte and moves the cursor by four. */
  lemma TabOnEmptyLine(t: Screen.Text)
    requires t.Sized()
    ensures var shown := Screen.Cleared(t);
            && Keyboard.Agrees(Idle(), shown, Screen.BLANK_TAPE, 0)
            && !Keyboard.StillAgrees(Idle(), shown, Screen.BLANK_TAPE, 0, 0x0F)
  {
    Screen.ClearedRefines(t);
    assert Keyboard.Types(NO_KEYS, 0x0F) == TAB;
    Keyboard.EchoAgreesIff(Idle(), Screen.Cleared(t), Screen.BLANK_TAPE, 0, 0x0F);
  }

  /** Keyboard.TypeAheadIff: `a`, Enter and then `s` before the read deliver the line `s`. */
  lemma KeyBeforeRead()
    ensures var l := Keyboard.KeySteps(Idle(), [0x1E, 0x1C, 0x1F]);
            NEWLINE in l.buf && Keyboard.ReadLine(l).0 == [115, NEWLINE]
  {
    hide Keyboard.Types, Keyboard.CharOf;
    ThreeKeys();
    var a := Keyboard.KeyStep(Idle(), 0x1E);
    var b := Keyboard.KeyStep(a, 0x1C);
    var c := Keyboard.KeyStep(b, 0x1F);
    assert c.buf[0] == 115 && c.buf[1] == NEWLINE;
    hide Keyboard.KeyStep;
    assert [0x1E, 0x1C, 0x1F][1..] == [0x1C, 0x1F] && [0x1C, 0x1F][1..] == [0x1F];
    assert Keyboard.KeySteps(Idle(), [0x1E, 0x1C, 0x1F]) == Keyboard.KeySteps(c, []);
    Keyboard.DeliveredIff(c, [115]);
  }

  lemma ThreeKeys()
    ensures Keyboard.Types(NO_KEYS, 0x1E) == 97 && Keyboard.Types(NO_KEYS, 0x1F) == 115
    ensures Keyboard.Types(NO_KEYS, 0x1C) == NEWLINE
  {
  }

  /** Grep.GrepIsExactIff: a line of 1025 times `a` is reported in two pieces. */
  lemma LongMatchingLine()
    ensures Grep.Select(Grep.Pieces(Of(97, 1025)), [97]) != Grep.Select(Lines(Of(97, 1025)), [97])
  {
    var f := Of(97, 1025);
    IndexOfIs(f, NEWLINE, |f|);
    assert Lines(f) == [f] by {
      assert f[..|f|] == f && Lines([]) == [];
    }
    assert Grep.OccursAt(f, [97], 0);
    Grep.GrepIsExactIff(f, [97]);
    assert f in Lines(f);
  }

  /** FileSystem.CopyCountIff: a read of -1 bytes at position 1 of a file of 10 asks for 2^32 - 1. */
  lemma ReadMinusOne()
    ensures FS.CopyCount(10, 1, D.ToWord(-1)) == WORD - 1 && FS.Available(10, 1, D.ToWord(-1)) == 9
    ensures !D.ReadFits(map[2 := D.Regular(Of(97, 10), 1)], 2, -1)
  {
    assert -1 % WORD == WORD - 1;
  }

  /** A directory with the one entry `.`, and behind it 64 bytes that look the same. */
  function DotImage(): FS.Image {
    FS.Image(1, seq(64, i => FS.Dentry([46] + Of(NUL, 31), 1, 0)), [], [])
  }

  /** Descriptors.ListingExactIff: opened and listed, that directory shows two names and then fails. */
  lemma ListingRunsOn()
    ensures FS.WellFormed(DotImage())
    ensures var (fd, m) := D.OpenSpec(Runs.FIRST_FILES, DotImage(), [46, NUL]);
            fd == 2 && 2 in m && m[2] == D.Directory(0) && D.List(m, DotImage(), 2, 32) == ([[46], [46]], false)
  {
    var img := DotImage();
    var name := [46] + Of(NUL, 31);
    assert img.nent == 1 && img.dirs[0] == img.dirs[1] == FS.Dentry(name, 1, 0);
    assert FS.WellFormed(img);
    hide DotImage;
    DotName();
    assert FS.LookupFrom(img, [46, NUL], 0) == FS.Some(img.dirs[0]);
    var m := Runs.FIRST_FILES[2 := D.Directory(0)];
    assert D.LeastFree(Runs.FIRST_FILES, 2) == 2;
    hide D.List, D.NamePrefix, CStr, FS.LookupFrom;
    D.ListingExactIff(m, img, 2, 32);
    assert D.Names(img, 1, 32) == [] && D.Names(img, 0, 32) == [[46]] + D.Names(img, 1, 32);
    assert [[46]] + [] + [[46]] == [[46], [46]];
  }

  lemma DotName()
    ensures FS.SameName([46, NUL], [46] + Of(NUL, 31), FS.NAME_LEN)
    ensures D.NamePrefix(FS.Dentry([46] + Of(NUL, 31), 1, 0), 32) == [46]
  {
    var name := [46] + Of(NUL, 31);
    var s := D.EntryBytes(FS.Dentry(name, 1, 0));
    assert name[..1] == [46] && s[..1] == [46] && [46, NUL][..1] == [46];
    CStrIs(name, 1);
    CStrIs(s, 1);
    CStrIs([46, NUL], 1);
  }

  /** Command.ScannedArgsIff: `ls`, and behind its NUL a space and an `x`. */
  lemma StrayArgument()
    ensures var command := [108, 115, NUL, SPACE, 120] + Of(NUL, 124);
            && C.ArgsOf(C.LineOf(command)) == [] && C.ScannedArgs(command) == [120]
  {
    var command := [108, 115, NUL, SPACE, 120] + Of(NUL, 124);
    assert command[..2] == [108, 115];
    CStrIs(command, 2);
    assert C.WordEnd(command, 0) == 3;
    assert C.SkipSpaces(command, 3) == 4;
    assert C.ArgsEnd(command, 4) == 5;
    assert command[4..5] == [120];
    IndexOfIs([108, 115], NEWLINE, 2);
    IndexOfIs([108, 115], SPACE, 2);
  }

  /** Processes.CopyMeetsBlockIff: the shell reads a line from the terminal into a buffer at 4 MiB, and a
      byte of the kernel's own memory changes. */
  lemma BufferAtFourMegabytes() returns (m: P.Machine, img: FS.Image, s: Runs.Stack, ev: P.Event)
    ensures Runs.Boots(img) && Runs.Inv(m, img, s) && P.CanStep(m, img, ev) && ev.Io? && ev.call.Read?
    ensures P.Step(m, img, ev).1 == P.Return(2)
    ensures P.ByteAt(P.Step(m, img, ev).0.mem, MB4) != P.ByteAt(m.mem, MB4)
  {
    m, img, s := Lifetimes.SomeMachineBoots();
    var esp: Word := 0x7F_FF00;
    P.SlotOfIff(esp, 0);
    hide Runs.Inv, Runs.Boots, P.SlotOf;
    var b: Byte := if P.ByteAt(m.mem, MB4) == 97 then 98 else 97;
    ev := P.Io(D.Read(0, 2, 2), MB4, [b, NEWLINE], esp);
    TerminalReadStores(m, img, s, ev);
  }

  lemma TerminalReadStores(m: P.Machine, img: FS.Image, s: Runs.Stack, ev: P.Event)
    requires Runs.Boots(img) && Runs.Inv(m, img, s) && |s.live| == 1 && s.live[0].files == Runs.FIRST_FILES
    requires ev.Io? && ev.call.Read? && ev.call.fd == 0 && ev.va == MB4 && P.SlotOf(ev.esp) == FS.Some(0)
    requires 0 < |ev.typed| <= MB4
    ensures P.CanStep(m, img, ev) && P.Step(m, img, ev).1 == P.Return(ev.call.device)
    ensures P.ByteAt(P.Step(m, img, ev).0.mem, MB4) == ev.typed[0]
  {
    hide Runs.Inv, P.SlotOf, FS.WellFormed, RunsProcess, Coherent, P.StoreAll, Paged, Runs.Slots, D.DescValid;
    Runs.InvGives(m, img, s);
    var fds := m.pcbs[0].fds;
    assert 0 in D.Files(img, fds) && D.FileOf(img, fds[0]) == D.Terminal;
    assert D.ReadFds(fds, img, 0, ev.call.n, ev.call.device, ev.typed).1 == ev.typed;
    P.StoreAllLands(m.mem, m.mmu, 0, MB4, ev.typed);
    assert P.ByteAt(P.StoreAll(m.mem, m.mmu, MB4, ev.typed).mem, P.Base(0, MB4) + 0) == ev.typed[0];
  }

  /** Blink.AsGivenIff: with an on-length of 0 a character is nevertheless on at first. */
  lemma NeverOnIsOn()
    ensures !Blink.AsGiven(Blink.Char(1, 65, 66, 0, 1, 0, 0), 0)
  {
    assert 0 % 1 == 0;
  }

  /** Blink.AddLinks and Blink.AddAtZeroThenAdd: two adds at location 0 to an empty list make a cycle. */
  lemma TwiceAtLocationZero(c: Blink.Char)
    requires c.location == 0
    ensures var pool := seq(Blink.POOL, i => Blink.FREE);
            var once := pool[0 := Blink.Node(c, Blink.NULL)];
            var twice := once[0 := Blink.Node(c, 0)];
            && Blink.FirstFree(pool, 0) == Blink.FirstFree(once, 0) == 0
            && forall o: seq<nat> :: !Blink.Linked(twice, 0, o)
  {
    var pool := seq(Blink.POOL, i => Blink.FREE);
    assert Blink.Linked(pool, Blink.NULL, []);
    Blink.FirstFreeIs(pool, 0);
    Blink.AddAtZeroThenAdd(pool, Blink.NULL, [], c, c);
  }

  /** Arguments.GetArgs: one word of 1024 bytes overruns a buffer of 1024. */
  lemma WordFillsBuffer()
    ensures Arguments.Fills([Of(97, 1024)], 1024)
  {
    var ws := [Of(97, 1024)];
    assert ws[..1] == ws && Arguments.Join(ws) == ws[0];
  }
}
