/** Whole runs of the machine against a stack of launched processes, each with its open files: every
    system call does to the machine what it does to the stack (student-distrib/syscall.c). */
module Runs {
  import opened Bytes
  import opened Paging
  import FS = FileSystem
  import opened Descriptors
  import opened Command
  import opened Processes

  // ---- The simple form ----

  /** Where a process was launched from, the arguments it was given, and the files it has open. */
  datatype Launch = Launch(regs: Regs, args: seq<Byte>, files: Table)

  /** The processes, the running one last, and what each free slot's last occupant left open. */
  datatype Stack = Stack(live: seq<Launch>, spare: seq<Table>) {
    ghost predicate Sized() {
      |live| + |spare| == SLOTS
    }
  }

  /** The files of a process that starts in a slot whose last occupant left `t`: the terminal, and 6
      and 7 as they were. */
  function Renewed(t: Table): Table {
    (t - {2, 3, 4, 5})[0 := Terminal][1 := Terminal]
  }

  /** What a process that ends leaves open: everything but descriptor 0. */
  function Left(t: Table): Table {
    t - {0}
  }

  ghost function StackStart(s: Stack, img: FS.Image, command: seq<Byte>, regs: Regs): (Stack, Control)
    requires FS.WellFormed(img) && ARGS_SIZE < |command|
  {
    var program := Loadable(img, NameBytes(command));
    if program.None? || s.spare == [] then (s, Return(-1))
    else if PROGRAM_ROOM < |program.value.bytes| then (s, Fault)
    else (Pushed(s, regs, ScannedArgs(command)), Enter(program.value.entry))
  }

  function Pushed(s: Stack, regs: Regs, args: seq<Byte>): Stack
    requires s.spare != []
  {
    Stack(s.live + [Launch(regs, args, Renewed(s.spare[0]))], s.spare[1..])
  }

  function Popped(s: Stack): Stack
    requires s.live != []
  {
    var p := |s.live| - 1;
    Stack(s.live[..p], [Left(s.live[p].files)] + s.spare)
  }

  ghost function StackHalt(s: Stack, img: FS.Image, status: Byte, again: Again): (Stack, Control)
    requires FS.WellFormed(img) && s.live != [] && IsShell(again.command)
  {
    if |s.live| == 1 then StackStart(Popped(s), img, again.command, again.regs)
    else (Popped(s), Resume(s.live[|s.live| - 1].regs, SignExtended(status)))
  }

  /** The running process's files are now `t`. */
  function WithFiles(s: Stack, t: Table): Stack
    requires s.live != []
  {
    var p := |s.live| - 1;
    s.(live := s.live[p := s.live[p].(files := t)])
  }

  ghost function StackFiles(s: Stack, img: FS.Image, call: Call, va: Word, typed: seq<Byte>): (Stack, Control)
    requires FS.WellFormed(img) && s.live != []
  {
    var t := s.live[|s.live| - 1].files;
    match call
    case Open(fname) =>
      var (r, after) := OpenSpec(t, img, fname);
      (WithFiles(s, after), Return(r))
    case Close(fd) =>
      var (r, after) := CloseSpec(t, fd);
      (WithFiles(s, after), Return(r))
    case Read(fd, n, device) =>
      if !ReadFits(t, fd, n) || Room(va) < |ReadStores(t, img, fd, n, typed)| then (s, Fault)
      else
        var (r, _, after) := ReadSpec(t, img, fd, n, device);
        (WithFiles(s, after), Return(r))
  }

  function StackArgs(s: Stack, va: Word, nbytes: int): Control
    requires s.live != []
  {
    var args := s.live[|s.live| - 1].args;
    if va == 0 || args == [] || nbytes <= |args| then Return(-1)
    else if Room(va) < nbytes || ArgsSpan(|s.live| - 1) < nbytes then Fault else Return(0)
  }

  /** The addresses user code may write: the 4 MiB at 128 MiB and video memory above 132 MiB. */
  predicate UserMay(va: nat) {
    USER_BASE <= va < USER_BASE + MB4 || HIGH_VIDEO + VIDEO_FIRST * KB4 <= va < HIGH_VIDEO + VIDEO_END * KB4
  }

  ghost function StackStep(s: Stack, img: FS.Image, ev: Event): (Stack, Control)
    requires FS.WellFormed(img) && s.live != []
    requires ev.Exec? ==> ARGS_SIZE < |ev.command|
    requires ev.Exec? || ev.Exit? ==> IsShell(ev.again.command)
  {
    match ev
    case Exec(command, regs, again, _) =>
      var name := NameBytes(command);
      if name[0] == NUL then (s, Return(0))
      else if name[..4] == QUIT then StackHalt(s, img, 0, again)
      else StackStart(s, img, command, regs)
    case Exit(status, _, again, _) => StackHalt(s, img, status, again)
    case Io(call, va, typed, _) => StackFiles(s, img, call, va, typed)
    case GetArgs(va, nbytes, _, _) => (s, StackArgs(s, va, nbytes))
    case VidMap(va) =>
      (s, if va < USER_BASE || USER_BASE + MB4 < va then Return(-1)
          else if va <= USER_BASE + MB4 - 4 then Return(0) else Fault)
    case UserStore(va, _) => (s, if UserMay(va) then Return(0) else Fault)
    case Access(_) => (s, Return(0))
  }

  /** A system call runs on the kernel stack of the process on top, and a buffer the kernel copies into
      is not in the kernel's own 4 MiB. */
  ghost predicate EventOk(s: Stack, ev: Event) {
    var top := FS.Some(|s.live| - 1);
    match ev
    case Exec(command, regs, again, _) =>
      && ARGS_SIZE < |command| && IsShell(again.command)
      && SlotOf(regs.esp) == top && SlotOf(again.regs.esp) == top
    case Exit(_, regs, again, _) =>
      IsShell(again.command) && SlotOf(regs.esp) == top && SlotOf(again.regs.esp) == top
    case Io(_, va, _, esp) => SlotOf(esp) == top && !(MB4 <= va < 2 * MB4)
    case GetArgs(va, _, behind, esp) =>
      SlotOf(esp) == top && !(MB4 <= va < 2 * MB4) && ARGS_SIZE + |behind| == ArgsSpan(|s.live| - 1)
    case _ => true
  }

  // ---- What an event stores ----

  /** Bytes that come to lie in physical memory, one behind the other. */
  datatype Write = Write(base: nat, bytes: seq<Byte>)

  const NOTHING := Write(0, [])

  /** The program a command names, in the frame of the process that is launched. */
  ghost function LaunchWrite(s: Stack, img: FS.Image, command: seq<Byte>): Write
    requires FS.WellFormed(img) && ARGS_SIZE < |command|
  {
    Write(Frame(|s.live|) + 0x4_8000, FileNamed(img, NameBytes(command)))
  }

  ghost function HaltWrite(s: Stack, img: FS.Image, again: Again): Write
    requires FS.WellFormed(img) && s.live != [] && IsShell(again.command)
  {
    if |s.live| == 1 then LaunchWrite(Popped(s), img, again.command) else NOTHING
  }

  ghost function ExecuteWrite(s: Stack, img: FS.Image, command: seq<Byte>, again: Again, control: Control): Write
    requires FS.WellFormed(img) && s.live != [] && ARGS_SIZE < |command| && IsShell(again.command)
  {
    if !control.Enter? then NOTHING
    else if NameBytes(command)[..4] == QUIT then HaltWrite(s, img, again)
    else LaunchWrite(s, img, command)
  }

  function FilesWrite(s: Stack, img: FS.Image, call: Call, va: Word, typed: seq<Byte>): Write
    requires FS.WellFormed(img) && s.live != []
  {
    var p := |s.live| - 1;
    if call.Read? && ReadFits(s.live[p].files, call.fd, call.n) then
      Write(Base(p, va), ReadStores(s.live[p].files, img, call.fd, call.n, typed))
    else NOTHING
  }

  /** What an event that does not fault stores. `block` is the control block from its arguments on. */
  ghost function StackWrite(s: Stack, img: FS.Image, ev: Event, block: seq<Byte>): Write
    requires FS.WellFormed(img) && s.live != []
    requires ev.Exec? ==> ARGS_SIZE < |ev.command|
    requires ev.Exec? || ev.Exit? ==> IsShell(ev.again.command)
  {
    var p := |s.live| - 1;
    match ev
    case Exec(command, _, again, _) => ExecuteWrite(s, img, command, again, StackStep(s, img, ev).1)
    case Exit(_, _, again, _) => HaltWrite(s, img, again)
    case Io(call, va, typed, _) => FilesWrite(s, img, call, va, typed)
    case GetArgs(va, nbytes, _, _) =>
      if StackArgs(s, va, nbytes) == Return(0) && 0 <= nbytes <= |block| then Write(Base(p, va), block[..nbytes])
      else NOTHING
    case VidMap(va) =>
      if USER_BASE <= va <= USER_BASE + MB4 then Write(Base(p, va), VIDEO_ADDRESS) else NOTHING
    case UserStore(va, b) => Write(Base(p, va), [b])
    case Access(_) => NOTHING
  }

  ghost predicate Wrote(before: Memory, after: Memory, w: Write) {
    Landed(before, after, w.base, w.bytes, |w.bytes|)
  }

  /** What was stored to a virtual buffer can be read there. */
  lemma WroteSeen(before: Memory, after: Memory, pid: nat, va: nat, bytes: seq<Byte>)
    requires Wrote(before, after, Write(Base(pid, va), bytes))
    ensures Seen(after, pid, va, |bytes|) == bytes
  {
    hide Base;
  }

  lemma WroteNothing(mem: Memory)
    ensures Wrote(mem, mem, NOTHING)
  {
  }

  // ---- The invariant ----

  /** A slot in use belongs to the process at its place in the stack. */
  ghost predicate Holds(img: FS.Image, pcb: Pcb, i: nat, l: Launch) {
    && pcb.active && pcb.pid == i && pcb.parent == (i - 1) % WORD
    && Regs(pcb.savedEsp, pcb.savedEbp) == l.regs
    && CStr(pcb.args) == l.args && |l.args| < ARGS_SIZE
    && FdsValid(img, pcb.fds) && Files(img, pcb.fds) == l.files
  }

  ghost predicate Spare(img: FS.Image, pcb: Pcb, t: Table) {
    !pcb.active && FdsValid(img, pcb.fds) && Files(img, pcb.fds) == t
  }

  /** The slots in use are the first ones, one for each process of the stack. Every process but the
      first was launched from the kernel stack of the one below it. */
  ghost predicate Slots(pcbs: seq<Pcb>, img: FS.Image, s: Stack) {
    && |pcbs| == SLOTS && s.Sized()
    && (forall i :: 0 <= i < SLOTS ==> pcbs[i].Sized())
    && (forall i :: 0 <= i < |s.live| ==> Holds(img, pcbs[i], i, s.live[i]))
    && (forall i :: |s.live| <= i < SLOTS ==> Spare(img, pcbs[i], s.spare[i - |s.live|]))
    && (forall i :: 1 <= i < |s.live| ==> SlotOf(s.live[i].regs.esp) == FS.Some(i - 1))
  }

  /** The top of the stack is running: the directory maps its frame, the cache agrees, and the next
      trap lands on its kernel stack. */
  ghost predicate Inv(m: Machine, img: FS.Image, s: Stack) {
    && m.Sized() && s.live != [] && Slots(m.pcbs, img, s)
    && RunsProcess(m.mmu, |s.live| - 1) && Coherent(m.mmu)
    && m.esp0 == StackTop(|s.live| - 1)
  }

  ghost predicate Boots(img: FS.Image) {
    && FS.WellFormed(img) && Loadable(img, SHELL).Some?
    && |Loadable(img, SHELL).value.bytes| <= PROGRAM_ROOM
  }

  // ---- The control blocks ----

  lemma NewFdsAre(img: FS.Image, fds: seq<Desc>)
    requires FdsValid(img, fds)
    ensures FdsValid(img, NewFds(fds)) && Files(img, NewFds(fds)) == Renewed(Files(img, fds))
  {
    hide FS.WellFormed;
    var r, t := NewFds(fds), Files(img, fds);
    assert forall i :: 0 <= i < MAX_FILES ==> DescValid(img, fds[i]);
    assert FdsValid(img, r);
    hide DescValid, FS.Contents;
    assert forall i: nat :: i in Files(img, r) <==> i in Renewed(t);
  }

  lemma EndedFdsAre(img: FS.Image, fds: seq<Desc>)
    requires FdsValid(img, fds)
    ensures var d := fds[0];
            var r := fds[0 := Desc(d.op, d.inode, d.pos, false)];
            FdsValid(img, r) && Files(img, r) == Left(Files(img, fds))
  {
    var d := fds[0];
    FilesUpdate(img, fds, 0, Desc(d.op, d.inode, d.pos, false));
  }

  lemma FirstFreeSlot(pcbs: seq<Pcb>, img: FS.Image, s: Stack)
    requires Slots(pcbs, img, s)
    ensures FirstInactive(pcbs, 0) == |s.live|
  {
    hide SlotOf, CStr, FdsValid, Files;
    assert forall i :: 0 <= i < |s.live| ==> pcbs[i].active by {
      assert forall i :: 0 <= i < |s.live| ==> Holds(img, pcbs[i], i, s.live[i]);
    }
    assert |s.live| < SLOTS ==> !pcbs[|s.live|].active by {
      assert |s.live| < SLOTS ==> Spare(img, pcbs[|s.live|], s.spare[0]);
    }
  }

  lemma NewPcbHolds(img: FS.Image, prev: Pcb, t: Table, slot: nat, args: seq<Byte>, regs: Regs)
    requires Spare(img, prev, t) && prev.Sized() && slot < SLOTS && |args| < ARGS_SIZE && NUL !in args
    ensures Holds(img, NewPcb(prev, slot, args, regs), slot, Launch(regs, args, Renewed(t)))
  {
    hide FdsValid, CStr, Files, Renewed;
    NewFdsAre(img, prev.fds);
    NulFreeIsCStr(args);
  }

  lemma SlotsPush(pcbs: seq<Pcb>, img: FS.Image, s: Stack, args: seq<Byte>, regs: Regs)
    requires Slots(pcbs, img, s) && |s.live| < SLOTS && |args| < ARGS_SIZE && NUL !in args
    requires s.live != [] ==> SlotOf(regs.esp) == FS.Some(|s.live| - 1)
    ensures var slot := |s.live|;
            Slots(pcbs[slot := NewPcb(pcbs[slot], slot, args, regs)], img, Pushed(s, regs, args))
  {
    hide Holds, Spare, SlotOf, NewPcb;
    var slot := |s.live|;
    NewPcbHolds(img, pcbs[slot], s.spare[0], slot, args, regs);
    var after := Pushed(s, regs, args);
    assert forall i :: 0 <= i < slot ==> after.live[i] == s.live[i];
    assert forall j :: 0 <= j < |after.spare| ==> after.spare[j] == s.spare[j + 1];
  }

  lemma SlotsPop(pcbs: seq<Pcb>, img: FS.Image, s: Stack)
    requires Slots(pcbs, img, s) && s.live != []
    ensures var p := |s.live| - 1;
            Slots(pcbs[p := Ended(pcbs[p])], img, Popped(s))
  {
    hide SlotOf, CStr;
    var p := |s.live| - 1;
    assert Holds(img, pcbs[p], p, s.live[p]);
    EndedFdsAre(img, pcbs[p].fds);
    assert Spare(img, Ended(pcbs[p]), Left(s.live[p].files));
    hide Holds, Spare, Ended;
    var after := Popped(s);
    assert forall i :: 0 <= i < p ==> after.live[i] == s.live[i];
    assert forall j :: 0 < j < |after.spare| ==> after.spare[j] == s.spare[j - 1];
  }

  lemma SlotsFiles(pcbs: seq<Pcb>, img: FS.Image, s: Stack, fds: seq<Desc>)
    requires Slots(pcbs, img, s) && s.live != [] && FdsValid(img, fds)
    ensures var p := |s.live| - 1;
            Slots(pcbs[p := pcbs[p].(fds := fds)], img, WithFiles(s, Files(img, fds)))
  {
    hide SlotOf, CStr;
    var p := |s.live| - 1;
    assert Holds(img, pcbs[p], p, s.live[p]);
    assert Holds(img, pcbs[p].(fds := fds), p, s.live[p].(files := Files(img, fds)));
    hide Holds, Spare;
  }

  // ---- Every event refines the stack's ----

  /** Names that are equal as C strings stand for the same program. */
  lemma SameProgram(img: FS.Image, a: seq<Byte>, b: seq<Byte>)
    requires FS.WellFormed(img) && CStr(a) == CStr(b)
    ensures Loadable(img, a) == Loadable(img, b)
  {
    SameLookup(img, a, b, 0);
    hide FS.LookupFrom;
  }

  lemma {:induction false} SameLookup(img: FS.Image, a: seq<Byte>, b: seq<Byte>, from: nat)
    requires FS.WellFormed(img) && CStr(a) == CStr(b) && from <= img.nent
    ensures FS.LookupFrom(img, a, from) == FS.LookupFrom(img, b, from)
    decreases img.nent - from
  {
    if from < img.nent {
      SameLookup(img, a, b, from + 1);
    }
  }

  /** Whatever lies behind the literal, it names the shell. */
  lemma ShellLoads(img: FS.Image, command: seq<Byte>)
    requires FS.WellFormed(img) && IsShell(command)
    ensures Loadable(img, NameBytes(command)) == Loadable(img, SHELL)
  {
    NameAt(command);
    var name := NameBytes(command);
    hide FS.WellFormed, Loadable, NameBytes, FS.Contents, CStr;
    assert forall j :: 0 <= j < 6 ==> command[j] == command[..6][j];
    assert 4 < WordEnd(command, 0);
    assert name[..5] == SHELL[..5] && name[5] == SHELL[5] == NUL;
    CStrIs(name, 5);
    CStrIs(SHELL, 5);
    SameProgram(img, name, SHELL);
  }

  /** A launch from a state whose first slots are in use, by whatever name. */
  lemma StartRefines(m: Machine, img: FS.Image, s: Stack, command: seq<Byte>, regs: Regs, c: Cached, was: Word)
    requires FS.WellFormed(img) && m.Sized() && Slots(m.pcbs, img, s)
    requires Paged(m.mmu, was)
    requires s.live != [] ==> SlotOf(regs.esp) == FS.Some(|s.live| - 1)
    requires ARGS_SIZE < |command| && |ScannedArgs(command)| < ARGS_SIZE
    ensures var (n, control) := ExecuteProgram(m, img, NameBytes(command), ScannedArgs(command), regs, c);
            var (after, expected) := StackStart(s, img, command, regs);
            && control == expected && !control.Resume?
            && (control.Enter? ==> Inv(n, img, after) && Wrote(m.mem, n.mem, LaunchWrite(s, img, command)))
            && (control.Return? ==> n == m && after == s)
  {
    hide Loadable, RunsProcess, Coherent, Switch, StoreAll, FS.WellFormed, Slots, NewPcb, NameBytes, ScannedArgs;
    hide SlotOf, Paged, FirstInactive, Landed, LaunchWrite, Wrote;
    StartWrites(m, img, s, command, regs, c, was);
    FirstFreeSlot(m.pcbs, img, s);
    var name, args, slot := NameBytes(command), ScannedArgs(command), |s.live|;
    assert s.Sized() by { SlotsSized(m.pcbs, img, s); }
    if slot < SLOTS && Loadable(img, name).Some? {
      var mmu := Switch(m.mmu, slot, c);
      SwitchCoherent(m.mmu, slot, c, was);
      StoreAllLands(m.mem, mmu, slot, USER_BASE + PROC_OFFSET, Loadable(img, name).value.bytes);
      SlotsPush(m.pcbs, img, s, args, regs);
    }
  }

  /** A launch loads the file its command names. */
  lemma StartWrites(m: Machine, img: FS.Image, s: Stack, command: seq<Byte>, regs: Regs, c: Cached, was: Word)
    requires FS.WellFormed(img) && m.Sized() && Slots(m.pcbs, img, s) && Paged(m.mmu, was)
    requires ARGS_SIZE < |command| && |ScannedArgs(command)| < ARGS_SIZE
    ensures var (n, control) := ExecuteProgram(m, img, NameBytes(command), ScannedArgs(command), regs, c);
            control.Enter? ==> Wrote(m.mem, n.mem, LaunchWrite(s, img, command))
  {
    hide Loadable, RunsProcess, Coherent, Switch, StoreAll, FS.WellFormed, Slots, NewPcb, NameBytes, ScannedArgs;
    hide SlotOf, Paged, FirstInactive, Landed, FileNamed, StackTop;
    FirstFreeSlot(m.pcbs, img, s);
    var name, slot := NameBytes(command), |s.live|;
    if slot < SLOTS && Loadable(img, name).Some? {
      SwitchCoherent(m.mmu, slot, c, was);
      LoadableIff(img, name);
      StoreAllLands(m.mem, Switch(m.mmu, slot, c), slot, USER_BASE + PROC_OFFSET, Loadable(img, name).value.bytes);
    }
  }

  lemma SlotsSized(pcbs: seq<Pcb>, img: FS.Image, s: Stack)
    requires Slots(pcbs, img, s)
    ensures s.Sized()
  {
  }

  lemma TopParent(m: Machine, img: FS.Image, s: Stack)
    requires Inv(m, img, s)
    ensures s.Sized() && m.Sized() && |s.live| <= SLOTS
    ensures var pcb, top := m.pcbs[|s.live| - 1], s.live[|s.live| - 1];
            pcb.parent == (|s.live| - 2) % WORD && Regs(pcb.savedEsp, pcb.savedEbp) == top.regs
  {
    hide CStr, RunsProcess, Coherent, SlotOf, StackTop, FdsValid;
    assert Holds(img, m.pcbs[|s.live| - 1], |s.live| - 1, s.live[|s.live| - 1]);
  }

  lemma HaltRefines(m: Machine, img: FS.Image, s: Stack, status: Byte, regs: Regs, again: Again, c: Cached)
    requires FS.WellFormed(img) && m.Sized() && Inv(m, img, s) && IsShell(again.command)
    requires SlotOf(regs.esp) == FS.Some(|s.live| - 1) && SlotOf(again.regs.esp) == FS.Some(|s.live| - 1)
    ensures var (n, control) := Halt(m, img, status, regs, again, c);
            var (after, expected) := StackHalt(s, img, status, again);
            && (!expected.Return? ==> control == expected)
            && (expected.Enter? || expected.Resume? ==>
                  Inv(n, img, after) && Wrote(m.mem, n.mem, HaltWrite(s, img, again)))
  {
    hide Loadable, Coherent, RunsProcess, Switch, FS.WellFormed, ExecuteProgram, SlotOf, StackTop, Slots, StackStart;
    hide Ended, Paged, ScannedArgs, NameBytes, Wrote, LaunchWrite;
    WroteNothing(m.mem);
    var p := |s.live| - 1;
    TopParent(m, img, s);
    ShellStarts(again.command);
    SlotsPop(m.pcbs, img, s);
    RunsPaged(m.mmu, p);
    if p == 0 {
      StartRefines(EndSlot(m, 0), img, Popped(s), again.command, again.regs, c, UserEntry(0));
    } else {
      assert m.pcbs[p].parent == p - 1 != NO_PARENT;
      SwitchCoherent(m.mmu, p - 1, c, UserEntry(p));
    }
  }

  lemma RunsPaged(mmu: Mmu, pid: nat)
    requires RunsProcess(mmu, pid)
    ensures mmu.Sized() && pid < SLOTS && Paged(mmu, UserEntry(pid))
  {
  }

  /** With a shell to start, a halt always ends in a running process. */
  lemma HaltGoesOn(s: Stack, img: FS.Image, status: Byte, again: Again)
    requires Boots(img) && s.live != [] && IsShell(again.command)
    ensures var control := StackHalt(s, img, status, again).1;
            if |s.live| == 1 then control.Enter? else control.Resume?
  {
    hide Loadable, FS.WellFormed, NameBytes, ScannedArgs;
    ShellLoads(img, again.command);
  }

  lemma ExecuteRefines(m: Machine, img: FS.Image, s: Stack, command: seq<Byte>, regs: Regs, again: Again, c: Cached)
    requires Boots(img) && m.Sized() && Inv(m, img, s) && EventOk(s, Exec(command, regs, again, c))
    ensures var (n, control) := Execute(m, img, command, regs, again, c);
            var (after, expected) := StackStep(s, img, Exec(command, regs, again, c));
            && control == expected && (!control.Fault? ==> Inv(n, img, after))
            && (control.Return? ==> n == m)
            && (!control.Fault? ==> Wrote(m.mem, n.mem, ExecuteWrite(s, img, command, again, control)))
  {
    hide Inv, Loadable, FS.WellFormed, SlotOf, Halt, StackHalt, WordEnd, ExecuteProgram, StackStart, Paged, ScannedArgs;
    hide Wrote, LaunchWrite;
    WroteNothing(m.mem);
    var name := NameBytes(command);
    if name[0] != NUL && name[..4] == QUIT {
      HaltRefines(m, img, s, 0, regs, again, c);
      HaltGoesOn(s, img, 0, again);
    } else if name[0] != NUL {
      WordStarts(command);
      InvGives(m, img, s);
      StartRefines(m, img, s, command, regs, c, UserEntry(|s.live| - 1));
    }
  }

  lemma InvGives(m: Machine, img: FS.Image, s: Stack)
    requires Inv(m, img, s)
    ensures m.Sized() && s.live != [] && s.Sized() && |s.live| <= SLOTS && Slots(m.pcbs, img, s)
    ensures RunsProcess(m.mmu, |s.live| - 1) && Coherent(m.mmu)
    ensures Paged(m.mmu, UserEntry(|s.live| - 1))
    ensures Holds(img, m.pcbs[|s.live| - 1], |s.live| - 1, s.live[|s.live| - 1])
  {
    hide CStr, SlotOf, StackTop, Coherent, FdsValid, Paged;
  }

  lemma IoRefines(m: Machine, img: FS.Image, s: Stack, call: Call, va: Word, typed: seq<Byte>)
    requires FS.WellFormed(img) && m.Sized() && Inv(m, img, s) && !(MB4 <= va < 2 * MB4)
    ensures |s.live| <= SLOTS && FdsValid(img, m.pcbs[|s.live| - 1].fds)
    ensures var (n, control) := FileCall(m, img, |s.live| - 1, call, va, typed);
            var (after, expected) := StackFiles(s, img, call, va, typed);
            && control == expected
            && (!control.Fault? ==> Inv(n, img, after) && Wrote(m.mem, n.mem, FilesWrite(s, img, call, va, typed)))
  {
    hide FS.WellFormed, RunsProcess, Coherent, StackTop, Slots, FdsValid, DescValid, Files, CStr, Landed, Base;
    NoneLanded(m.mem, 0, []);
    hide OpenFds, OpenSpec, CloseFds, CloseSpec, ReadFds, ReadSpec, ReadStores, Wraps, ReadFits, StoreAll, Room;
    InvGives(m, img, s);
    var p := |s.live| - 1;
    var fds := m.pcbs[p].fds;
    match call
    case Open(fname) =>
      OpenRefines(img, fds, fname);
      SlotsFiles(m.pcbs, img, s, OpenFds(fds, img, fname).1);
    case Close(fd) =>
      CloseRefines(img, fds, fd);
      SlotsFiles(m.pcbs, img, s, CloseFds(fds, fd).1);
    case Read(fd, n, device) =>
      ReadRefines(img, fds, fd, n, device, typed);
      if !Wraps(fds, fd, n) {
        var (_, bytes, after) := ReadFds(fds, img, fd, n, device, typed);
        StoreAllLands(m.mem, m.mmu, p, va, bytes);
        SlotsFiles(m.pcbs, img, s, after);
      }
  }

  /** The arguments behind which memory goes on are still the same C string. */
  lemma ArgsBlock(args: seq<Byte>, behind: seq<Byte>)
    requires |args| == ARGS_SIZE && |CStr(args)| < ARGS_SIZE
    ensures CStr(args + behind) == CStr(args)
  {
    var n := |CStr(args)|;
    assert (args + behind)[..n] == args[..n] == CStr(args);
    CStrIs(args + behind, n);
  }

  lemma ArgsRefines(m: Machine, img: FS.Image, s: Stack, va: Word, nbytes: int, behind: seq<Byte>)
    requires m.Sized() && Inv(m, img, s) && !(MB4 <= va < 2 * MB4) && ARGS_SIZE + |behind| == ArgsSpan(|s.live| - 1)
    ensures |s.live| <= SLOTS
    ensures var (n, control) := ArgsCall(m, |s.live| - 1, va, nbytes, behind);
            && control == StackArgs(s, va, nbytes) && Inv(n, img, s)
            && (control == Return(0) ==>
                  0 <= nbytes <= ArgsSpan(|s.live| - 1)
                  && Wrote(m.mem, n.mem, Write(Base(|s.live| - 1, va), (m.pcbs[|s.live| - 1].args + behind)[..nbytes])))
            && (control == Return(-1) ==> n == m)
            && (control == Return(0) || control == Return(-1) || control.Fault?)
    ensures StackArgs(s, va, nbytes) == Return(0) ==>
              && 0 <= nbytes
              && CStr(Seen(ArgsCall(m, |s.live| - 1, va, nbytes, behind).0.mem, |s.live| - 1, va, nbytes))
                 == s.live[|s.live| - 1].args
  {
    hide RunsProcess, Coherent, StackTop, Slots, FdsValid, Files, CStr, StoreAll, Room, ArgsSpan, Landed, Base, Seen;
    InvGives(m, img, s);
    var p := |s.live| - 1;
    var args := m.pcbs[p].args;
    ArgsBlock(args, behind);
    if HandsOver(args + behind, nbytes) {
      var bytes := if nbytes <= ArgsSpan(p) then (args + behind)[..nbytes] else args + behind;
      StoreAllLands(m.mem, m.mmu, p, va, bytes);
      if nbytes <= Room(va) && nbytes <= ArgsSpan(p) {
        CopySeen(m.mem, m.mmu, p, va, bytes);
        var n := |CStr(args)|;
        assert bytes[..n] == (args + behind)[..n];
        CStrIs(bytes, n);
      }
    }
  }

  lemma VideoRefines(m: Machine, img: FS.Image, s: Stack, va: Word)
    requires m.Sized() && Inv(m, img, s)
    ensures Inv(VideoCall(m, va).0, img, s)
    ensures VideoCall(m, va).1 == if va < USER_BASE || USER_BASE + MB4 < va then Return(-1)
                                  else if va <= USER_BASE + MB4 - 4 then Return(0) else Fault
    ensures VideoCall(m, va).1 == Return(-1) ==> VideoCall(m, va).0 == m
    ensures VideoCall(m, va).1 == Return(0) ==>
              Wrote(m.mem, VideoCall(m, va).0.mem, Write(Base(|s.live| - 1, va), VIDEO_ADDRESS))
  {
    hide RunsProcess, Coherent, StackTop, Slots, StoreAll, Landed, Base;
    InvGives(m, img, s);
    StoreAllLands(m.mem, m.mmu, |s.live| - 1, va, VIDEO_ADDRESS);
  }

  /** What vidmap stores is, lowest byte first, 132 MiB + 0xB8000: the user's address of video memory. */
  lemma VideoSeen(m: Machine, img: FS.Image, s: Stack, va: Word)
    requires m.Sized() && Inv(m, img, s) && VideoCall(m, va).1 == Return(0)
    ensures var b := Seen(VideoCall(m, va).0.mem, |s.live| - 1, va, 4);
            LittleEndian(b[0], b[1], b[2], b[3]) == 0x840_0000 + 0xB_8000
    ensures UserMay(0x840_0000 + 0xB_8000)
  {
    hide Inv, VideoCall, Base, RunsProcess, Coherent;
    InvGives(m, img, s);
    VideoRefines(m, img, s, va);
    var n, base := VideoCall(m, va).0, Base(|s.live| - 1, va);
    var b := Seen(n.mem, |s.live| - 1, va, 4);
    assert forall k :: 0 <= k < 4 ==> b[k] == ByteAt(n.mem, base + k) == VIDEO_ADDRESS[k];
    assert b[0] == 0 && b[1] == 0x80 && b[2] == 0x4B && b[3] == 0x08;
  }

  lemma UserStoreRefines(m: Machine, img: FS.Image, s: Stack, va: Word, b: Byte)
    requires m.Sized() && Inv(m, img, s)
    ensures Inv(UserStoreTo(m, va, b).0, img, s)
    ensures UserStoreTo(m, va, b).1 == if UserMay(va) then Return(0) else Fault
    ensures UserMay(va) ==> UserStoreTo(m, va, b).0.mem == m.mem[Base(|s.live| - 1, va) := b]
    ensures UserMay(va) ==> Wrote(m.mem, UserStoreTo(m, va, b).0.mem, Write(Base(|s.live| - 1, va), [b]))
  {
    hide Slots, StackTop;
    InvGives(m, img, s);
    var p, vpn := |s.live| - 1, va / KB4;
    UserReach(m.mmu, p, vpn);
    CoherentTranslates(m.mmu, vpn);
    PhysOfIsWalk(m.mmu, p, va);
    hide RunsProcess, Coherent, Walk, Translate;
    assert va == KB4 * vpn + va % KB4;
    assert vpn == 1024 * (vpn / 1024) + vpn % 1024;
  }

  lemma AccessRefines(m: Machine, img: FS.Image, s: Stack, vpn: nat)
    requires m.Sized() && Inv(m, img, s)
    ensures Inv(m.(mmu := Fill(m.mmu, vpn)), img, s)
  {
    hide Slots, StackTop;
    assert Fills(m.mmu, [vpn]) == Fill(m.mmu, vpn);
    FillsCoherent(m.mmu, [vpn]);
  }

  /** The running process's control block from its arguments on. */
  ghost function ArgsBytes(m: Machine, s: Stack, ev: Event): seq<Byte> {
    var p := |s.live| - 1;
    if ev.GetArgs? && 0 <= p < |m.pcbs| then m.pcbs[p].args + ev.behind else []
  }

  /** Every event: the machine does what the stack of processes does, control goes where the stack
      says, the machine hangs in a page fault exactly when the stack says so, and else stores exactly
      the bytes the stack says. */
  lemma StepRefines(m: Machine, img: FS.Image, s: Stack, ev: Event)
    requires Boots(img) && Inv(m, img, s) && EventOk(s, ev)
    ensures CanStep(m, img, ev)
    ensures Step(m, img, ev).1 == StackStep(s, img, ev).1
    ensures !StackStep(s, img, ev).1.Fault? ==>
              && Inv(Step(m, img, ev).0, img, StackStep(s, img, ev).0)
              && Wrote(m.mem, Step(m, img, ev).0.mem, StackWrite(s, img, ev, ArgsBytes(m, s, ev)))
  {
    hide Inv, Execute, Halt, Loadable, StackHalt, StackStart, FS.WellFormed, FileCall, ArgsCall, VideoCall, UserStoreTo;
    hide StackFiles, StackArgs, NameBytes, FdsValid, Fill, Wrote, ExecuteWrite, HaltWrite, FilesWrite;
    InvGives(m, img, s);
    WroteNothing(m.mem);
    match ev
    case Exec(command, regs, again, c) => ExecuteRefines(m, img, s, command, regs, again, c);
    case Exit(status, regs, again, c) =>
      HaltRefines(m, img, s, status, regs, again, c);
      HaltGoesOn(s, img, status, again);
    case Io(call, va, typed, esp) => IoRefines(m, img, s, call, va, typed);
    case GetArgs(va, nbytes, behind, esp) =>
      ArgsRefines(m, img, s, va, nbytes, behind);
      assert |ArgsBytes(m, s, ev)| == ArgsSpan(|s.live| - 1) by { assert m.pcbs[|s.live| - 1].Sized(); }
    case VidMap(va) => VideoRefines(m, img, s, va);
    case UserStore(va, b) => UserStoreRefines(m, img, s, va, b);
    case Access(vpn) => AccessRefines(m, img, s, vpn);
  }

  /** A read that returns has put exactly the bytes the descriptor functions say into the buffer. */
  lemma ReadSeen(m: Machine, img: FS.Image, s: Stack, ev: Event)
    requires Boots(img) && s.live != [] && Inv(m, img, s) && EventOk(s, ev) && ev.Io? && ev.call.Read?
    requires StackStep(s, img, ev).1.Return?
    ensures var p := |s.live| - 1;
            var files := s.live[p].files;
            && CanStep(m, img, ev) && ReadFits(files, ev.call.fd, ev.call.n)
            && var stored := ReadStores(files, img, ev.call.fd, ev.call.n, ev.typed);
               Seen(Step(m, img, ev).0.mem, p, ev.va, |stored|) == stored
  {
    hide Inv, CanStep, Step, ReadStores, ReadSpec, Seen, Base, SlotOf, ReadFits, FS.WellFormed, Loadable;
    StepRefines(m, img, s, ev);
    var p := |s.live| - 1;
    assert ReadFits(s.live[p].files, ev.call.fd, ev.call.n);
    var stored := ReadStores(s.live[p].files, img, ev.call.fd, ev.call.n, ev.typed);
    WroteSeen(m.mem, Step(m, img, ev).0.mem, p, ev.va, stored);
  }

  /** How an attempt to launch a program ends. */
  function LaunchControl(program: FS.Option<Program>, slotsLeft: nat): Control {
    if program.None? || slotsLeft == 0 then Return(-1)
    else if 0x40_0000 - 0x4_8000 < |program.value.bytes| then Fault
    else Enter(program.value.entry)
  }

  /** What becomes of an execute, by the first word of its command line: nothing for an empty one, a halt
      for one that begins with "quit", and else a launch, a failure or a fault. */
  lemma ExecuteDecides(s: Stack, img: FS.Image, exec: Event)
    requires Boots(img) && s.live != [] && exec.Exec? && EventOk(s, exec) && NUL in exec.command
    ensures var word := WordOf(LineOf(exec.command));
            && (word == [] ==> StackStep(s, img, exec).1 == Return(0))
            && (QUIT_WORD <= word ==> StackStep(s, img, exec) == StackHalt(s, img, 0, exec.again))
            && (word != [] && !(QUIT_WORD <= word) ==>
                  StackStep(s, img, exec).1 == LaunchControl(Loadable(img, word), |s.spare|))
  {
    hide Loadable, FS.WellFormed, StackHalt, ScannedArgs, SlotOf, NameBytes, WordOf, LineOf, CStr, IsShell;
    var name, word := NameBytes(exec.command), WordOf(LineOf(exec.command));
    ScannedName(exec.command);
    WordOfName(name, word);
    NulFreeIsCStr(word);
    SameProgram(img, name, word);
  }

  lemma WordOfName(name: seq<Byte>, word: seq<Byte>)
    requires |name| == NAME_SIZE && CStr(name) == word
    ensures word == [] <==> name[0] == NUL
    ensures QUIT_WORD <= word <==> name[..4] == QUIT
    ensures name[..4] == QUIT ==> name[0] != NUL
  {
    var quit := QUIT_WORD;
    assert quit == QUIT;
    hide CStr;
    assert forall i :: 0 <= i < |word| ==> word[i] == name[i];
    assert forall i :: 0 <= i < 4 ==> name[..4][i] == name[i];
    if name[..4] == QUIT {
      assert forall i :: 0 <= i < 4 ==> name[i] == QUIT[i] != NUL;
      assert |word| >= 4;
      assert word[..4] == quit;
    }
    if quit <= word {
      assert name[..4] == word[..4];
    }
  }

  // ---- Whole runs ----

  /** The event can happen and does not end in a fault. */
  ghost predicate GoesOn(s: Stack, img: FS.Image, ev: Event)
    requires Boots(img) && s.live != []
  {
    EventOk(s, ev) && !StackStep(s, img, ev).1.Fault?
  }

  ghost function After(s: Stack, img: FS.Image, ev: Event): (r: Stack)
    requires Boots(img) && s.live != [] && GoesOn(s, img, ev)
    ensures r.live != []
  {
    StackLives(s, img, ev);
    StackStep(s, img, ev).0
  }

  lemma StackLives(s: Stack, img: FS.Image, ev: Event)
    requires Boots(img) && s.live != [] && GoesOn(s, img, ev)
    ensures StackStep(s, img, ev).0.live != []
  {
    hide Loadable, FS.WellFormed, SlotOf, NameBytes, ScannedArgs, OpenSpec, ReadSpec, ReadStores;
    if ev.Exec? && NameBytes(ev.command)[..4] == QUIT {
      HaltGoesOn(s, img, 0, ev.again);
    } else if ev.Exit? {
      HaltGoesOn(s, img, ev.status, ev.again);
    }
  }

  /** Events in a row, none of which is a fault: after one the machine does nothing more. */
  ghost predicate RunOk(s: Stack, img: FS.Image, evs: seq<Event>)
    requires Boots(img) && s.live != []
    decreases |evs|
  {
    evs != [] ==> GoesOn(s, img, evs[0]) && RunOk(After(s, img, evs[0]), img, evs[1..])
  }

  ghost function StackRun(s: Stack, img: FS.Image, evs: seq<Event>): (r: Stack)
    requires Boots(img) && s.live != [] && RunOk(s, img, evs)
    ensures r.live != []
    decreases |evs|
  {
    if evs == [] then s else StackRun(After(s, img, evs[0]), img, evs[1..])
  }

  ghost function Next(m: Machine, img: FS.Image, s: Stack, ev: Event): (n: Machine)
    requires Boots(img) && Inv(m, img, s) && GoesOn(s, img, ev)
    ensures Inv(n, img, After(s, img, ev))
  {
    StepRefines(m, img, s, ev);
    Step(m, img, ev).0
  }

  ghost function MachineRun(m: Machine, img: FS.Image, s: Stack, evs: seq<Event>): (n: Machine)
    requires Boots(img) && s.live != [] && RunOk(s, img, evs) && Inv(m, img, s)
    ensures Inv(n, img, StackRun(s, img, evs))
    decreases |evs|
  {
    if evs == [] then m else MachineRun(Next(m, img, s, evs[0]), img, After(s, img, evs[0]), evs[1..])
  }

  /** The state after boot: control blocks zeroed, page_init done, nothing mapped at 128 MiB yet. */
  ghost predicate Booted(m: Machine) {
    && m.Sized()
    && (forall i :: 0 <= i < SLOTS ==> !m.pcbs[i].active)
    && (forall i, k :: 0 <= i < SLOTS && 0 <= k < MAX_FILES ==> !m.pcbs[i].fds[k].flag)
    && Paged(m.mmu, 0)
  }

  const FIRST_FILES: Table := map[0 := Terminal, 1 := Terminal]

  function NoTables(n: nat): (r: seq<Table>)
    ensures |r| == n && forall i :: 0 <= i < n ==> r[i] == map[]
  {
    seq(n, i => map[])
  }

  /** The stack of a machine that has just booted: a shell with only the terminal open. */
  function FirstStack(command: seq<Byte>, regs: Regs): Stack
    requires ARGS_SIZE < |command|
  {
    Stack([Launch(regs, ScannedArgs(command), FIRST_FILES)], NoTables(5))
  }

  /** The first shell establishes the invariant, with no file open but the terminal. */
  lemma BootLaunches(m: Machine, img: FS.Image, command: seq<Byte>, regs: Regs, again: Again, c: Cached)
    requires Boots(img) && Booted(m) && IsShell(command) && IsShell(again.command) && SlotOf(regs.esp).Some?
    ensures var (n, control) := Execute(m, img, command, regs, again, c);
            && control == Enter(Loadable(img, SHELL).value.entry)
            && Inv(n, img, FirstStack(command, regs))
  {
    hide Loadable, FS.WellFormed, Inv, ExecuteProgram, Halt, NameBytes, ScannedArgs, SlotOf, Paged, Wrote, LaunchWrite;
    var none := Stack([], NoTables(SLOTS));
    ShellStarts(command);
    ShellLoads(img, command);
    BootSlots(m, img);
    StartRefines(m, img, none, command, regs, c, 0);
    var first := FirstStack(command, regs);
    assert Renewed(map[]) == FIRST_FILES;
    assert Pushed(none, regs, ScannedArgs(command)) == first by {
      assert NoTables(SLOTS)[1..] == NoTables(5);
      assert [] + [first.live[0]] == first.live;
    }
  }

  /** A machine boots into a running shell exactly when the image has one that can be loaded and fits;
      otherwise the first execute fails, or faults while it loads. */
  lemma BootEntersIff(m: Machine, img: FS.Image, command: seq<Byte>, regs: Regs, again: Again, c: Cached)
    requires FS.WellFormed(img) && Booted(m) && IsShell(command) && IsShell(again.command) && SlotOf(regs.esp).Some?
    ensures var control := Execute(m, img, command, regs, again, c).1;
            && (control.Enter? <==> Boots(img))
            && (control == Return(-1) <==> Loadable(img, SHELL).None?)
            && (control.Enter? || control == Return(-1) || control.Fault?)
  {
    hide Loadable, FS.WellFormed, Inv, ExecuteProgram, Halt, NameBytes, ScannedArgs, SlotOf, Paged, Wrote, LaunchWrite;
    ShellStarts(command);
    ShellLoads(img, command);
    BootSlots(m, img);
    StartRefines(m, img, Stack([], NoTables(SLOTS)), command, regs, c, 0);
  }

  lemma BootSlots(m: Machine, img: FS.Image)
    requires FS.WellFormed(img) && Booted(m)
    ensures Slots(m.pcbs, img, Stack([], NoTables(SLOTS)))
  {
    hide FS.WellFormed;
    forall i | 0 <= i < SLOTS
      ensures Spare(img, m.pcbs[i], map[])
    {
      assert forall k :: 0 <= k < MAX_FILES ==> !m.pcbs[i].fds[k].flag;
      assert FdsValid(img, m.pcbs[i].fds);
      assert Files(img, m.pcbs[i].fds) == map[];
    }
  }

  // ---- What lies below, and what lies above ----

  /** The stack never drops to height `d` along the run. */
  ghost predicate StaysAbove(s: Stack, img: FS.Image, evs: seq<Event>, d: nat)
    requires Boots(img) && s.live != [] && RunOk(s, img, evs)
    decreases |evs|
  {
    d < |s.live| && (evs != [] ==> StaysAbove(After(s, img, evs[0]), img, evs[1..], d))
  }

  /** The processes below `d` with their open files, and where the one at `d` came from. */
  ghost predicate SameBelow(a: Stack, b: Stack, d: nat)
    requires d < |a.live| && d < |b.live|
  {
    a.live[..d] == b.live[..d] && a.live[d].regs == b.live[d].regs && a.live[d].args == b.live[d].args
  }

  lemma StepKeepsBelow(s: Stack, img: FS.Image, ev: Event, d: nat)
    requires Boots(img) && s.live != [] && GoesOn(s, img, ev) && 0 < d < |s.live| && d < |After(s, img, ev).live|
    ensures SameBelow(s, After(s, img, ev), d)
  {
    hide Loadable, FS.WellFormed, ScannedArgs, NameBytes, SlotOf, OpenSpec, ReadSpec, CloseSpec, ReadStores, Renewed;
  }

  /** What lies below is not touched by what happens above. */
  lemma {:induction false} BelowIsKept(s: Stack, img: FS.Image, evs: seq<Event>, d: nat)
    requires Boots(img) && s.live != [] && RunOk(s, img, evs) && StaysAbove(s, img, evs, d) && 0 < d
    ensures d < |StackRun(s, img, evs).live| && SameBelow(s, StackRun(s, img, evs), d)
    decreases |evs|
  {
    if evs != [] {
      hide Boots, After, GoesOn;
      var next := After(s, img, evs[0]);
      BelowIsKept(next, img, evs[1..], d);
      assert d < |next.live|;
      StepKeepsBelow(s, img, evs[0], d);
    }
  }
}
