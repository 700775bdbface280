/** What the refinement gives over a process's lifetime: memory, open files and arguments from the
    execute that launched it to its end, and what the next process in its slot finds
    (student-distrib/syscall.c). */
module Lifetimes {
  import opened Bytes
  import opened Paging
  import FS = FileSystem
  import opened Descriptors
  import opened Command
  import opened Processes
  import opened Runs

  // ---- Memory ----

  /** The physical bytes of a process's frame. */
  ghost predicate SameFrame(a: Memory, b: Memory, p: nat) {
    forall x: nat :: Frame(p) <= x < Frame(p) + MB4 ==> ByteAt(a, x) == ByteAt(b, x)
  }

  /** No copy by the kernel on behalf of one process reaches another one's frame. */
  lemma CopyStaysOut(mem: Memory, mmu: Mmu, pid: nat, va: nat, bytes: seq<Byte>, p: nat)
    requires mmu.Sized() && RunsProcess(mmu, pid) && Coherent(mmu) && p < SLOTS && p != pid && pid < SLOTS
    ensures SameFrame(mem, StoreAll(mem, mmu, va, bytes).mem, p)
  {
    hide RunsProcess, Coherent, StoreAll, Room, Base, PcbAddress;
    StoreAllLands(mem, mmu, pid, va, bytes);
    var n := Fitting(va, |bytes|);
    CopyMeetsBlockIff(pid, va, n, p);
    var after := StoreAll(mem, mmu, va, bytes).mem;
    forall x: nat | Frame(p) <= x < Frame(p) + MB4
      ensures ByteAt(mem, x) == ByteAt(after, x)
    {
      assert !Stores(pid, va, n, x);
    }
  }

  /** A launch loads only its own slot's frame, also when it faults. */
  lemma StartStaysOut(m: Machine, img: FS.Image, s: Stack, name: seq<Byte>, args: seq<Byte>, regs: Regs, c: Cached,
                      was: Word, p: nat)
    requires m.Sized() && FS.WellFormed(img) && Slots(m.pcbs, img, s) && |args| < ARGS_SIZE && p < |s.live|
    requires Paged(m.mmu, was)
    ensures SameFrame(m.mem, ExecuteProgram(m, img, name, args, regs, c).0.mem, p)
  {
    hide Loadable, Switch, StoreAll, FS.WellFormed, RunsProcess, Coherent, Slots, FirstInactive, NewPcb, Paged;
    FirstFreeSlot(m.pcbs, img, s);
    var slot := |s.live|;
    if slot < SLOTS && Loadable(img, name).Some? {
      SwitchCoherent(m.mmu, slot, c, was);
      CopyStaysOut(m.mem, Switch(m.mmu, slot, c), slot, USER_BASE + PROC_OFFSET, Loadable(img, name).value.bytes, p);
    }
  }

  lemma HaltStaysOut(m: Machine, img: FS.Image, s: Stack, status: Byte, regs: Regs, again: Again, c: Cached)
    requires FS.WellFormed(img) && m.Sized() && Inv(m, img, s) && 2 <= |s.live| && IsShell(again.command)
    requires SlotOf(regs.esp) == FS.Some(|s.live| - 1)
    ensures Halt(m, img, status, regs, again, c).0.mem == m.mem
  {
    hide Inv, FS.WellFormed, Switch, StackTop, ExecuteProgram, SlotOf, Ended, NameBytes, ScannedArgs;
    TopParent(m, img, s);
    assert m.pcbs[|s.live| - 1].parent != NO_PARENT;
  }

  lemma ExecStaysOut(m: Machine, img: FS.Image, s: Stack, command: seq<Byte>, regs: Regs, again: Again, c: Cached,
                     p: nat)
    requires Boots(img) && m.Sized() && Inv(m, img, s) && EventOk(s, Exec(command, regs, again, c)) && p < |s.live|
    requires |s.live| == 1 ==> NameBytes(command)[..4] != QUIT
    ensures SameFrame(m.mem, Execute(m, img, command, regs, again, c).0.mem, p)
  {
    hide Inv, FS.WellFormed, ExecuteProgram, Halt, NameBytes, ScannedArgs, Loadable, Slots, SlotOf, Paged, IsShell;
    InvGives(m, img, s);
    var name := NameBytes(command);
    if name[0] != NUL && name[..4] == QUIT {
      HaltStaysOut(m, img, s, 0, regs, again, c);
    } else if name[0] != NUL {
      WordStarts(command);
      StartStaysOut(m, img, s, name, ScannedArgs(command), regs, c, UserEntry(|s.live| - 1), p);
    }
  }

  lemma UserStoreStaysOut(m: Machine, img: FS.Image, s: Stack, va: Word, b: Byte, p: nat)
    requires m.Sized() && Inv(m, img, s) && p < |s.live| - 1
    ensures SameFrame(m.mem, UserStoreTo(m, va, b).0.mem, p)
  {
    InvGives(m, img, s);
    UserStoreRefines(m, img, s, va, b);
    hide Inv, Translate;
    assert UserMay(va) ==> !(Frame(p) <= Base(|s.live| - 1, va) < Frame(p) + MB4);
  }

  lemma IoStaysOut(m: Machine, img: FS.Image, s: Stack, call: Call, va: Word, typed: seq<Byte>, p: nat)
    requires FS.WellFormed(img) && m.Sized() && Inv(m, img, s) && p < |s.live| - 1
    ensures |s.live| <= SLOTS && FdsValid(img, m.pcbs[|s.live| - 1].fds)
    ensures SameFrame(m.mem, FileCall(m, img, |s.live| - 1, call, va, typed).0.mem, p)
  {
    hide Inv, FS.WellFormed, RunsProcess, Coherent, OpenFds, CloseFds, ReadFds, StoreAll, Files, FdsValid, SameFrame;
    hide Wraps, RunOn;
    InvGives(m, img, s);
    var top := |s.live| - 1;
    SameFrameTwice(m.mem, m.mem, m.mem, m.mem, p);
    var fds := m.pcbs[top].fds;
    if call.Read? && Wraps(fds, call.fd, call.n) {
      WrapsFile(fds, call.fd, call.n);
      CopyStaysOut(m.mem, m.mmu, top, va, RunOn(fds, img, call.fd, typed), p);
    } else if call.Read? {
      CopyStaysOut(m.mem, m.mmu, top, va, ReadFds(fds, img, call.fd, call.n, call.device, typed).1, p);
    }
  }

  lemma WrapsFile(fds: seq<Desc>, fd: int, n: int)
    requires |fds| == MAX_FILES && Wraps(fds, fd, n)
    ensures 0 <= fd < MAX_FILES && fds[fd].flag && fds[fd].op == OnFile
  {
  }

  lemma SameFrameTwice(a: Memory, b: Memory, c: Memory, d: Memory, p: nat)
    requires a == b || SameFrame(a, b, p)
    requires b == c || SameFrame(b, c, p)
    requires c == d || SameFrame(c, d, p)
    ensures SameFrame(a, d, p)
  {
  }

  /** No event changes the memory of a process that is not running, faults and copies by the kernel
      included. */
  lemma StepStaysOut(m: Machine, img: FS.Image, s: Stack, ev: Event, p: nat)
    requires Boots(img) && Inv(m, img, s) && EventOk(s, ev) && p < |s.live| - 1
    ensures CanStep(m, img, ev) && SameFrame(m.mem, Step(m, img, ev).0.mem, p)
  {
    hide Inv, FS.WellFormed, Execute, Halt, Loadable, FileCall, UserStoreTo, StoreAll, CanStep, SameFrame, RunsProcess;
    hide SlotOf, Coherent, StackStep;
    StepRefines(m, img, s, ev);
    InvGives(m, img, s);
    var top := |s.live| - 1;
    SameFrameTwice(m.mem, m.mem, m.mem, m.mem, p);
    match ev
    case Exec(command, regs, again, c) => ExecStaysOut(m, img, s, command, regs, again, c, p);
    case Exit(status, regs, again, c) => HaltStaysOut(m, img, s, status, regs, again, c);
    case Io(call, va, typed, _) => IoStaysOut(m, img, s, call, va, typed, p);
    case GetArgs(va, nbytes, behind, _) =>
      var block := m.pcbs[top].args + behind;
      CopyStaysOut(m.mem, m.mmu, top, va, if 0 <= nbytes <= |block| then block[..nbytes] else block, p);
    case VidMap(va) => CopyStaysOut(m.mem, m.mmu, top, va, VIDEO_ADDRESS, p);
    case UserStore(va, b) => UserStoreStaysOut(m, img, s, va, b, p);
    case Access(vpn) =>
  }

  lemma {:induction false} RunStaysOut(m: Machine, img: FS.Image, s: Stack, evs: seq<Event>, d: nat, p: nat)
    requires Boots(img) && s.live != [] && Inv(m, img, s) && RunOk(s, img, evs) && StaysAbove(s, img, evs, d) && p < d
    ensures SameFrame(m.mem, MachineRun(m, img, s, evs).mem, p)
    decreases |evs|
  {
    hide Boots, Inv, EventOk, Step, StackStep, SameFrame, After;
    if evs != [] {
      StepStaysOut(m, img, s, evs[0], p);
      var next := Next(m, img, s, evs[0]);
      RunStaysOut(next, img, After(s, img, evs[0]), evs[1..], d, p);
      SameFrameTwice(m.mem, next.mem, MachineRun(m, img, s, evs).mem, MachineRun(m, img, s, evs).mem, p);
    } else {
      SameFrameTwice(m.mem, m.mem, m.mem, m.mem, p);
    }
  }

  // ---- A launched process, from execute to its end ----

  /** A successful execute: the stack grows. */
  ghost predicate Launches(s: Stack, img: FS.Image, exec: Event)
    requires Boots(img) && s.live != []
  {
    exec.Exec? && GoesOn(s, img, exec) && |s.live| < |After(s, img, exec).live|
  }

  lemma LaunchIs(s: Stack, img: FS.Image, exec: Event)
    requires Boots(img) && s.live != [] && Launches(s, img, exec)
    ensures ARGS_SIZE < |exec.command| && NameBytes(exec.command)[..4] != QUIT
    ensures s.spare != [] && After(s, img, exec) == Pushed(s, exec.regs, ScannedArgs(exec.command))
  {
    hide Loadable, NameBytes, ScannedArgs, SlotOf, FS.WellFormed, OpenSpec, ReadSpec, CloseSpec, ReadStores;
  }

  /** A launched process starts at its entry point with its program in memory: the file named by the
      first word of the command line lies at 0x8048000, it begins with DEL and "ELF", and the entry
      point is the word at its bytes 24 to 27. */
  lemma LaunchRuns(m: Machine, img: FS.Image, s: Stack, exec: Event)
    requires Boots(img) && s.live != [] && Inv(m, img, s) && Launches(s, img, exec) && NUL in exec.command
    ensures var file := FileNamed(img, WordOf(LineOf(exec.command)));
            && CanStep(m, img, exec)
            && var (n, control) := Step(m, img, exec);
               && Seen(n.mem, |s.live|, 0x804_8000, |file|) == file
               && control.Enter? && IsProgram(file, control.entry)
  {
    hide Inv, Launches, CanStep, Step, FileNamed, WordOf, LineOf, NameBytes, CStr, Loadable, FS.WellFormed, Wrote;
    hide IsProgram, Seen, After, GoesOn;
    LaunchStores(m, img, s, exec);
    var name, word := NameBytes(exec.command), WordOf(LineOf(exec.command));
    ScannedName(exec.command);
    NulFreeIsCStr(word);
    SameFile(img, name, word);
    LoadableIff(img, name);
    assert Base(|s.live|, 0x804_8000) == Frame(|s.live|) + 0x4_8000;
    WroteSeen(m.mem, Step(m, img, exec).0.mem, |s.live|, 0x804_8000, FileNamed(img, name));
  }

  lemma SameFile(img: FS.Image, a: seq<Byte>, b: seq<Byte>)
    requires FS.WellFormed(img) && CStr(a) == CStr(b)
    ensures FileNamed(img, a) == FileNamed(img, b)
  {
    hide FS.Contents;
    SameLookup(img, a, b, 0);
  }

  lemma LaunchStores(m: Machine, img: FS.Image, s: Stack, exec: Event)
    requires Boots(img) && s.live != [] && Inv(m, img, s) && Launches(s, img, exec)
    ensures exec.Exec? && ARGS_SIZE < |exec.command| && CanStep(m, img, exec)
    ensures Loadable(img, NameBytes(exec.command)).Some?
    ensures Step(m, img, exec).1 == Enter(Loadable(img, NameBytes(exec.command)).value.entry)
    ensures Wrote(m.mem, Step(m, img, exec).0.mem, LaunchWrite(s, img, exec.command))
  {
    hide Inv, CanStep, Step, NameBytes, ScannedArgs, Loadable, FS.WellFormed, Wrote, LaunchWrite, SlotOf, IsShell;
    LaunchIs(s, img, exec);
    StepRefines(m, img, s, exec);
  }

  /** The running process ends: the stack shrinks. */
  ghost predicate Ends(s: Stack, img: FS.Image, exit: Event)
    requires Boots(img) && s.live != []
  {
    GoesOn(s, img, exit) && |After(s, img, exit).live| < |s.live|
  }

  /** The status of a halt; `quit` halts with 0. */
  function Status(exit: Event): Byte {
    if exit.Exit? then exit.status else 0
  }

  lemma EndIs(s: Stack, img: FS.Image, exit: Event)
    requires Boots(img) && s.live != [] && Ends(s, img, exit)
    ensures 2 <= |s.live| && After(s, img, exit) == Popped(s)
    ensures StackStep(s, img, exit).1 == Resume(s.live[|s.live| - 1].regs, SignExtended(Status(exit)))
  {
    hide Loadable, NameBytes, ScannedArgs, SlotOf, FS.WellFormed, OpenSpec, ReadSpec, CloseSpec, ReadStores;
  }

  /** A process is launched by `exec`, it and its descendants do `evs`, and it ends by `exit`. */
  ghost predicate Lifetime(m: Machine, img: FS.Image, s: Stack, exec: Event, evs: seq<Event>, exit: Event) {
    && Boots(img) && s.live != [] && Inv(m, img, s) && Launches(s, img, exec)
    && RunOk(After(s, img, exec), img, evs) && StaysAbove(After(s, img, exec), img, evs, |s.live|)
    && var last := StackRun(After(s, img, exec), img, evs);
       Ends(last, img, exit) && |After(last, img, exit).live| == |s.live|
  }

  /** A process launches another. Whatever that one and its descendants do, as long as no buffer they
      hand to the kernel lies in the kernel's own 4 MiB: when it ends, by halt or by `quit`, the launcher
      resumes exactly where it called execute, with the sign-extended status, its frame mapped, its
      open files at their positions, and its memory and that of every process below it as it was. */
  lemma ResumedIntact(m: Machine, img: FS.Image, s: Stack, exec: Event, evs: seq<Event>, exit: Event)
    requires Lifetime(m, img, s, exec, evs, exit)
    ensures var last := StackRun(After(s, img, exec), img, evs);
            var end := MachineRun(Next(m, img, s, exec), img, After(s, img, exec), evs);
            && CanStep(end, img, exit)
            && var (n, control) := Step(end, img, exit);
               && control.Resume? && control.regs == exec.regs
               && -128 <= control.value < 128 && control.value % 256 == Status(exit)
               && After(last, img, exit).live == s.live
               && Inv(n, img, After(last, img, exit))
               && forall p: nat :: p < |s.live| ==> SameFrame(m.mem, n.mem, p)
  {
    hide Boots, Inv, After, GoesOn, SameFrame, Step, CanStep, StackStep, StackRun, MachineRun, RunOk, StaysAbove, Next;
    hide NameBytes, ScannedArgs;
    var d, launched := |s.live|, After(s, img, exec);
    LaunchIs(s, img, exec);
    var first, last := Next(m, img, s, exec), StackRun(launched, img, evs);
    var end := MachineRun(first, img, launched, evs);
    BelowIsKept(launched, img, evs, d);
    EndIs(last, img, exit);
    EndStep(end, img, last, exit);
    assert launched.live[..d] == s.live;
    NextIs(m, img, s, exec);
    forall p: nat | p < d
      ensures SameFrame(m.mem, Step(end, img, exit).0.mem, p)
    {
      LaunchStaysOut(m, img, s, exec, p);
      RunStaysOut(first, img, launched, evs, d, p);
      StepStaysOut(end, img, last, exit, p);
      SameFrameTwice(m.mem, first.mem, end.mem, Step(end, img, exit).0.mem, p);
    }
  }

  lemma NextIs(m: Machine, img: FS.Image, s: Stack, ev: Event)
    requires Boots(img) && s.live != [] && Inv(m, img, s) && GoesOn(s, img, ev)
    ensures CanStep(m, img, ev) && Next(m, img, s, ev) == Step(m, img, ev).0
  {
    hide Boots, Inv, CanStep, Step, StackStep;
    StepRefines(m, img, s, ev);
  }

  lemma EndStep(m: Machine, img: FS.Image, s: Stack, exit: Event)
    requires Boots(img) && s.live != [] && Inv(m, img, s) && GoesOn(s, img, exit)
    ensures CanStep(m, img, exit) && Step(m, img, exit).1 == StackStep(s, img, exit).1
    ensures EventOk(s, exit) && Inv(Step(m, img, exit).0, img, After(s, img, exit))
  {
    hide Boots, Inv, CanStep, Step, StackStep;
    StepRefines(m, img, s, exit);
  }

  lemma LaunchStaysOut(m: Machine, img: FS.Image, s: Stack, exec: Event, p: nat)
    requires Boots(img) && s.live != [] && Inv(m, img, s) && Launches(s, img, exec) && p < |s.live|
    ensures CanStep(m, img, exec) && SameFrame(m.mem, Step(m, img, exec).0.mem, p)
  {
    hide Boots, Inv, SameFrame, Execute, CanStep, StackStep;
    LaunchIs(s, img, exec);
    EndStep(m, img, s, exec);
    InvGives(m, img, s);
    ExecStaysOut(m, img, s, exec.command, exec.regs, exec.again, exec.c, p);
  }

  /** In every later state in which the launched process runs, getargs with a buffer of at least 128
      bytes, and not so many that it reads past 8 MiB, does as promised - it hands over the argument
      text of the command line, or fails when there is none - exactly when memory behind the command
      held no stray arguments. */
  lemma ArgsReachProcess(m: Machine, img: FS.Image, s: Stack, exec: Event, evs: seq<Event>, get: Event)
    requires Boots(img) && s.live != [] && Inv(m, img, s) && Launches(s, img, exec)
    requires RunOk(After(s, img, exec), img, evs) && StaysAbove(After(s, img, exec), img, evs, |s.live|)
    requires |StackRun(After(s, img, exec), img, evs).live| == |s.live| + 1
    requires NUL in exec.command
    requires get.GetArgs? && EventOk(After(s, img, exec), get) && get.va != 0
    requires ARGS_SIZE <= get.nbytes <= Room(get.va) && get.nbytes <= ArgsSpan(|s.live|)
    ensures var end := MachineRun(Next(m, img, s, exec), img, After(s, img, exec), evs);
            && CanStep(end, img, get)
            && var (n, control) := Step(end, img, get);
               var text := ArgsOf(LineOf(exec.command));
               (if text == [] then control == Return(-1)
                else control == Return(0) && CStr(Seen(n.mem, |s.live|, get.va, get.nbytes)) == text)
               <==> !StrayArgs(exec.command)
  {
    hide Boots, Inv, After, GoesOn, StackStep, StackRun, MachineRun, RunOk, StaysAbove, Next;
    hide NameBytes, ScannedArgs, CStr, ArgsOf, LineOf, StrayArgs, ArgsCall, Room, SlotOf, ArgsSpan;
    var launched := After(s, img, exec);
    LaunchIs(s, img, exec);
    var last := StackRun(launched, img, evs);
    var end := MachineRun(Next(m, img, s, exec), img, launched, evs);
    BelowIsKept(launched, img, evs, |s.live|);
    InvGives(end, img, last);
    StepRefines(end, img, last, get);
    ArgsRefines(end, img, last, get.va, get.nbytes, get.behind);
    ScannedArgsIff(exec.command);
    StrayHasNoText(exec.command);
  }

  /** Stray arguments are picked up only for a command line that has none. */
  lemma StrayHasNoText(command: seq<Byte>)
    requires NUL in command && ARGS_SIZE < |command|
    ensures StrayArgs(command) ==> ArgsOf(LineOf(command)) == []
  {
    LineBytes(command);
    WordEndInLine(command);
    hide LineOf, WordEnd, CStr, IndexOf, SkipSpaces;
  }

  // ---- The files a new process finds open ----

  /** The stack never grows above height `d` along the run. */
  ghost predicate StaysBelow(s: Stack, img: FS.Image, evs: seq<Event>, d: nat)
    requires Boots(img) && s.live != [] && RunOk(s, img, evs)
    decreases |evs|
  {
    |s.live| <= d && (evs != [] ==> StaysBelow(After(s, img, evs[0]), img, evs[1..], d))
  }

  /** What slot `d`, which is free, has open. */
  function SpareAt(s: Stack, d: nat): Table
    requires |s.live| <= d < |s.live| + |s.spare|
  {
    s.spare[d - |s.live|]
  }

  /** An event leaves the free slots alone, takes the first one, or adds one in front. */
  lemma StepShape(s: Stack, img: FS.Image, ev: Event)
    requires Boots(img) && s.live != [] && GoesOn(s, img, ev)
    ensures var r := After(s, img, ev);
            || (|r.live| == |s.live| && r.spare == s.spare)
            || (|r.live| == |s.live| + 1 && s.spare != [] && r.spare == s.spare[1..])
            || (|r.live| == |s.live| - 1 && |r.spare| == |s.spare| + 1 && r.spare[1..] == s.spare)
  {
    hide Loadable, FS.WellFormed, ScannedArgs, NameBytes, SlotOf, OpenSpec, ReadSpec, CloseSpec, ReadStores, Renewed;
    hide Left, Room, ReadFits;
  }

  lemma StepKeepsSpare(s: Stack, img: FS.Image, ev: Event, d: nat)
    requires Boots(img) && s.live != [] && s.Sized() && GoesOn(s, img, ev) && d < SLOTS
    requires |s.live| <= d && |After(s, img, ev).live| <= d
    ensures After(s, img, ev).Sized() && SpareAt(After(s, img, ev), d) == SpareAt(s, d)
  {
    hide Boots, GoesOn, After;
    StepShape(s, img, ev);
  }

  lemma {:induction false} SpareIsKept(s: Stack, img: FS.Image, evs: seq<Event>, d: nat)
    requires Boots(img) && s.live != [] && s.Sized() && RunOk(s, img, evs) && StaysBelow(s, img, evs, d) && d < SLOTS
    ensures var r := StackRun(s, img, evs);
            r.Sized() && |r.live| <= d && SpareAt(r, d) == SpareAt(s, d)
    decreases |evs|
  {
    if evs != [] {
      hide Boots, After, GoesOn;
      var next := After(s, img, evs[0]);
      assert |next.live| <= d;
      StepKeepsSpare(s, img, evs[0], d);
      SpareIsKept(next, img, evs[1..], d);
    }
  }

  /** Descriptors 6 and 7 are afterwards as before, file and position, and all of 2 to 7 are free exactly
      when those two were. */
  ghost predicate Inherits(img: FS.Image, before: seq<Desc>, after: seq<Desc>) {
    && FdsValid(img, before) && FdsValid(img, after)
    && (forall fd: nat :: 6 <= fd < MAX_FILES ==>
          && (after[fd].flag <==> before[fd].flag)
          && (after[fd].flag ==> Files(img, after)[fd] == Files(img, before)[fd]))
    && ((forall fd :: 2 <= fd < MAX_FILES ==> !after[fd].flag) <==> !before[6].flag && !before[7].flag)
  }

  /** A process in slot `d` ends; the slot stays free for a while; then a process is launched in it. The
      new process finds 6 and 7 exactly as the old one left them, file and position, so it has all of 2
      to 7 free exactly when the old one had closed both. */
  lemma SlotReused(m: Machine, img: FS.Image, s: Stack, exit: Event, evs: seq<Event>, exec: Event)
    requires Boots(img) && s.live != [] && Inv(m, img, s) && Ends(s, img, exit)
    requires var d := |s.live| - 1;
             var freed := After(s, img, exit);
             && RunOk(freed, img, evs) && StaysBelow(freed, img, evs, d)
             && |StackRun(freed, img, evs).live| == d
             && Launches(StackRun(freed, img, evs), img, exec)
    ensures var d := |s.live| - 1;
            var freed := After(s, img, exit);
            var last := StackRun(freed, img, evs);
            var n := Next(MachineRun(Next(m, img, s, exit), img, freed, evs), img, last, exec);
            d < SLOTS && m.Sized() && n.Sized() && Inherits(img, m.pcbs[d].fds, n.pcbs[d].fds)
  {
    hide Boots, Inv, After, GoesOn, StackRun, MachineRun, RunOk, StaysBelow, Next, NameBytes, ScannedArgs, FdsValid;
    hide Holds, Inherits;
    var d, freed := |s.live| - 1, After(s, img, exit);
    InvGives(m, img, s);
    EndIs(s, img, exit);
    SpareIsKept(freed, img, evs, d);
    var last := StackRun(freed, img, evs);
    LaunchIs(last, img, exec);
    var started := After(last, img, exec);
    assert SpareAt(freed, d) == Left(s.live[d].files);
    assert started.live[d].files == Renewed(Left(s.live[d].files));
    var n := Next(MachineRun(Next(m, img, s, exit), img, freed, evs), img, last, exec);
    InvGives(n, img, started);
    HeldFiles(img, m.pcbs[d], d, s.live[d]);
    HeldFiles(img, n.pcbs[d], d, started.live[d]);
    Inherited(img, m.pcbs[d].fds, n.pcbs[d].fds);
  }

  lemma HeldFiles(img: FS.Image, pcb: Pcb, i: nat, l: Launch)
    requires Holds(img, pcb, i, l)
    ensures FdsValid(img, pcb.fds) && Files(img, pcb.fds) == l.files
  {
  }

  lemma Inherited(img: FS.Image, before: seq<Desc>, after: seq<Desc>)
    requires |before| == |after| == MAX_FILES && FdsValid(img, before) && FdsValid(img, after)
    requires Files(img, after) == Renewed(Left(Files(img, before)))
    ensures Inherits(img, before, after)
  {
    hide FdsValid;
    var was, now := Files(img, before), Files(img, after);
    assert forall fd: nat :: 2 <= fd < MAX_FILES ==> (fd in now <==> 6 <= fd && fd in was);
    assert forall fd: nat :: fd < MAX_FILES ==> (fd in now <==> after[fd].flag);
    assert forall fd: nat :: fd < MAX_FILES ==> (fd in was <==> before[fd].flag);
  }

  /** The running process halts, or executes `quit`. */
  ghost predicate Halts(s: Stack, ev: Event) {
    EventOk(s, ev) && (ev.Exit? || (ev.Exec? && NameBytes(ev.command)[..4] == QUIT))
  }

  /** The same for the root shell, whose slot is free for no time at all. */
  lemma ShellReused(m: Machine, img: FS.Image, s: Stack, exit: Event)
    requires Boots(img) && |s.live| == 1 && Inv(m, img, s) && Halts(s, exit)
    ensures GoesOn(s, img, exit)
    ensures var n := Next(m, img, s, exit);
            m.Sized() && n.Sized() && Inherits(img, m.pcbs[0].fds, n.pcbs[0].fds)
  {
    hide Boots, Inv, After, GoesOn, Next, FdsValid, Holds, Halts, Inherits, Renewed, Left, StackStep, Slots;
    hide RunsProcess, Coherent, Paged;
    InvGives(m, img, s);
    ShellFiles(s, img, exit);
    var n, started := Next(m, img, s, exit), After(s, img, exit);
    InvGives(n, img, started);
    HeldFiles(img, m.pcbs[0], 0, s.live[0]);
    HeldFiles(img, n.pcbs[0], 0, started.live[0]);
    Inherited(img, m.pcbs[0].fds, n.pcbs[0].fds);
  }

  lemma ShellFiles(s: Stack, img: FS.Image, exit: Event)
    requires Boots(img) && |s.live| == 1 && Halts(s, exit)
    ensures GoesOn(s, img, exit) && |After(s, img, exit).live| == 1
    ensures After(s, img, exit).live[0].files == Renewed(Left(s.live[0].files))
  {
    hide Boots, After, GoesOn, NameBytes, ScannedArgs, Halts, Renewed, Left, StackStep;
    ShellAfter(s, img, exit);
  }

  lemma ShellAfter(s: Stack, img: FS.Image, exit: Event)
    requires Boots(img) && |s.live| == 1 && Halts(s, exit)
    ensures GoesOn(s, img, exit) && ARGS_SIZE < |exit.again.command|
    ensures After(s, img, exit) == Pushed(Popped(s), exit.again.regs, ScannedArgs(exit.again.command))
    ensures StackStep(s, img, exit).1 == Enter(Loadable(img, SHELL).value.entry)
  {
    hide Loadable, FS.WellFormed, NameBytes, ScannedArgs, SlotOf;
    HaltGoesOn(s, img, Status(exit), exit.again);
    ShellLoads(img, exit.again.command);
    assert exit.Exec? ==> NameBytes(exit.command)[0] == NameBytes(exit.command)[..4][0] == QUIT[0];
  }

  // ---- What is reached ----

  /** In every reachable state user code reaches, through the cache as it is, exactly its own frame at
      128 MiB and the eight video pages. */
  lemma UserSeesOwnFrame(m: Machine, img: FS.Image, s: Stack, vpn: nat)
    requires Inv(m, img, s) && vpn < WORD / KB4
    ensures var w := Translate(m.mmu, vpn);
            && (w.Mapped? && w.page.user <==>
                  || vpn / 1024 == USER_DIR
                  || (vpn / 1024 == VIDEO_DIR && VIDEO_FIRST <= vpn % 1024 < VIDEO_END))
            && (vpn / 1024 == USER_DIR ==> w.page.phys == Frame(|s.live| - 1) + vpn % 1024 * KB4)
            && (w.Mapped? && w.page.user && vpn / 1024 == VIDEO_DIR ==> w.page.phys == vpn % 1024 * KB4)
  {
    hide Slots, StackTop;
    UserReach(m.mmu, |s.live| - 1, vpn);
    CoherentTranslates(m.mmu, vpn);
    hide RunsProcess, Coherent, Walk, Translate;
  }

  /** From boot through every run: whenever the root shell halts or quits, a shell is started again. */
  lemma RootHaltRestarts(boot: Machine, img: FS.Image, command: seq<Byte>, regs: Regs, again: Again, c: Cached,
                         evs: seq<Event>, exit: Event)
    requires Booted(boot) && IsShell(command) && IsShell(again.command) && SlotOf(regs.esp).Some?
    requires Boots(img)   // or nothing ever runs: BootEntersIff
    requires RunOk(FirstStack(command, regs), img, evs)
    requires var last := StackRun(FirstStack(command, regs), img, evs); |last.live| == 1 && Halts(last, exit)
    ensures var m := Execute(boot, img, command, regs, again, c).0;
            var s, last := FirstStack(command, regs), StackRun(FirstStack(command, regs), img, evs);
            && Inv(m, img, s)
            && var end := MachineRun(m, img, s, evs);
               && CanStep(end, img, exit)
               && Step(end, img, exit).1 == Enter(Loadable(img, SHELL).value.entry)
               && GoesOn(last, img, exit) && |After(last, img, exit).live| == 1
               && Inv(Step(end, img, exit).0, img, After(last, img, exit))
  {
    assert boot.Sized() && FS.WellFormed(img);
    hide Boots, Inv, Booted, After, GoesOn, Step, CanStep, StackStep, StackRun, MachineRun, RunOk, Execute, Loadable;
    hide SlotOf, ScannedArgs, Halts;
    BootLaunches(boot, img, command, regs, again, c);
    var m, s := Execute(boot, img, command, regs, again, c).0, FirstStack(command, regs);
    var last, end := StackRun(s, img, evs), MachineRun(m, img, s, evs);
    ShellAfter(last, img, exit);
    EndStep(end, img, last, exit);
  }

  /** The halt of the root shell leaves a running process exactly when the shell can be loaded and fits. */
  lemma RootHaltIff(m: Machine, img: FS.Image, s: Stack, status: Byte, regs: Regs, again: Again, c: Cached)
    requires FS.WellFormed(img) && m.Sized() && Inv(m, img, s) && |s.live| == 1 && IsShell(again.command)
    requires SlotOf(regs.esp) == FS.Some(0) && SlotOf(again.regs.esp) == FS.Some(0)
    ensures Boots(img) <==> exists t: Stack :: Inv(Halt(m, img, status, regs, again, c).0, img, t)
  {
    hide Loadable, FS.WellFormed, CStr, SlotOf, Inv, NameBytes, ScannedArgs, Slots, Ended, StoreAll, Switch;
    var n := Halt(m, img, status, regs, again, c).0;
    ShellLoads(img, again.command);
    if Boots(img) {
      HaltRefines(m, img, s, status, regs, again, c);
      HaltGoesOn(s, img, status, again);
    } else {
      NoneActive(m, img, s, status, regs, again, c);
      forall t: Stack
        ensures !Inv(n, img, t)
      {
        if Inv(n, img, t) {
          FirstActive(n, img, t);
        }
      }
    }
  }

  lemma FirstActive(m: Machine, img: FS.Image, s: Stack)
    requires Inv(m, img, s)
    ensures m.Sized() && m.pcbs[0].active
  {
    hide RunsProcess, Coherent, SlotOf, CStr, FdsValid;
    assert Holds(img, m.pcbs[0], 0, s.live[0]);
  }

  lemma NoneActive(m: Machine, img: FS.Image, s: Stack, status: Byte, regs: Regs, again: Again, c: Cached)
    requires FS.WellFormed(img) && m.Sized() && Inv(m, img, s) && |s.live| == 1 && IsShell(again.command)
    requires SlotOf(regs.esp) == FS.Some(0)
    requires Loadable(img, NameBytes(again.command)).None?
             || PROGRAM_ROOM < |Loadable(img, NameBytes(again.command)).value.bytes|
    ensures var n := Halt(m, img, status, regs, again, c).0; |n.pcbs| == SLOTS && !n.pcbs[0].active
  {
    hide Loadable, FS.WellFormed, CStr, SlotOf, Inv, NameBytes, ScannedArgs, Slots, Switch, StoreAll, NewPcb, Paged;
    ShellStarts(again.command);
    InvGives(m, img, s);
    TopParent(m, img, s);
    SlotsPop(m.pcbs, img, s);
    FirstFreeSlot(EndSlot(m, 0).pcbs, img, Popped(s));
    SwitchCoherent(m.mmu, 0, c, UserEntry(0));
    if Loadable(img, NameBytes(again.command)).Some? {
      var bytes := Loadable(img, NameBytes(again.command)).value.bytes;
      StoreAllLands(m.mem, Switch(m.mmu, 0, c), 0, USER_BASE + PROC_OFFSET, bytes);
    }
  }

  // ---- The premises can be met ----

  /** An image whose only program is a shell of 40 bytes. */
  function ShellImage(): FS.Image {
    FS.Image(1, seq(64, i => FS.Dentry(SHELL, 2, 0)), [FS.Inode(40, seq(FS.MAX_BLOCKS, i => 0))],
             [MAGIC + Zeros(FS.BLKSIZE - 4)])
  }

  lemma ShellImageBoots()
    ensures Boots(ShellImage())
  {
    var img := ShellImage();
    assert FS.WellFormedInode(img, img.inodes[0]);
    assert FS.WellFormed(img);
    assert FS.LookupFrom(img, SHELL, 0) == FS.Some(img.dirs[0]);
    var bytes := FS.Contents(img, 0);
    assert Header(bytes)[..4] == MAGIC by {
      FS.ContentsAt(img, 0, 0);
      FS.ContentsAt(img, 0, 1);
      FS.ContentsAt(img, 0, 2);
      FS.ContentsAt(img, 0, 3);
    }
  }

  const SHELL_COMMAND: seq<Byte> := SHELL + Zeros(97)

  function BootMachine(): Machine {
    var d := Desc(OnTerminal, 0, 0, false);
    var pcb := Pcb(seq(MAX_FILES, i => d), Zeros(ARGS_SIZE), 0, 0, 0, 0, false);
    Machine(seq(SLOTS, i => pcb), Mmu(PageDirectory(0, 0), VideoTable(), 0, map[]), MB8, map[])
  }

  lemma ShellLaunches(s: Stack, img: FS.Image, exec: Event)
    requires Boots(img) && s.live != [] && s.spare != [] && exec.Exec? && EventOk(s, exec) && IsShell(exec.command)
    ensures GoesOn(s, img, exec) && Launches(s, img, exec) && |After(s, img, exec).live| == |s.live| + 1
  {
    hide FS.WellFormed, Loadable, NameBytes, ScannedArgs, SlotOf;
    ShellStarts(exec.command);
    ShellLoads(img, exec.command);
  }

  lemma StoreGoesOn(s: Stack, img: FS.Image, d: nat)
    requires Boots(img) && s.live != [] && d < |s.live|
    ensures var evs := [UserStore(USER_BASE, 1)];
            RunOk(s, img, evs) && StackRun(s, img, evs) == s && StaysAbove(s, img, evs, d)
  {
    var evs := [UserStore(USER_BASE, 1)];
    assert evs[1..] == [] && After(s, img, evs[0]) == s;
    assert RunOk(s, img, []) && StackRun(s, img, []) == s && StaysAbove(s, img, [], d);
  }

  lemma ExitEnds(s: Stack, img: FS.Image, exit: Event)
    requires Boots(img) && 2 <= |s.live| && exit.Exit? && EventOk(s, exit)
    ensures Ends(s, img, exit) && |After(s, img, exit).live| == |s.live| - 1
  {
    hide FS.WellFormed, Loadable, SlotOf;
  }

  lemma SomeMachineBoots() returns (m: Machine, img: FS.Image, s: Stack)
    ensures Boots(img) && Inv(m, img, s) && |s.live| == 1 && s.spare == NoTables(5) && s.live[0].files == FIRST_FILES
  {
    img := ShellImage();
    ShellImageBoots();
    var regs, none := Regs(0x7F_FF00, 0x7F_FF40), Cached([], []);
    assert SHELL_COMMAND[..6] == [115, 104, 101, 108, 108, NUL];
    SlotOfIff(regs.esp, 0);
    assert Booted(BootMachine());
    hide ShellImage, BootMachine, Booted, Inv, FS.WellFormed, Loadable, ScannedArgs, Boots, Execute, SlotOf;
    BootLaunches(BootMachine(), img, SHELL_COMMAND, regs, Again(regs, SHELL_COMMAND), none);
    m := Execute(BootMachine(), img, SHELL_COMMAND, regs, Again(regs, SHELL_COMMAND), none).0;
    s := FirstStack(SHELL_COMMAND, regs);
  }

  lemma LaunchAndReturn(m: Machine, img: FS.Image, s: Stack, exec: Event, exit: Event)
    requires Boots(img) && Inv(m, img, s) && s.live != [] && s.spare != []
    requires exec.Exec? && EventOk(s, exec) && IsShell(exec.command)
    requires exit.Exit? && forall t: Stack :: |t.live| == |s.live| + 1 ==> EventOk(t, exit)
    ensures Lifetime(m, img, s, exec, [UserStore(USER_BASE, 1)], exit)
  {
    hide Inv, Boots, SlotOf, Launches, Ends, RunOk, StackRun, StaysAbove, After, GoesOn, EventOk;
    ShellLaunches(s, img, exec);
    StoreGoesOn(After(s, img, exec), img, |s.live|);
    ExitEnds(After(s, img, exec), img, exit);
  }

  /** There is a machine that boots a shell, from which another shell is launched, stores a byte and
      ends, so ResumedIntact speaks about something. */
  lemma SomeLaunchReturns() returns (m: Machine, img: FS.Image, s: Stack, exec: Event, evs: seq<Event>, exit: Event)
    ensures evs != [] && Lifetime(m, img, s, exec, evs, exit)
  {
    assert SHELL_COMMAND[..6] == [115, 104, 101, 108, 108, NUL];
    var none, at0, at1 := Cached([], []), Regs(0x7F_FF00, 0x7F_FF40), Regs(0x7F_DF00, 0x7F_DF40);
    SlotOfIff(at0.esp, 0);
    SlotOfIff(at1.esp, 1);
    hide Lifetime, Inv, Boots, SlotOf;
    m, img, s := SomeMachineBoots();
    exec := Exec(SHELL_COMMAND, at0, Again(at0, SHELL_COMMAND), none);
    evs := [UserStore(USER_BASE, 1)];
    exit := Exit(0, at1, Again(at1, SHELL_COMMAND), none);
    LaunchAndReturn(m, img, s, exec, exit);
  }

  /** The descriptors in use are those below `k`. */
  ghost predicate UsedBelow(t: Table, k: nat) {
    forall fd: nat :: fd in t <==> fd < k
  }

  /** The running process opens the shell's file until descriptor 6 is in use. */
  lemma OpenUntilSix(m: Machine, img: FS.Image, s: Stack, k: nat, esp: Word) returns (n: Machine, t: Stack)
    requires Boots(img) && Inv(m, img, s) && s.live != [] && SlotOf(esp) == FS.Some(|s.live| - 1) && 2 <= k <= 7
    requires UsedBelow(s.live[|s.live| - 1].files, k)
    ensures Inv(n, img, t) && |t.live| == |s.live| && |t.spare| == |s.spare|
    ensures UsedBelow(t.live[|t.live| - 1].files, 7)
    decreases 7 - k
  {
    hide Boots, Inv, After, GoesOn, SlotOf, UsedBelow, StackStep, Next;
    if k == 7 {
      return m, s;
    }
    var ev := Io(Open(SHELL), 0, [], esp);
    OpenTakes(s, img, ev, k);
    n, t := OpenUntilSix(Next(m, img, s, ev), img, After(s, img, ev), k + 1, esp);
  }

  lemma OpenTakes(s: Stack, img: FS.Image, ev: Event, k: nat)
    requires Boots(img) && s.live != [] && ev.Io? && ev.call == Open(SHELL) && EventOk(s, ev) && 2 <= k < MAX_FILES
    requires UsedBelow(s.live[|s.live| - 1].files, k)
    ensures GoesOn(s, img, ev)
    ensures var t := After(s, img, ev);
            |t.live| == |s.live| && t.spare == s.spare && UsedBelow(t.live[|t.live| - 1].files, k + 1)
  {
    hide FS.WellFormed, FS.Contents, SlotOf, FS.Lookup, FS.Listed;
    FS.IsListed(img);
    var files := s.live[|s.live| - 1].files;
    assert LeastFree(files, 2) == k;
    assert FS.Lookup(img, SHELL).Some? && FS.Lookup(img, SHELL).value.ft == 2;
  }

  lemma NoEvents(m: Machine, img: FS.Image, s: Stack, d: nat)
    requires Boots(img) && s.live != [] && Inv(m, img, s) && |s.live| <= d
    ensures RunOk(s, img, []) && StaysBelow(s, img, [], d)
    ensures StackRun(s, img, []) == s && MachineRun(m, img, s, []) == m
  {
  }

  /** A process with nothing open opens five files and ends; what the shell below it launches next does
      not find 2 to 7 free. */
  lemma SlotKeepsFile(m: Machine, img: FS.Image, s: Stack, exit: Event, exec: Event)
    returns (after: Machine, freed: Stack)
    requires Boots(img) && Inv(m, img, s) && |s.live| == 2 && UsedBelow(s.live[1].files, 2)
    requires exit.Exit? && exec.Exec? && IsShell(exec.command)
    requires forall r: Stack :: |r.live| == 2 ==> EventOk(r, exit)
    requires forall r: Stack :: |r.live| == 1 ==> EventOk(r, exec)
    ensures Inv(after, img, freed) && |freed.live| == 1 && Launches(freed, img, exec)
    ensures var n := Next(after, img, freed, exec); n.Sized() && n.pcbs[1].fds[6].flag
  {
    assert EventOk(s, exit);
    assert SlotOf(exit.regs.esp) == FS.Some(1);
    hide Inv, Boots, SlotOf, Launches, Ends, After, GoesOn, Next, RunOk, StaysBelow, StackRun, MachineRun, EventOk;
    var full, u := OpenUntilSix(m, img, s, 2, exit.regs.esp);
    ExitEnds(u, img, exit);
    EndGoesOn(u, img, exit);
    freed, after := After(u, img, exit), Next(full, img, u, exit);
    EndIs(u, img, exit);
    ShellLaunches(freed, img, exec);
    NoEvents(after, img, freed, 1);
    SlotReused(full, img, u, exit, [], exec);
    InvGives(full, img, u);
    HeldFiles(img, full.pcbs[1], 1, u.live[1]);
  }

  lemma EndGoesOn(s: Stack, img: FS.Image, exit: Event)
    requires Boots(img) && s.live != [] && Ends(s, img, exit)
    ensures GoesOn(s, img, exit)
  {
  }

  /** There is such a machine: the property that a new process has 2 to 7 free fails of the source. */
  lemma SomeSlotKeepsFile() returns (m: Machine, img: FS.Image, s: Stack, exec: Event)
    ensures Boots(img) && s.live != [] && Inv(m, img, s) && |s.live| == 1 && Launches(s, img, exec)
    ensures var n := Next(m, img, s, exec); n.Sized() && n.pcbs[1].fds[6].flag
  {
    assert SHELL_COMMAND[..6] == [115, 104, 101, 108, 108, NUL];
    var none, at0, at1 := Cached([], []), Regs(0x7F_FF00, 0x7F_FF40), Regs(0x7F_DF00, 0x7F_DF40);
    SlotOfIff(at0.esp, 0);
    SlotOfIff(at1.esp, 1);
    hide Inv, Boots, SlotOf, Launches, After, GoesOn, Next, UsedBelow;
    var boot, first;
    boot, img, first := SomeMachineBoots();
    exec := Exec(SHELL_COMMAND, at0, Again(at0, SHELL_COMMAND), none);
    FirstChild(first, img, exec);
    var exit := Exit(0, at1, Again(at1, SHELL_COMMAND), none);
    m, s := SlotKeepsFile(Next(boot, img, first, exec), img, After(first, img, exec), exit, exec);
  }

  lemma FirstChild(s: Stack, img: FS.Image, exec: Event)
    requires Boots(img) && |s.live| == 1 && s.spare == NoTables(5) && exec.Exec? && EventOk(s, exec)
    requires IsShell(exec.command)
    ensures GoesOn(s, img, exec)
    ensures |After(s, img, exec).live| == 2 && UsedBelow(After(s, img, exec).live[1].files, 2)
  {
    hide Boots, SlotOf, Launches, After, GoesOn, UsedBelow, Renewed, NameBytes, ScannedArgs, EventOk;
    ShellLaunches(s, img, exec);
    LaunchIs(s, img, exec);
    NothingInherited();
  }

  lemma NothingInherited()
    ensures UsedBelow(Renewed(map[]), 2)
  {
  }
}
