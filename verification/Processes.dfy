/** The system calls as transitions of the machine (student-distrib/syscall.c): six slots, a process
    control block at the bottom of each slot's kernel stack, one 4 MiB frame per slot mapped at
    128 MiB, and the TSS. */
module Processes {
  import opened Bytes
  import opened Paging
  import FS = FileSystem
  import opened Descriptors
  import opened Command

  const SLOTS: nat := 6            // MAX_PROCESSES
  const MB8: nat := 0x80_0000
  const KB8: nat := 0x2000
  const PROC_OFFSET: nat := 0x4_8000
  const PROGRAM_ROOM: nat := MB4 - PROC_OFFSET
  const NO_PARENT: Word := 0xFFFF_FFFF

  // ---- Process control blocks and the stack pointer ----

  datatype Pcb = Pcb(fds: seq<Desc>, args: seq<Byte>, pid: Word, parent: Word,
                     savedEsp: Word, savedEbp: Word, active: bool)
  {
    ghost predicate Sized() {
      |fds| == MAX_FILES && |args| == ARGS_SIZE
    }
  }

  /** get_pcb: the slot whose kernel stack the stack pointer is in, by 32-bit arithmetic. */
  function SlotOf(esp: Word): (r: FS.Option<nat>)
    ensures r.Some? ==> r.value < SLOTS
  {
    var e := (0x3FF - esp / KB8) % WORD;
    if SLOTS <= e then FS.None else FS.Some(e)
  }

  /** curr_pcb[p] */
  function PcbAddress(p: nat): int {
    MB8 - (p + 1) * KB8
  }

  /** The slot is found from every stack pointer in the slot's 8 KiB, whose lowest byte is the control
      block's address, and from no other. */
  lemma SlotOfIff(esp: Word, p: nat)
    requires p < SLOTS
    ensures SlotOf(esp) == FS.Some(p) <==> PcbAddress(p) <= esp < PcbAddress(p) + KB8
  {
    var q := esp / KB8;
    assert esp == KB8 * q + esp % KB8;
    if q <= 0x3FF {
      assert (0x3FF - q) % WORD == 0x3FF - q;
    } else {
      assert (0x3FF - q) % WORD == 0x3FF - q + WORD;
    }
  }

  /** tss.esp0 = 8 MiB - pid * 8 KiB - 4, in 32 bits. */
  function StackTop(pid: Word): Word {
    (MB8 - pid * KB8 - 4) % WORD
  }

  lemma StackTopSlot(p: nat)
    requires p < SLOTS
    ensures SlotOf(StackTop(p)) == FS.Some(p)
  {
    assert StackTop(p) == MB8 - p * KB8 - 4;
    SlotOfIff(StackTop(p), p);
  }

  const PCB_SIZE: nat := 276   // eight descriptors of 16 bytes, the arguments, five words

  /** The trap stack is empty at the top of the slot, and whatever is pushed down to the control block
      stays in the slot. */
  lemma PushesStay(p: nat, pushed: nat)
    requires p < SLOTS && pushed <= KB8 - 4 - PCB_SIZE
    ensures StackTop(p) + 4 == PcbAddress(p) + KB8
    ensures PcbAddress(p) + PCB_SIZE <= StackTop(p) - pushed && SlotOf(StackTop(p) - pushed) == FS.Some(p)
  {
    assert StackTop(p) == MB8 - p * KB8 - 4;
    SlotOfIff(StackTop(p) - pushed, p);
  }

  // ---- Physical memory, written through the translation ----

  type Memory = map<nat, Byte>

  function ByteAt(mem: Memory, a: nat): Byte {
    if a in mem then mem[a] else 0
  }

  /** Memory after a copy, and whether the copy got to its end. */
  datatype Copied = Copied(mem: Memory, whole: bool)

  /** The kernel stores bytes one by one from a virtual address on; a page that is not there is a fault
      and ends the copy. The last page of the address space is never mapped, so the address does not
      wrap around. */
  function StoreAll(mem: Memory, mmu: Mmu, va: nat, bytes: seq<Byte>): Copied
    requires mmu.Sized()
    decreases |bytes|
  {
    if bytes == [] then Copied(mem, true)
    else if WORD <= va then Copied(mem, false)
    else
      match Translate(mmu, va / KB4)
      case NotPresent => Copied(mem, false)
      case Mapped(page) => StoreAll(mem[page.phys + va % KB4 := bytes[0]], mmu, va + 1, bytes[1..])
  }

  /** How many bytes from `va` on are mapped without a gap. */
  function Room(va: nat): nat {
    if USER_BASE <= va < USER_BASE + MB4 then USER_BASE + MB4 - va
    else if MB4 <= va < 2 * MB4 then 2 * MB4 - va
    else if VIDEO_FIRST * KB4 <= va < VIDEO_END * KB4 then VIDEO_END * KB4 - va
    else if HIGH_VIDEO + VIDEO_FIRST * KB4 <= va < HIGH_VIDEO + VIDEO_END * KB4 then HIGH_VIDEO + VIDEO_END * KB4 - va
    else 0
  }

  /** The physical byte the first one is stored to. */
  function Base(pid: nat, va: nat): nat {
    match PhysOf(pid, va)
    case At(a) => a
    case Unmapped => 0
  }

  /** How many of `n` bytes are stored. */
  function Fitting(va: nat, n: nat): (r: nat)
    ensures r <= n
  {
    if n <= Room(va) then n else Room(va)
  }

  /** `n` bytes lie one behind the other from `base` on, and nothing else changed. */
  ghost predicate Landed(before: Memory, after: Memory, base: nat, bytes: seq<Byte>, n: nat)
    requires n <= |bytes|
  {
    && (forall k :: 0 <= k < n ==> ByteAt(after, base + k) == bytes[k])
    && (forall a: nat :: a < base || base + n <= a ==> ByteAt(after, a) == ByteAt(before, a))
  }

  /** A copy by the kernel while `pid` runs: it gets to its end exactly when there is room, the bytes
      that fit lie one behind the other in physical memory, and nothing else changes. */
  lemma {:induction false} StoreAllLands(mem: Memory, mmu: Mmu, pid: nat, va: nat, bytes: seq<Byte>)
    requires mmu.Sized() && RunsProcess(mmu, pid) && Coherent(mmu)
    ensures StoreAll(mem, mmu, va, bytes).whole <==> |bytes| <= Room(va)
    ensures Landed(mem, StoreAll(mem, mmu, va, bytes).mem, Base(pid, va), bytes, Fitting(va, |bytes|))
    decreases |bytes|
  {
    hide RunsProcess, Coherent, StoreAll, Landed, Room, Base, Fitting;
    RoomStep(pid, va);
    FittingStep(va, |bytes|);
    StoreStep(mem, mmu, pid, va, bytes);
    if bytes != [] && 0 < Room(va) {
      StoreAllLands(mem[Base(pid, va) := bytes[0]], mmu, pid, va + 1, bytes[1..]);
      LandedStep(mem, StoreAll(mem, mmu, va, bytes).mem, Base(pid, va), bytes, Fitting(va, |bytes|), Base(pid, va + 1));
    } else {
      NoneLanded(mem, Base(pid, va), bytes);
    }
  }

  lemma StoreStep(mem: Memory, mmu: Mmu, pid: nat, va: nat, bytes: seq<Byte>)
    requires RunsProcess(mmu, pid) && Coherent(mmu)
    ensures StoreAll(mem, mmu, va, bytes) ==
            if bytes == [] || Room(va) == 0 then Copied(mem, bytes == [])
            else StoreAll(mem[Base(pid, va) := bytes[0]], mmu, va + 1, bytes[1..])
  {
    assert mmu.Sized();
    hide RunsProcess, Coherent, Translate, Room, PhysOf;
    RoomStep(pid, va);
    if va < WORD {
      PhysOfIsWalk(mmu, pid, va);
    }
  }

  lemma NoneLanded(mem: Memory, base: nat, bytes: seq<Byte>)
    ensures Landed(mem, mem, base, bytes, 0)
  {
  }

  lemma LandedStep(before: Memory, after: Memory, base: nat, bytes: seq<Byte>, n: nat, following: nat)
    requires 0 < n <= |bytes| && Landed(before[base := bytes[0]], after, following, bytes[1..], n - 1)
    requires 1 < n ==> following == base + 1
    ensures Landed(before, after, base, bytes, n)
  {
    var next := before[base := bytes[0]];
    forall k | 0 <= k < n
      ensures ByteAt(after, base + k) == bytes[k]
    {
      if k != 0 {
        assert ByteAt(after, following + (k - 1)) == bytes[1..][k - 1];
      } else {
        assert ByteAt(after, base) == ByteAt(next, base);
      }
    }
  }

  lemma FittingStep(va: nat, n: nat)
    ensures n == 0 || Room(va) == 0 ==> Fitting(va, n) == 0
    ensures 0 < n && 0 < Room(va) ==> Fitting(va, n) == Fitting(va + 1, n - 1) + 1 <= Room(va)
  {
  }

  lemma RoomStep(pid: nat, va: nat)
    ensures 0 < Room(va) <==> PhysOf(pid, va).At?
    ensures 0 < Room(va) ==> Room(va + 1) == Room(va) - 1
    ensures 1 < Room(va) ==> Base(pid, va + 1) == Base(pid, va) + 1
    ensures WORD <= va ==> Room(va) == 0
  {
  }

  /** What the bytes behind a virtual buffer are. */
  function Seen(mem: Memory, pid: nat, va: nat, n: nat): (r: seq<Byte>)
    ensures |r| == n && forall k :: 0 <= k < n ==> r[k] == ByteAt(mem, Base(pid, va) + k)
  {
    seq<Byte>(n, k requires 0 <= k < n => ByteAt(mem, Base(pid, va) + k))
  }

  /** A copy that got to its end can be read back. */
  lemma CopySeen(mem: Memory, mmu: Mmu, pid: nat, va: nat, bytes: seq<Byte>)
    requires mmu.Sized() && RunsProcess(mmu, pid) && Coherent(mmu) && |bytes| <= Room(va)
    ensures Seen(StoreAll(mem, mmu, va, bytes).mem, pid, va, |bytes|) == bytes
  {
    hide RunsProcess, Coherent, StoreAll, Room, Base;
    StoreAllLands(mem, mmu, pid, va, bytes);
  }

  /** A copy of `n` bytes to `va` stores to the physical byte `a`. */
  predicate Stores(pid: nat, va: nat, n: nat, a: nat) {
    Base(pid, va) <= a < Base(pid, va) + n
  }

  /** The kernel does not check where a caller's buffer lies. A copy into it stores into the 8 KiB of
      some slot's control block and kernel stack, or anywhere into the kernel's 4 MiB, exactly when the
      buffer, as the caller numbers it, meets them; it never stores into another process's frame. */
  lemma CopyMeetsBlockIff(pid: nat, va: nat, n: nat, q: nat)
    requires pid < SLOTS && q < SLOTS && n <= Room(va)
    ensures (exists a: nat :: Stores(pid, va, n, a) && PcbAddress(q) <= a < PcbAddress(q) + KB8)
       <==> 0 < n && va < PcbAddress(q) + KB8 && PcbAddress(q) < va + n
    ensures (exists a: nat :: Stores(pid, va, n, a) && MB4 <= a < 2 * MB4) <==> 0 < n && MB4 <= va < 2 * MB4
    ensures q != pid ==> forall a: nat :: Stores(pid, va, n, a) ==> !(Frame(q) <= a < Frame(q) + MB4)
  {
    var low, high := PcbAddress(q), PcbAddress(q) + KB8;
    assert MB4 <= low && high <= 2 * MB4;
    if 0 < n && va < high && low < va + n {
      assert Base(pid, va) == va;
      assert Stores(pid, va, n, if va < low then low else va);
    }
    if 0 < n && MB4 <= va < 2 * MB4 {
      assert Stores(pid, va, n, va);
    }
  }

  // ---- Programs ----

  datatype Program = Program(bytes: seq<Byte>, entry: Word)

  const MAGIC: seq<Byte> := [0x7F, 0x45, 0x4C, 0x46]   // DEL, "ELF"

  /** The first 40 bytes of the file, over a zeroed buffer. */
  function Header(bytes: seq<Byte>): (h: seq<Byte>)
    ensures |h| == 40
  {
    seq(40, i requires 0 <= i < 40 => if i < |bytes| then bytes[i] else 0)
  }

  function EntryPoint(h: seq<Byte>): Word
    requires |h| == 40
  {
    LittleEndian(h[24], h[25], h[26], h[27])
  }

  /** The program a name stands for: a regular file that starts with the ELF magic number. */
  ghost function Loadable(img: FS.Image, name: seq<Byte>): (r: FS.Option<Program>)
    requires FS.WellFormed(img)
    ensures r.Some? ==> |r.value.bytes| <= FS.MAX_BLOCKS * FS.BLKSIZE
  {
    match FS.Lookup(img, name)
    case None => FS.None
    case Some(d) =>
      if d.ft != 2 || |img.inodes| <= d.ind then FS.None
      else
        var bytes := FS.Contents(img, d.ind);
        assert FS.WellFormedInode(img, img.inodes[d.ind]);
        if Header(bytes)[..4] == MAGIC then FS.Some(Program(bytes, EntryPoint(Header(bytes)))) else FS.None
  }

  /** The file with this name, or nothing. */
  ghost function FileNamed(img: FS.Image, name: seq<Byte>): seq<Byte>
    requires FS.WellFormed(img)
  {
    match FS.Lookup(img, name)
    case Some(d) => if d.ind < |img.inodes| then FS.Contents(img, d.ind) else []
    case None => []
  }

  function ByteOr0(s: seq<Byte>, i: nat): Byte {
    if i < |s| then s[i] else 0
  }

  const ELF: seq<Byte> := [127] + Ascii("ELF")
  const QUIT_WORD: seq<Byte> := Ascii("quit")

  /** The file begins with DEL and "ELF", and the word at its bytes 24 to 27, lowest first, is the entry
      point; what a short file does not have is 0. */
  ghost predicate IsProgram(file: seq<Byte>, entry: int) {
    && ELF <= file
    && entry == ByteOr0(file, 24) + 256 * ByteOr0(file, 25) + 65536 * ByteOr0(file, 26) + 16777216 * ByteOr0(file, 27)
  }

  /** What can be executed: exactly the regular files that begin with DEL and "ELF". */
  lemma LoadableIff(img: FS.Image, name: seq<Byte>)
    requires FS.WellFormed(img)
    ensures var found, file, program := FS.Lookup(img, name), FileNamed(img, name), Loadable(img, name);
            && (program.Some? <==> found.Some? && found.value.ft == 2 && ELF <= file)
            && (program.Some? ==> program.value.bytes == file && IsProgram(file, program.value.entry))
  {
    hide FS.Contents, FS.Lookup;
    var found, file := FS.Lookup(img, name), FileNamed(img, name);
    if found.Some? && found.value.ft == 2 {
      LookupWellFormed(img, name);
      hide FS.WellFormed;
      HeaderIff(file);
    }
  }

  lemma HeaderIff(file: seq<Byte>)
    ensures Header(file)[..4] == MAGIC <==> ELF <= file
    ensures ELF <= file ==> IsProgram(file, EntryPoint(Header(file)))
  {
    var h := Header(file);
    assert ELF == MAGIC;
    assert forall i :: 0 <= i < 4 ==> h[..4][i] == ByteOr0(file, i);
    if h[..4] == MAGIC {
      assert forall i :: 0 <= i < 4 ==> ByteOr0(file, i) == MAGIC[i];
      assert ByteOr0(file, 3) != 0;
      assert file[..4] == MAGIC;
    }
    if ELF <= file {
      assert h[..4] == MAGIC;
    }
  }

  // ---- The machine ----

  datatype Machine = Machine(pcbs: seq<Pcb>, mmu: Mmu, esp0: Word, mem: Memory) {
    ghost predicate Sized() {
      && |pcbs| == SLOTS && mmu.Sized()
      && forall i :: 0 <= i < SLOTS ==> pcbs[i].Sized()
    }
  }

  /** The stack and base pointer inside a system call. */
  datatype Regs = Regs(esp: Word, ebp: Word)

  /** What the processor happens to cache between the directory change and the flush, and after it. */
  datatype Cached = Cached(before: seq<nat>, after: seq<nat>)

  /** How an event ends: the call returns, enters a program, or resumes an earlier execute with a
      value; or a page fault, whose handler never returns. */
  datatype Control = Return(value: int) | Enter(entry: Word) | Resume(regs: Regs, value: int) | Fault

  /** chgDir (32, ...) and flushTLB (). */
  function Switch(mmu: Mmu, pid: Word, c: Cached): (r: Mmu)
    requires mmu.Sized()
    ensures r.Sized()
  {
    Fills(FlushTLB(Fills(ChgDir(mmu, USER_DIR, UserEntry(pid)), c.before)), c.after)
  }

  /** Whatever is cached on the way, after the flush the cache agrees with the new directory. */
  lemma SwitchCoherent(mmu: Mmu, pid: nat, c: Cached, was: Word)
    requires mmu.Sized() && pid < SLOTS && Paged(mmu, was)
    ensures RunsProcess(Switch(mmu, pid, c), pid) && Coherent(Switch(mmu, pid, c))
  {
    var changed := ChgDir(mmu, USER_DIR, UserEntry(pid));
    assert changed.dir == PageDirectory(mmu.tableAddr, UserEntry(pid));
    var flushed := FlushTLB(Fills(changed, c.before));
    assert Coherent(flushed);
    FillsCoherent(flushed, c.after);
  }

  function FirstInactive(pcbs: seq<Pcb>, from: nat): (i: nat)
    requires from <= |pcbs|
    ensures from <= i <= |pcbs| && (i < |pcbs| ==> !pcbs[i].active)
    ensures forall j :: from <= j < i ==> pcbs[j].active
    decreases |pcbs| - from
  {
    if from < |pcbs| && pcbs[from].active then FirstInactive(pcbs, from + 1) else from
  }

  /** The descriptors of a new process: 0 and 1 are the terminal, 2 to 5 are closed. */
  function NewFds(fds: seq<Desc>): (r: seq<Desc>)
    requires |fds| == MAX_FILES
    ensures |r| == MAX_FILES
  {
    seq(MAX_FILES, i requires 0 <= i < MAX_FILES =>
      if i <= 1 then fds[i].(op := OnTerminal, flag := true)
      else if i < SLOTS then fds[i].(flag := false)
      else fds[i])
  }

  /** The control block of a new process in `slot`. */
  function NewPcb(prev: Pcb, slot: nat, args: seq<Byte>, regs: Regs): (r: Pcb)
    requires prev.Sized() && slot < SLOTS && |args| < ARGS_SIZE
    ensures r.Sized() && CStr(r.args) == CStr(args)
  {
    Pcb(NewFds(prev.fds), StrCpyInto(prev.args, args), slot, (slot - 1) % WORD, regs.esp, regs.ebp, true)
  }

  /** sys_execute from the lookup of the name on. A program that does not fit faults while it is
      loaded, when its frame is mapped and its arguments are copied. */
  ghost function ExecuteProgram(m: Machine, img: FS.Image, name: seq<Byte>, args: seq<Byte>, regs: Regs, c: Cached)
    : (Machine, Control)
    requires m.Sized() && FS.WellFormed(img) && |args| < ARGS_SIZE
  {
    var slot := FirstInactive(m.pcbs, 0);
    match Loadable(img, name)
    case None => (m, Return(-1))
    case Some(prog) =>
      if slot == SLOTS then (m, Return(-1))
      else
        var pcb := NewPcb(m.pcbs[slot], slot, args, regs);
        var mmu := Switch(m.mmu, slot, c);
        var loaded := StoreAll(m.mem, mmu, USER_BASE + PROC_OFFSET, prog.bytes);
        if loaded.whole then (Machine(m.pcbs[slot := pcb], mmu, StackTop(slot), loaded.mem), Enter(prog.entry))
        else (Machine(m.pcbs[slot := m.pcbs[slot].(args := pcb.args)], mmu, m.esp0, loaded.mem), Fault)
  }

  const SHELL: seq<Byte> := [115, 104, 101, 108, 108] + Zeros(27)   // "shell"

  /** The literal "shell" and whatever lies behind its NUL. */
  predicate IsShell(command: seq<Byte>) {
    ARGS_SIZE < |command| && command[..6] == [115, 104, 101, 108, 108, NUL]
  }

  /** The execute that sys_halt itself makes: where it runs, and the literal it passes. */
  datatype Again = Again(regs: Regs, command: seq<Byte>)

  /** The status byte, sign-extended into the parent's return value. */
  function SignExtended(status: Byte): (r: int)
    ensures -128 <= r < 128 && r % 256 == status
  {
    if status < 128 then status else status - 256
  }

  /** What sys_halt leaves in the control block: descriptor 0 closed, the slot free, and for a process
      without a parent the pid counted down. */
  function Ended(pcb: Pcb): (r: Pcb)
    requires pcb.Sized()
    ensures r.Sized() && !r.active
  {
    var d := pcb.fds[0];
    Pcb(pcb.fds[0 := Desc(d.op, d.inode, d.pos, false)], pcb.args,
        if pcb.parent == NO_PARENT then (pcb.pid - 1) % WORD else pcb.pid,
        pcb.parent, pcb.savedEsp, pcb.savedEbp, false)
  }

  function EndSlot(m: Machine, p: nat): (r: Machine)
    requires m.Sized() && p < SLOTS
    ensures r.Sized()
  {
    Machine(m.pcbs[p := Ended(m.pcbs[p])], m.mmu, m.esp0, m.mem)
  }

  /** The end of sys_halt: the parent's frame is mapped again and its execute resumed. */
  function ResumeParent(m: Machine, pcb: Pcb, status: Byte, c: Cached): (Machine, Control)
    requires m.Sized()
  {
    (Machine(m.pcbs, Switch(m.mmu, pcb.parent, c), StackTop(pcb.parent), m.mem),
     Resume(Regs(pcb.savedEsp, pcb.savedEbp), SignExtended(status)))
  }

  /** sys_halt: the slot is freed and the parent resumed; the root shell is started again. */
  ghost function Halt(m: Machine, img: FS.Image, status: Byte, regs: Regs, again: Again, c: Cached): (Machine, Control)
    requires m.Sized() && FS.WellFormed(img) && SlotOf(regs.esp).Some? && IsShell(again.command)
  {
    var p := SlotOf(regs.esp).value;
    ShellStarts(again.command);
    var name, args := NameBytes(again.command), ScannedArgs(again.command);
    var shell := ExecuteProgram(EndSlot(m, p), img, name, args, again.regs, c);
    if m.pcbs[p].parent == NO_PARENT && !shell.1.Return? then shell
    else ResumeParent(EndSlot(m, p), m.pcbs[p], status, c)
  }

  const QUIT: seq<Byte> := [113, 117, 105, 116]   // "quit"

  ghost function Execute(m: Machine, img: FS.Image, command: seq<Byte>, regs: Regs, again: Again, c: Cached)
    : (Machine, Control)
    requires m.Sized() && FS.WellFormed(img) && ARGS_SIZE < |command|
    requires SlotOf(regs.esp).Some? && IsShell(again.command)
  {
    var name := NameBytes(command);
    if name[0] == NUL then (m, Return(0))
    else if name[..4] == QUIT then Halt(m, img, 0, regs, again, c)
    else ExecuteProgram(m, img, name, ScannedArgs(command), regs, c)
  }

  /** A command with a name has a first word, so its arguments leave room for their NUL. */
  lemma WordStarts(command: seq<Byte>)
    requires ARGS_SIZE < |command| && NameBytes(command)[0] != NUL
    ensures 0 < WordEnd(command, 0) && |ScannedArgs(command)| < ARGS_SIZE
  {
  }

  /** The shell's literal names something that is not `quit`. */
  lemma ShellStarts(command: seq<Byte>)
    requires IsShell(command)
    ensures NameBytes(command)[0] != NUL && NameBytes(command)[..4] != QUIT
    ensures |ScannedArgs(command)| < ARGS_SIZE
  {
    NameAt(command);
    hide NameBytes;
    assert forall j :: 0 <= j < 6 ==> command[j] == command[..6][j];
    var name := NameBytes(command);
    assert 4 < WordEnd(command, 0) && name[0] == command[0] == 115;
    assert name[..4][0] != QUIT[0];
    WordStarts(command);
  }

  // ---- Calls that neither launch nor end a process ----

  function SetFds(m: Machine, p: nat, fds: seq<Desc>): (r: Machine)
    requires m.Sized() && p < SLOTS && |fds| == MAX_FILES
    ensures r.Sized()
  {
    m.(pcbs := m.pcbs[p := m.pcbs[p].(fds := fds)])
  }

  /** sys_open, sys_read and sys_close by the process whose kernel stack `p` is. A read whose end wraps
      around runs on behind the file, over bytes that `typed` then stands for, and never returns (see
      WrappedReadFaults). A directory's position has moved before its name is copied. */
  ghost function FileCall(m: Machine, img: FS.Image, p: nat, call: Call, va: Word, typed: seq<Byte>): (Machine, Control)
    requires m.Sized() && p < SLOTS && FdsValid(img, m.pcbs[p].fds)
  {
    var fds := m.pcbs[p].fds;
    match call
    case Open(fname) =>
      var (r, after) := OpenFds(fds, img, fname);
      (SetFds(m, p, after), Return(r))
    case Close(fd) =>
      var (r, after) := CloseFds(fds, fd);
      (SetFds(m, p, after), Return(r))
    case Read(fd, n, device) =>
      if Wraps(fds, fd, n) then (m.(mem := StoreAll(m.mem, m.mmu, va, RunOn(fds, img, fd, typed)).mem), Fault)
      else
        var (r, bytes, after) := ReadFds(fds, img, fd, n, device, typed);
        var copied := StoreAll(m.mem, m.mmu, va, bytes);
        if copied.whole then (SetFds(m, p, after).(mem := copied.mem), Return(r))
        else if fds[fd].op == OnDirectory then (SetFds(m, p, after).(mem := copied.mem), Fault)
        else (m.(mem := copied.mem), Fault)
  }

  /** What a read that wraps around stores: the rest of the file and then `behind`. */
  ghost function RunOn(fds: seq<Desc>, img: FS.Image, fd: nat, behind: seq<Byte>): seq<Byte>
    requires FdsValid(img, fds) && fd < MAX_FILES && fds[fd].flag && fds[fd].op == OnFile
  {
    var d := fds[fd];
    assert DescValid(img, d);
    FS.Contents(img, d.inode)[d.pos..] + behind
  }

  /** A read that wraps around copies so many bytes that no buffer has room for them. */
  lemma WrappedReadFaults(img: FS.Image, fds: seq<Desc>, fd: int, n: int, va: nat)
    requires FdsValid(img, fds) && Wraps(fds, fd, n)
    ensures Room(va) < FS.CopyCount(img.inodes[fds[fd].inode].len, fds[fd].pos, ToWord(n))
  {
    var d := fds[fd];
    assert DescValid(img, d);
    assert FS.WellFormedInode(img, img.inodes[d.inode]);
    var len := ToWord(n);
    assert (len + d.pos) % WORD == len + d.pos - WORD;
  }

  const ARGS_OFFSET: nat := 128   // behind the eight descriptors

  /** How many bytes there are from a control block's arguments to 8 MiB, where nothing is mapped. */
  function ArgsSpan(p: nat): int {
    2 * MB4 - (PcbAddress(p) + ARGS_OFFSET)
  }

  /** sys_getargs; `behind` is what lies behind the arguments, up to 8 MiB. A count that goes further
      faults on the bytes it reads, one that the buffer has no room for on those it stores. */
  function ArgsCall(m: Machine, p: nat, va: Word, nbytes: int, behind: seq<Byte>): (Machine, Control)
    requires m.Sized() && p < SLOTS && ARGS_SIZE + |behind| == ArgsSpan(p)
  {
    var block := m.pcbs[p].args + behind;
    if va == 0 || nbytes <= 0 || !HandsOver(block, nbytes) then (m, Return(-1))
    else
      var copied := StoreAll(m.mem, m.mmu, va, if nbytes <= |block| then block[..nbytes] else block);
      (m.(mem := copied.mem), if copied.whole && nbytes <= |block| then Return(0) else Fault)
  }

  /** The user's address of video memory, lowest byte first. */
  const VIDEO_ADDRESS: seq<Byte> := [0x00, 0x80, 0x4B, 0x08]

  /** sys_vidmap */
  function VideoCall(m: Machine, va: Word): (Machine, Control)
    requires m.Sized()
  {
    if va < USER_BASE || USER_BASE + MB4 < va then (m, Return(-1))
    else
      var copied := StoreAll(m.mem, m.mmu, va, VIDEO_ADDRESS);
      (m.(mem := copied.mem), if copied.whole then Return(0) else Fault)
  }

  /** A store by user code: to a page that is there and that it may write. */
  function UserStoreTo(m: Machine, va: Word, b: Byte): (Machine, Control)
    requires m.Sized()
  {
    match Translate(m.mmu, va / KB4)
    case Mapped(page) =>
      if page.user && page.write then (m.(mem := m.mem[page.phys + va % KB4 := b]), Return(0)) else (m, Fault)
    case NotPresent => (m, Fault)
  }

  // ---- Events ----

  datatype Event =
    | Exec(command: seq<Byte>, regs: Regs, again: Again, c: Cached)
    | Exit(status: Byte, regs: Regs, again: Again, c: Cached)
    | Io(call: Call, va: Word, typed: seq<Byte>, esp: Word)
    | GetArgs(va: Word, nbytes: int, behind: seq<Byte>, esp: Word)
    | VidMap(va: Word)
    | UserStore(va: Word, b: Byte)
    | Access(vpn: nat)

  /** The stack pointer of the call lies in a slot, and that slot's descriptors are in order. */
  ghost predicate CanStep(m: Machine, img: FS.Image, ev: Event) {
    && m.Sized() && FS.WellFormed(img)
    && match ev
       case Exec(command, regs, again, _) =>
         ARGS_SIZE < |command| && SlotOf(regs.esp).Some? && IsShell(again.command)
       case Exit(_, regs, again, _) => SlotOf(regs.esp).Some? && IsShell(again.command)
       case Io(_, _, _, esp) => SlotOf(esp).Some? && FdsValid(img, m.pcbs[SlotOf(esp).value].fds)
       case GetArgs(_, _, behind, esp) => SlotOf(esp).Some? && ARGS_SIZE + |behind| == ArgsSpan(SlotOf(esp).value)
       case _ => true
  }

  /** One event on the machine. */
  ghost function Step(m: Machine, img: FS.Image, ev: Event): (Machine, Control)
    requires CanStep(m, img, ev)
  {
    match ev
    case Exec(command, regs, again, c) => Execute(m, img, command, regs, again, c)
    case Exit(status, regs, again, c) => Halt(m, img, status, regs, again, c)
    case Io(call, va, typed, esp) => FileCall(m, img, SlotOf(esp).value, call, va, typed)
    case GetArgs(va, nbytes, behind, esp) => ArgsCall(m, SlotOf(esp).value, va, nbytes, behind)
    case VidMap(va) => VideoCall(m, va)
    case UserStore(va, b) => UserStoreTo(m, va, b)
    case Access(vpn) => (m.(mmu := Fill(m.mmu, vpn)), Return(0))
  }
}
