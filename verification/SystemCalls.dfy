/** sys_execute and sys_halt on the kernel's own variables (student-distrib/syscall.c), against the
    transitions of Processes. */
module SystemCalls {
  import opened Bytes
  import opened Paging
  import FS = FileSystem
  import opened Descriptors
  import opened Command
  import opened Processes

  class Kernel {
    const img: FS.Image
    var pcbs: seq<Pcb>
    var mmu: Mmu
    var esp0: Word      // tss.esp0
    var mem: Memory

    ghost function State(): Machine
      reads this
    {
      Machine(pcbs, mmu, esp0, mem)
    }

    ghost predicate Valid()
      reads this
    {
      State().Sized() && FS.WellFormed(img)
    }

    constructor (img: FS.Image, pcbs: seq<Pcb>, mmu: Mmu, esp0: Word, mem: Memory)
      requires FS.WellFormed(img) && Machine(pcbs, mmu, esp0, mem).Sized()
      ensures Valid() && this.img == img && State() == Machine(pcbs, mmu, esp0, mem)
    {
      this.img, this.pcbs, this.mmu, this.esp0, this.mem := img, pcbs, mmu, esp0, mem;
    }

    /** The first control block that is not active. */
    method FindSlot() returns (i: nat)
      requires Valid()
      ensures i == FirstInactive(pcbs, 0)
    {
      i := 0;
      while i < SLOTS && pcbs[i].active
        invariant 0 <= i <= SLOTS && FirstInactive(pcbs, 0) == FirstInactive(pcbs, i)
      {
        i := i + 1;
      }
    }

    /** Looks the name up, reads the first 40 bytes of the file and checks the magic number. */
    method FindProgram(name: seq<Byte>) returns (r: FS.Option<Program>)
      requires Valid() && |name| == NAME_SIZE
      ensures r == Loadable(img, name)
    {
      hide FS.WellFormed, FS.Contents, FS.Lookup, FS.Listed;
      FS.IsListed(img);
      var found := FS.ReadDentryByName(img, name);
      if found.None? || found.value.ft != 2 {
        return FS.None;
      }
      LookupWellFormed(img, name);
      var ind := found.value.ind;
      var exe := new Byte[40](_ => 0);
      var n := FS.ReadData(img, ind, 0, exe, 40);
      ghost var bytes := FS.Contents(img, ind);
      assert forall i :: 0 <= i < n ==> exe[i] == exe[..n][i] == bytes[0..n][i];
      assert exe[..] == Header(bytes);
      if exe[..4] != MAGIC {
        return FS.None;
      }
      r := FS.Some(Program(FS.Contents(img, ind), EntryPoint(exe[..])));
    }

    /** Descriptors 0 and 1 become the terminal; the loop that closes the others stops at 5. */
    static method SetUpFds(fds: seq<Desc>) returns (r: seq<Desc>)
      requires |fds| == MAX_FILES
      ensures r == NewFds(fds)
    {
      r := fds[0 := fds[0].(flag := true, op := OnTerminal)];
      r := r[1 := r[1].(flag := true, op := OnTerminal)];
      for i := 2 to SLOTS
        invariant |r| == MAX_FILES
        invariant forall k :: 0 <= k < 2 || 2 <= k < i ==> r[k] == NewFds(fds)[k]
        invariant forall k :: i <= k < MAX_FILES ==> r[k] == fds[k]
      {
        r := r[i := r[i].(flag := false)];
      }
    }

    /** sys_execute from the lookup of the name on. */
    method RunProgram(name: seq<Byte>, args: seq<Byte>, regs: Regs, c: Cached) returns (control: Control)
      requires Valid() && |name| == NAME_SIZE && |CStr(args)| < ARGS_SIZE
      modifies this
      ensures Valid() && (State(), control) == ExecuteProgram(old(State()), img, name, CStr(args), regs, c)
    {
      hide FS.WellFormed, Loadable, Switch, StoreAll;
      var program := FindProgram(name);
      if program.None? {
        return Return(-1);
      }
      var slot := FindSlot();
      if slot == SLOTS {
        return Return(-1);
      }
      var pcb := pcbs[slot];
      NulFreeIsCStr(CStr(args));
      hide CStr;
      var copied := StrCpyInto(pcb.args, args);
      pcbs := pcbs[slot := pcb.(args := copied)];
      mmu := Switch(mmu, slot, c);
      var loaded := StoreAll(mem, mmu, USER_BASE + PROC_OFFSET, program.value.bytes);
      mem := loaded.mem;
      if !loaded.whole {
        return Fault;
      }
      var fds := SetUpFds(pcb.fds);
      pcbs := pcbs[slot := Pcb(fds, copied, slot, (slot - 1) % WORD, regs.esp, regs.ebp, true)];
      assert pcbs == old(pcbs)[slot := pcbs[slot]];
      esp0 := StackTop(slot);
      control := Enter(program.value.entry);
    }

    /** sys_halt */
    method SysHalt(status: Byte, regs: Regs, again: Again, c: Cached) returns (control: Control)
      requires Valid() && SlotOf(regs.esp).Some? && SlotOf(again.regs.esp).Some?
      requires IsShell(again.command) && again.command[|again.command| - 1] != SPACE
      modifies this
      ensures Valid() && (State(), control) == Halt(old(State()), img, status, regs, again, c)
      decreases 1
    {
      hide FS.WellFormed, Loadable, Switch, StoreAll, ExecuteProgram, CStr, SlotOf, NameBytes, ScannedArgs;
      var p := SlotOf(regs.esp).value;
      ShellStarts(again.command);
      var pcb := pcbs[p];
      pcbs := pcbs[p := pcb.(fds := pcb.fds[0 := pcb.fds[0].(flag := false)], active := false)];
      if pcb.parent == NO_PARENT {
        pcbs := pcbs[p := pcbs[p].(pid := (pcb.pid - 1) % WORD)];
        assert State() == EndSlot(old(State()), p);
        control := SysExecute(again.command, again.regs, again, c);
        if !control.Return? {
          return;
        }
        FailedChangesNothing(EndSlot(old(State()), p), img, NameBytes(again.command), ScannedArgs(again.command),
                             again.regs, c);
      }
      assert State() == EndSlot(old(State()), p);
      mmu := Switch(mmu, pcb.parent, c);
      esp0 := StackTop(pcb.parent);
      control := Resume(Regs(pcb.savedEsp, pcb.savedEbp), SignExtended(status));
    }

    /** sys_execute; `quit` halts, and the halt of the root shell executes the shell, which is not `quit`. */
    method SysExecute(command: seq<Byte>, regs: Regs, again: Again, c: Cached) returns (control: Control)
      requires Valid() && SlotOf(regs.esp).Some? && SlotOf(again.regs.esp).Some?
      requires ARGS_SIZE < |command| && command[|command| - 1] != SPACE
      requires IsShell(again.command) && again.command[|again.command| - 1] != SPACE
      modifies this
      ensures Valid() && (State(), control) == Execute(old(State()), img, command, regs, again, c)
      decreases if NameBytes(command)[..4] == QUIT then 2 else 0
    {
      hide FS.WellFormed, ExecuteProgram, Halt, CStr, WordEnd;
      var name, args := Scan(command);
      if name[0] == NUL {
        return Return(0);
      }
      assert name[..][..4] == name[..4];
      if name[..4] == QUIT {
        control := SysHalt(0, regs, again, c);
        return;
      }
      WordStarts(command);
      control := RunProgram(name[..], args[..], regs, c);
    }
  }

  /** A launch that returns has changed nothing. */
  lemma FailedChangesNothing(m: Machine, img: FS.Image, name: seq<Byte>, args: seq<Byte>, regs: Regs, c: Cached)
    requires m.Sized() && FS.WellFormed(img) && |args| < ARGS_SIZE
    ensures ExecuteProgram(m, img, name, args, regs, c).1.Return? ==>
              ExecuteProgram(m, img, name, args, regs, c).0 == m
  {
  }
}
