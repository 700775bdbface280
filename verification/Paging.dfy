/** The page directory, the one page table and the TLB (student-distrib/paging.c). Addresses are
    translated by the two-level walk of section 4.3 of the Intel SDM, volume 3A; the TLB is a cache
    of earlier walks (section 4.10 there). CR4.PGE is never set, so a reload of CR3 drops every entry. */
module Paging {
  import opened Bytes

  const ENTRIES: nat := 1024
  const MB4: nat := 0x40_0000
  const KB4: nat := 0x1000

  // ---- Entry bits (paging.h) ----

  predicate Present(e: Word) { e % 2 == 1 }
  predicate Writable(e: Word) { e / 2 % 2 == 1 }
  predicate User(e: Word) { e / 4 % 2 == 1 }
  predicate Large(e: Word) { e / 128 % 2 == 1 }

  /** The physical base of a 4 MiB page: add_22_31, and add_32_39 above 4 GiB. */
  function LargeBase(e: Word): nat {
    e / MB4 * MB4 + e / 0x2000 % 256 * WORD
  }

  /** The physical base of a 4 KiB page or of a page table: add. */
  function SmallBase(e: Word): nat {
    e / KB4 * KB4
  }

  // ---- The walk and its cache ----

  /** A translation: where the address leads and what the page allows. */
  datatype Page = Page(phys: nat, user: bool, write: bool)
  datatype Walked = NotPresent | Mapped(page: Page)

  /** The paging structures in memory (`table` lies at `tableAddr`) and the cached pages by number. */
  datatype Mmu = Mmu(dir: seq<Word>, table: seq<Word>, tableAddr: Word, tlb: map<nat, Page>) {
    ghost predicate Sized() {
      |dir| == ENTRIES && |table| == ENTRIES && tableAddr % KB4 == 0
    }
  }

  /** The page that holds virtual page number `vpn`, found by walking the structures. A present
      directory entry that is not large must point to the one table there is. */
  function Walk(m: Mmu, vpn: nat): Walked
    requires m.Sized() && vpn < WORD / KB4
  {
    var pde := m.dir[vpn / 1024];
    if !Present(pde) then NotPresent
    else if Large(pde) then Mapped(Page(LargeBase(pde) + vpn % 1024 * KB4, User(pde), Writable(pde)))
    else if SmallBase(pde) != m.tableAddr then NotPresent
    else
      var pte := m.table[vpn % 1024];
      if !Present(pte) then NotPresent
      else Mapped(Page(SmallBase(pte), User(pde) && User(pte), Writable(pde) && Writable(pte)))
  }

  /** What the processor uses: the cached page if there is one, else a walk. */
  function Translate(m: Mmu, vpn: nat): Walked
    requires m.Sized() && vpn < WORD / KB4
  {
    if vpn in m.tlb then Mapped(m.tlb[vpn]) else Walk(m, vpn)
  }

  /** Any access, also a speculative one, may cache the page it walked to. */
  function Fill(m: Mmu, vpn: nat): Mmu
    requires m.Sized()
  {
    if vpn < WORD / KB4 && vpn !in m.tlb && Walk(m, vpn).Mapped? then m.(tlb := m.tlb[vpn := Walk(m, vpn).page]) else m
  }

  function Fills(m: Mmu, vpns: seq<nat>): (r: Mmu)
    requires m.Sized()
    ensures r.Sized() && r.dir == m.dir && r.table == m.table && r.tableAddr == m.tableAddr
    decreases |vpns|
  {
    if vpns == [] then m else Fills(Fill(m, vpns[0]), vpns[1..])
  }

  /** Every cached page is what a walk would find now. */
  ghost predicate Coherent(m: Mmu)
    requires m.Sized()
  {
    forall v :: v in m.tlb ==> v < WORD / KB4 && Walk(m, v) == Mapped(m.tlb[v])
  }

  function ChgDir(m: Mmu, idx: nat, e: Word): Mmu
    requires m.Sized() && idx < ENTRIES
  {
    m.(dir := m.dir[idx := e])
  }

  function FlushTLB(m: Mmu): Mmu {
    m.(tlb := map[])
  }

  lemma {:induction false} FillsCoherent(m: Mmu, vpns: seq<nat>)
    requires m.Sized() && Coherent(m)
    ensures Coherent(Fills(m, vpns))
    decreases |vpns|
  {
    if vpns != [] {
      var n := Fill(m, vpns[0]);
      assert forall v: nat :: v < WORD / KB4 ==> Walk(n, v) == Walk(m, v);
      FillsCoherent(n, vpns[1..]);
    }
  }

  /** With a coherent cache the processor sees exactly the paging structures. */
  lemma CoherentTranslates(m: Mmu, vpn: nat)
    requires m.Sized() && Coherent(m) && vpn < WORD / KB4
    ensures Translate(m, vpn) == Walk(m, vpn)
  {
  }

  // ---- The directory of a running process ----

  const USER_DIR: nat := 32      // 128 MiB / 4 MiB
  const VIDEO_DIR: nat := 33     // 132 MiB / 4 MiB
  const VIDEO_FIRST: nat := 0xB8
  const VIDEO_END: nat := 0xC0

  /** d.val = 7; d.whole.ps = 1; d.whole.add_22_31 = (8 MiB + 4 MiB * pid) >> 22, in 32 bits. */
  function UserEntry(pid: Word): Word {
    7 + 128 + (0x80_0000 + MB4 * pid) % WORD / MB4 * MB4
  }

  function KernelEntry(): Word { 1 + 2 + 128 + 256 + MB4 }

  function VideoTable(): (t: seq<Word>)
    ensures |t| == ENTRIES
  {
    seq(ENTRIES, i requires 0 <= i < ENTRIES => if VIDEO_FIRST <= i < VIDEO_END then 7 + i * KB4 else 0)
  }

  /** The directory page_init leaves behind, with `user` at 128 MiB. */
  function PageDirectory(tableAddr: Word, user: Word): (d: seq<Word>)
    requires tableAddr % KB4 == 0
    ensures |d| == ENTRIES
  {
    seq(ENTRIES, i requires 0 <= i < ENTRIES =>
      if i == 0 then tableAddr + 3
      else if i == 1 then KernelEntry()
      else if i == USER_DIR then user
      else if i == VIDEO_DIR then tableAddr + 7
      else 0)
  }

  /** The structures are those of page_init with `user` at 128 MiB. */
  ghost predicate Paged(m: Mmu, user: Word) {
    m.Sized() && m.table == VideoTable() && m.dir == PageDirectory(m.tableAddr, user)
  }

  /** Process `pid`'s frame is at 128 MiB. */
  ghost predicate RunsProcess(m: Mmu, pid: nat) {
    m.Sized() && pid < 6 && Paged(m, UserEntry(pid))
  }

  /** The first physical byte of a process's 4 MiB frame. */
  function Frame(pid: nat): nat {
    0x80_0000 + MB4 * pid
  }

  lemma UserEntryBits(pid: nat)
    requires pid < 6
    ensures var e := UserEntry(pid);
            Present(e) && Writable(e) && User(e) && Large(e) && LargeBase(e) == Frame(pid)
  {
    var e := UserEntry(pid);
    assert e == 135 + MB4 * (pid + 2);
    assert e / MB4 == pid + 2;
    assert e / 0x2000 == 512 * (pid + 2);
  }

  /** A page-aligned address leaves the low bits of an entry alone. */
  lemma TableEntryBits(tableAddr: Word, low: nat)
    requires tableAddr % KB4 == 0 && (low == 3 || low == 7)
    ensures tableAddr + low < WORD && SmallBase(tableAddr + low) == tableAddr
    ensures Present(tableAddr + low) && Writable(tableAddr + low) && !Large(tableAddr + low)
    ensures User(tableAddr + low) <==> low == 7
  {
    var k, x := tableAddr / KB4, tableAddr + low;
    assert tableAddr == 4096 * k;
    assert x / 2 == 2048 * k + low / 2;
    assert x / 4 == 1024 * k + low / 4;
    assert x / 128 == 32 * k;
    assert x / KB4 == k;
  }

  /** User code reaches exactly the 4 MiB at 128 MiB, which are its own frame, and the eight video
      pages above 132 MiB, which are physical video memory. */
  lemma UserReach(m: Mmu, pid: nat, vpn: nat)
    requires RunsProcess(m, pid) && vpn < WORD / KB4
    ensures var w := Walk(m, vpn);
            && (w.Mapped? && w.page.user <==>
                  || vpn / 1024 == USER_DIR
                  || (vpn / 1024 == VIDEO_DIR && VIDEO_FIRST <= vpn % 1024 < VIDEO_END))
            && (vpn / 1024 == USER_DIR ==> w.page == Page(Frame(pid) + vpn % 1024 * KB4, true, true))
            && (w.Mapped? && w.page.user && vpn / 1024 == VIDEO_DIR ==>
                  w.page == Page(vpn % 1024 * KB4, true, true))
  {
    UserEntryBits(pid);
    TableEntryBits(m.tableAddr, 3);
    TableEntryBits(m.tableAddr, 7);
    VideoEntryBits(vpn % 1024);
    hide UserEntry, SmallBase, LargeBase;
    var pde := m.dir[vpn / 1024];
    if vpn / 1024 == 1 {
      assert !User(pde) && Large(pde);
    } else if vpn / 1024 == USER_DIR {
      assert pde == UserEntry(pid);
    } else if vpn / 1024 == VIDEO_DIR {
      assert pde == m.tableAddr + 7;
    } else if vpn / 1024 == 0 {
      assert pde == m.tableAddr + 3 && !User(pde);
    } else {
      assert pde == 0;
    }
  }

  lemma VideoEntryBits(i: nat)
    requires i < ENTRIES
    ensures var e := VideoTable()[i];
            && (Present(e) <==> VIDEO_FIRST <= i < VIDEO_END)
            && (Present(e) ==> User(e) && Writable(e) && SmallBase(e) == i * KB4)
  {
  }

  /** The kernel alone reaches its own 4 MiB and the eight video pages, both where they physically are,
      and with UserReach this is all that is mapped. */
  lemma KernelReach(m: Mmu, pid: nat, vpn: nat)
    requires RunsProcess(m, pid) && vpn < WORD / KB4
    ensures var w := Walk(m, vpn);
            && (w.Mapped? && !w.page.user <==>
                  vpn / 1024 == 1 || (vpn / 1024 == 0 && VIDEO_FIRST <= vpn % 1024 < VIDEO_END))
            && (w.Mapped? && !w.page.user ==> w.page == Page(vpn * KB4, false, true))
  {
    UserEntryBits(pid);
    TableEntryBits(m.tableAddr, 3);
    TableEntryBits(m.tableAddr, 7);
    VideoEntryBits(vpn % 1024);
    KernelEntryBits();
    hide UserEntry, KernelEntry, SmallBase, LargeBase;
    var pde := m.dir[vpn / 1024];
    assert vpn == vpn / 1024 * 1024 + vpn % 1024;
    if vpn / 1024 == 1 {
      assert pde == KernelEntry();
    } else if vpn / 1024 == USER_DIR {
      assert pde == UserEntry(pid);
    } else if vpn / 1024 == VIDEO_DIR {
      assert pde == m.tableAddr + 7;
    } else if vpn / 1024 == 0 {
      assert pde == m.tableAddr + 3;
    } else {
      assert pde == 0;
    }
  }

  lemma KernelEntryBits()
    ensures var e := KernelEntry();
            Present(e) && Writable(e) && !User(e) && Large(e) && LargeBase(e) == MB4
  {
  }

  /** The frames of different processes, the kernel's 4 MiB and video memory do not overlap. */
  lemma FramesDisjoint(p: nat, q: nat, a: nat)
    requires p < 6 && q < 6 && Frame(p) <= a < Frame(p) + MB4
    ensures p != q ==> !(Frame(q) <= a < Frame(q) + MB4)
    ensures !(MB4 <= a < 2 * MB4) && !(VIDEO_FIRST * KB4 <= a < VIDEO_END * KB4)
  {
  }

  /** Why execute and halt flush: in a running process's address space, putting another frame at
      128 MiB leaves the cache right exactly when nothing of that range was cached. */
  lemma StaleAfterChgDirIff(m: Mmu, p: nat, q: nat)
    requires RunsProcess(m, p) && Coherent(m) && q < 6 && p != q
    ensures Coherent(ChgDir(m, USER_DIR, UserEntry(q))) <==> forall v :: v in m.tlb ==> v / 1024 != USER_DIR
  {
    var n := ChgDir(m, USER_DIR, UserEntry(q));
    assert RunsProcess(n, q) by {
      assert n.dir == PageDirectory(m.tableAddr, UserEntry(q));
    }
    assert forall v: nat :: v < WORD / KB4 && v / 1024 != USER_DIR ==> Walk(n, v) == Walk(m, v);
    hide RunsProcess, Walk;
    forall v | v in m.tlb && v / 1024 == USER_DIR
      ensures Walk(n, v) != Walk(m, v)
    {
      UserReach(m, p, v);
      UserReach(n, q, v);
    }
  }

  // ---- Where the kernel reaches ----

  const USER_BASE: nat := 0x800_0000   // 128 MiB
  const HIGH_VIDEO: nat := 0x840_0000  // 132 MiB

  datatype Place = Unmapped | At(addr: nat)

  /** The physical byte behind a virtual address while process `pid` runs, if there is one: its frame
      at 128 MiB, the kernel's 4 MiB where they are, and video memory twice. */
  function PhysOf(pid: nat, va: nat): Place {
    if USER_BASE <= va < USER_BASE + MB4 then At(Frame(pid) + (va - USER_BASE))
    else if MB4 <= va < 2 * MB4 then At(va)
    else if VIDEO_FIRST * KB4 <= va < VIDEO_END * KB4 then At(va)
    else if HIGH_VIDEO + VIDEO_FIRST * KB4 <= va < HIGH_VIDEO + VIDEO_END * KB4 then At(va - HIGH_VIDEO)
    else Unmapped
  }

  /** The map above is the page walk, byte by byte; every page in it may be written by the kernel. */
  lemma PhysOfIsWalk(m: Mmu, pid: nat, va: Word)
    requires RunsProcess(m, pid) && Coherent(m)
    ensures var w := Translate(m, va / KB4);
            PhysOf(pid, va) == if w.Mapped? then At(w.page.phys + va % KB4) else Unmapped
  {
    var vpn := va / KB4;
    CoherentTranslates(m, vpn);
    UserReach(m, pid, vpn);
    KernelReach(m, pid, vpn);
    hide RunsProcess, Coherent, Walk, Translate;
    assert va == KB4 * vpn + va % KB4;
    assert vpn == 1024 * (vpn / 1024) + vpn % 1024;
  }

  // ---- page_init and the calls on the structures, in place ----

  class PageStructures {
    const pageDir: array<Word>
    const table: array<Word>
    const tableAddr: Word   // where the linker put `table`

    ghost predicate Valid() {
      pageDir.Length == ENTRIES && table.Length == ENTRIES && pageDir != table && tableAddr % KB4 == 0
    }

    constructor (tableAddr: Word)
      requires tableAddr % KB4 == 0
      ensures Valid() && this.tableAddr == tableAddr && fresh(pageDir) && fresh(table)
    {
      this.tableAddr := tableAddr;
      pageDir := new Word[ENTRIES](_ => 0);
      table := new Word[ENTRIES](_ => 0);
    }

    method SpawnTbl()
      requires Valid()
      modifies table
      ensures forall i :: 0 <= i < ENTRIES ==> table[i] == 0
    {
      for i := 0 to ENTRIES
        invariant forall k :: 0 <= k < i ==> table[k] == 0
      {
        table[i] := 0;
      }
    }

    method SpawnDir()
      requires Valid()
      modifies pageDir
      ensures forall i :: 0 <= i < ENTRIES ==> pageDir[i] == 0
    {
      for i := 0 to ENTRIES
        invariant forall k :: 0 <= k < i ==> pageDir[k] == 0
      {
        pageDir[i] := 0;
      }
    }

    /** page_init: whatever was there before, the table maps the video pages and the directory the
        table twice and the kernel. */
    method PageInit()
      requires Valid()
      modifies pageDir, table
      ensures table[..] == VideoTable() && pageDir[..] == PageDirectory(tableAddr, 0)
    {
      TableEntryBits(tableAddr, 7);
      var vidTable := tableAddr + 3;
      var kernel := KernelEntry();
      SpawnTbl();
      for i := VIDEO_FIRST to VIDEO_END
        invariant forall k :: 0 <= k < ENTRIES ==> table[k] == if VIDEO_FIRST <= k < i then 7 + k * KB4 else 0
      {
        table[i] := 7 + i * KB4;
      }
      SpawnDir();
      pageDir[0] := vidTable;
      pageDir[1] := kernel;
      vidTable := vidTable + 4;   // vidTable.ptr.us = 1
      pageDir[33] := vidTable;
    }
  }
}
