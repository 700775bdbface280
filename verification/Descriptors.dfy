/** A process's eight file descriptors and the calls on them (student-distrib/syscall.c,
    student-distrib/filesystem.c), against a map from descriptor to open file. */
module Descriptors {
  import opened Bytes
  import opened FileSystem

  const MAX_FILES: nat := 8

  // ---- The simple form ----

  datatype OpenFile =
    | Terminal
    | Rtc
    | Directory(next: nat)
    | Regular(bytes: seq<Byte>, pos: nat)

  type Table = map<nat, OpenFile>

  /** The least descriptor in 2..7 that is not open, or 8. */
  function LeastFree(m: Table, from: nat): (fd: nat)
    requires from <= MAX_FILES
    ensures from <= fd <= MAX_FILES
    ensures fd < MAX_FILES ==> fd !in m
    ensures forall i :: from <= i < fd ==> i in m
    decreases MAX_FILES - from
  {
    if from == MAX_FILES || from !in m then from else LeastFree(m, from + 1)
  }

  ghost function Opened(img: Image, d: Dentry): OpenFile
    requires WellFormed(img) && (d.ft == 2 ==> d.ind < |img.inodes|)
  {
    if d.ft == 0 then Rtc else if d.ft == 1 then Directory(0)
    else if d.ft == 2 then Regular(Contents(img, d.ind), 0) else Terminal
  }

  /** Open takes the least free descriptor, and fails exactly when the name is absent or 2..7 are all
      busy. An entry of an unknown type is found and not opened. */
  ghost function OpenSpec(m: Table, img: Image, fname: seq<Byte>): (int, Table)
    requires WellFormed(img)
  {
    match Lookup(img, fname)
    case None => (-1, m)
    case Some(d) =>
      var fd := LeastFree(m, 2);
      if 2 < d.ft then (0, m) else if fd == MAX_FILES then (-1, m) else (fd, m[fd := Opened(img, d)])
  }

  function CloseSpec(m: Table, fd: int): (int, Table) {
    if 2 <= fd < MAX_FILES && fd in m then (0, m - {fd}) else (-1, m)
  }

  function ToWord(n: int): Word {
    n % WORD
  }

  /** The result, the bytes handed over, and the table afterwards. `device` is what a terminal or
      clock read returns. */
  function ReadSpec(m: Table, img: Image, fd: int, n: int, device: int): (int, seq<Byte>, Table)
    requires WellFormed(img) && ReadFits(m, fd, n)
  {
    if fd < 0 || fd == 1 || MAX_FILES <= fd || fd !in m then (-1, [], m)
    else
      match m[fd]
      case Regular(bytes, pos) =>
        var k := Available(|bytes|, pos, ToWord(n));
        (k, bytes[pos..pos + k], m[fd := Regular(bytes, pos + k)])
      case Directory(next) =>
        if img.nent < next then (-1, [], m)
        else
          var name := NamePrefix(img.dirs[next], n);
          (|name|, name, m[fd := Directory(next + 1)])
      case _ => (device, [], m)
  }

  /** The bytes a read stores in the caller's buffer; a directory name that ended comes with its NUL,
      and `typed` is what the terminal stores. */
  function ReadStores(m: Table, img: Image, fd: int, n: int, typed: seq<Byte>): seq<Byte>
    requires WellFormed(img) && ReadFits(m, fd, n)
  {
    if fd < 0 || fd == 1 || MAX_FILES <= fd || fd !in m then []
    else
      match m[fd]
      case Regular(bytes, pos) => bytes[pos..pos + Available(|bytes|, pos, ToWord(n))]
      case Directory(next) =>
        if img.nent < next then []
        else
          var name := NamePrefix(img.dirs[next], n);
          if |name| < n then name + [NUL] else name
      case Terminal => typed
      case Rtc => []
  }

  /** A directory entry from its name on: a name of 32 bytes has no NUL and runs into the type. */
  function EntryBytes(d: Dentry): seq<Byte> {
    d.name + [d.ft % 0x100, d.ft / 0x100 % 0x100, d.ft / 0x1_0000 % 0x100, d.ft / 0x100_0000]
  }

  /** An entry's name as dir_read hands it over: up to its first NUL, at most `n` bytes. */
  function NamePrefix(d: Dentry, n: int): seq<Byte> {
    var s := CStr(EntryBytes(d));
    if n <= 0 then [] else if n < |s| then s[..n] else s
  }

  /** The end of the request does not wrap around in 32 bits. */
  predicate ReadFits(m: Table, fd: int, n: int) {
    0 <= fd < MAX_FILES && fd != 1 && fd in m && m[fd].Regular? ==>
      m[fd].pos <= |m[fd].bytes| < WORD && m[fd].pos + ToWord(n) < WORD
  }

  /** Open fails exactly when no entry has the name, or it has a known type and 2..7 are all busy; it
      returns 0 exactly for an unknown type, and otherwise the least free descriptor. */
  lemma OpenFailsIff(m: Table, img: Image, fname: seq<Byte>)
    requires WellFormed(img)
    ensures var r := OpenSpec(m, img, fname).0;
            var found := Lookup(img, fname);
            && (r == -1 <==>
                  || (forall i :: 0 <= i < img.nent ==> !SameName(fname, img.dirs[i].name, NAME_LEN))
                  || (found.value.ft <= 2 && forall fd: nat :: 2 <= fd < MAX_FILES ==> fd in m))
            && (r == 0 <==> found.Some? && 2 < found.value.ft)
            && (r > 0 ==> 2 <= r < MAX_FILES && r !in m && forall fd: nat :: 2 <= fd < r ==> fd in m)
  {
    hide WellFormed, SameName, Contents;
    var free := LeastFree(m, 2);
    assert free < MAX_FILES ==> !(forall fd: nat :: 2 <= fd < MAX_FILES ==> fd in m) by {
      assert free < MAX_FILES ==> free !in m;
    }
  }

  // ---- Any interleaving of calls ----

  datatype Call =
    | Open(fname: seq<Byte>)
    | Read(fd: int, n: int, device: int)
    | Close(fd: int)

  /** The table, and for each descriptor what was read through it since it was opened. */
  datatype History = History(table: Table, got: map<nat, seq<Byte>>)

  predicate CallFits(h: History, call: Call) {
    call.Read? ==> ReadFits(h.table, call.fd, call.n)
  }

  ghost function CallStep(h: History, img: Image, call: Call): History
    requires WellFormed(img) && CallFits(h, call)
  {
    match call
    case Open(fname) =>
      var (fd, m) := OpenSpec(h.table, img, fname);
      History(m, if fd <= 0 then h.got else h.got[fd := []])
    case Close(fd) => h.(table := CloseSpec(h.table, fd).1)
    case Read(fd, n, device) =>
      var (_, bytes, m) := ReadSpec(h.table, img, fd, n, device);
      History(m, if 0 <= fd && fd in h.got then h.got[fd := h.got[fd] + bytes] else h.got)
  }

  /** What was read through a regular file is the file's prefix up to the position. */
  ghost predicate PrefixesRead(h: History) {
    forall fd :: fd in h.table && h.table[fd].Regular? ==>
      var f := h.table[fd];
      && fd in h.got && f.pos <= |f.bytes| <= MAX_BLOCKS * BLKSIZE
      && h.got[fd] == f.bytes[..f.pos]
  }

  ghost predicate IsRun(h: History, img: Image, calls: seq<Call>)
    requires WellFormed(img)
    decreases |calls|
  {
    calls != [] ==> CallFits(h, calls[0]) && IsRun(CallStep(h, img, calls[0]), img, calls[1..])
  }

  ghost function RunCalls(h: History, img: Image, calls: seq<Call>): History
    requires WellFormed(img) && IsRun(h, img, calls)
    decreases |calls|
  {
    if calls == [] then h else RunCalls(CallStep(h, img, calls[0]), img, calls[1..])
  }

  lemma LookupWellFormed(img: Image, fname: seq<Byte>)
    requires WellFormed(img) && Lookup(img, fname).Some?
    ensures var d := Lookup(img, fname).value;
            d.ft == 2 ==> d.ind < |img.inodes| && img.inodes[d.ind].len <= MAX_BLOCKS * BLKSIZE
  {
    var d := Lookup(img, fname).value;
    assert d in img.dirs[..img.nent];
    if d.ft == 2 {
      assert WellFormedInode(img, img.inodes[d.ind]);
    }
  }

  lemma CallKeepsPrefixes(h: History, img: Image, call: Call)
    requires WellFormed(img) && CallFits(h, call) && PrefixesRead(h)
    ensures PrefixesRead(CallStep(h, img, call))
  {
    hide WellFormed, OpenSpec, ReadSpec;
    match call
    case Open(fname) => OpenKeepsPrefixes(h, img, fname);
    case Close(fd) =>
    case Read(fd, n, device) => ReadKeepsPrefixes(h, img, fd, n, device);
  }

  lemma OpenKeepsPrefixes(h: History, img: Image, fname: seq<Byte>)
    requires WellFormed(img) && PrefixesRead(h)
    ensures PrefixesRead(CallStep(h, img, Open(fname)))
  {
    hide WellFormed, Contents, Lookup, Listed, ReadSpec, CloseSpec;
    IsListed(img);
    if Lookup(img, fname).Some? {
      LookupWellFormed(img, fname);
    }
  }

  lemma ReadKeepsPrefixes(h: History, img: Image, fd: int, n: int, device: int)
    requires WellFormed(img) && ReadFits(h.table, fd, n) && PrefixesRead(h)
    ensures PrefixesRead(CallStep(h, img, Read(fd, n, device)))
  {
    hide WellFormed, NamePrefix;
    if 0 <= fd && fd != 1 && fd < MAX_FILES && fd in h.table && h.table[fd].Regular? {
      var f := h.table[fd];
      var k := Available(|f.bytes|, f.pos, ToWord(n));
      assert f.bytes[..f.pos] + f.bytes[f.pos..f.pos + k] == f.bytes[..f.pos + k];
    }
  }

  /** For every run: the bytes read through each regular file since it was opened are the file's first
      `pos` bytes, in order and without gaps. */
  lemma {:induction false} RunReadsPrefixes(h: History, img: Image, calls: seq<Call>)
    requires WellFormed(img) && IsRun(h, img, calls) && PrefixesRead(h)
    ensures PrefixesRead(RunCalls(h, img, calls))
    decreases |calls|
  {
    if calls != [] {
      CallKeepsPrefixes(h, img, calls[0]);
      RunReadsPrefixes(CallStep(h, img, calls[0]), img, calls[1..]);
    }
  }

  /** A read that asks for something and gets nothing has seen the whole file. */
  lemma ZeroMeansAllRead(h: History, img: Image, fd: nat, n: int)
    requires WellFormed(img) && PrefixesRead(h) && ReadFits(h.table, fd, n) && 0 < n < WORD
    requires fd in h.table && h.table[fd].Regular? && fd != 1 && fd < MAX_FILES
    ensures ReadSpec(h.table, img, fd, n, 0).0 == 0 <==> h.got[fd] == h.table[fd].bytes
  {
    var f := h.table[fd];
    assert h.got[fd] == f.bytes ==> f.pos == |f.bytes|;
    assert f.pos == |f.bytes| ==> f.bytes[..f.pos] == f.bytes;
  }

  /** A call on one descriptor leaves every other one as it was. */
  lemma OthersUndisturbed(h: History, img: Image, call: Call, other: nat)
    requires WellFormed(img) && CallFits(h, call) && other in h.table
    requires call.Open? || other != call.fd
    ensures other in CallStep(h, img, call).table
    ensures CallStep(h, img, call).table[other] == h.table[other]
  {
  }

  /** Any count that is not negative fits, whatever was read before. */
  lemma NonNegativeFits(h: History, fd: nat, n: int)
    requires PrefixesRead(h) && 0 <= n < 0x8000_0000
    ensures ReadFits(h.table, fd, n)
  {
  }

  /** A close that succeeds makes room: the next open of a name with a known type succeeds, and takes the
      closed descriptor or a lower one. */
  lemma CloseThenOpen(m: Table, img: Image, fd: int, fname: seq<Byte>)
    requires WellFormed(img) && CloseSpec(m, fd).0 == 0
    ensures 2 <= fd < MAX_FILES && fd in m
    ensures var found := Lookup(img, fname);
            found.Some? && found.value.ft <= 2 ==> 2 <= OpenSpec(CloseSpec(m, fd).1, img, fname).0 <= fd
  {
    hide WellFormed, Contents, Lookup;
  }

  /** Close succeeds exactly on the descriptors 2 to 7 that are in use, and only once. */
  lemma CloseIff(m: Table, fd: int)
    ensures var (r, after) := CloseSpec(m, fd);
            && (r == 0 <==> 2 <= fd < MAX_FILES && fd in m) && (r == 0 || r == -1)
            && (r == 0 ==> CloseSpec(after, fd).0 == -1)
            && (r == -1 ==> after == m)
  {
  }

  /** A read of a regular file that does not wrap around. */
  lemma RegularRead(m: Table, img: Image, fd: nat, n: nat, device: int)
    requires WellFormed(img) && 2 <= fd < MAX_FILES && fd in m && m[fd].Regular?
    requires m[fd].pos <= |m[fd].bytes| < WORD && m[fd].pos + n < WORD
    ensures ReadFits(m, fd, n)
    ensures var f := m[fd];
            var k := if n <= |f.bytes| - f.pos then n else |f.bytes| - f.pos;
            ReadSpec(m, img, fd, n, device) == (k, f.bytes[f.pos..f.pos + k], m[fd := Regular(f.bytes, f.pos + k)])
  {
    hide WellFormed, NamePrefix;
  }

  /** Two reads in a row hand over what one read of both counts would. */
  lemma ReadTwice(m: Table, img: Image, fd: nat, a: nat, b: nat, device: int)
    requires WellFormed(img) && 2 <= fd < MAX_FILES && fd in m && m[fd].Regular?
    requires m[fd].pos <= |m[fd].bytes| < WORD && m[fd].pos + a + b < WORD
    ensures ReadFits(m, fd, a + b) && ReadFits(m, fd, a)
    ensures var (r, x, after) := ReadSpec(m, img, fd, a, device);
            && ReadFits(after, fd, b)
            && var (q, y, last) := ReadSpec(after, img, fd, b, device);
               ReadSpec(m, img, fd, a + b, device) == (r + q, x + y, last)
  {
    hide WellFormed, ReadSpec, ReadFits;
    RegularRead(m, img, fd, a, device);
    RegularRead(m, img, fd, a + b, device);
    var f, r := m[fd], ReadSpec(m, img, fd, a, device).0;
    var after := m[fd := Regular(f.bytes, f.pos + r)];
    RegularRead(after, img, fd, b, device);
    var q := ReadSpec(after, img, fd, b, device).0;
    assert f.bytes[f.pos..f.pos + r] + f.bytes[f.pos + r..f.pos + r + q] == f.bytes[f.pos..f.pos + r + q];
    assert after[fd := Regular(f.bytes, f.pos + r + q)] == m[fd := Regular(f.bytes, f.pos + r + q)];
  }

  /** No call of the run closes the descriptor. */
  predicate StaysOpen(calls: seq<Call>, fd: nat) {
    forall i :: 0 <= i < |calls| && calls[i].Close? ==> calls[i].fd != fd
  }

  /** A descriptor that is not closed keeps its file. */
  lemma {:induction false} FileKept(h: History, img: Image, calls: seq<Call>, fd: nat)
    requires WellFormed(img) && IsRun(h, img, calls) && StaysOpen(calls, fd)
    requires 2 <= fd < MAX_FILES && fd in h.table && h.table[fd].Regular?
    ensures var r := RunCalls(h, img, calls).table;
            fd in r && r[fd].Regular? && r[fd].bytes == h.table[fd].bytes
    decreases |calls|
  {
    if calls != [] {
      CallKeepsFile(h, img, calls[0], fd);
      hide WellFormed, CallStep, CallFits;
      assert forall i :: 0 <= i < |calls[1..]| ==> calls[1..][i] == calls[i + 1];
      FileKept(CallStep(h, img, calls[0]), img, calls[1..], fd);
    }
  }

  lemma CallKeepsFile(h: History, img: Image, call: Call, fd: nat)
    requires WellFormed(img) && CallFits(h, call) && (call.Close? ==> call.fd != fd)
    requires 2 <= fd < MAX_FILES && fd in h.table && h.table[fd].Regular?
    ensures var r := CallStep(h, img, call).table;
            fd in r && r[fd].Regular? && r[fd].bytes == h.table[fd].bytes
  {
    hide WellFormed, NamePrefix, Lookup, Contents;
  }

  /** From an open of a regular file through any run that does not close it: what was read through the
      descriptor is a prefix of the contents of the file that was looked up. */
  lemma OpenThenRead(h: History, img: Image, fname: seq<Byte>, calls: seq<Call>)
    requires WellFormed(img) && PrefixesRead(h) && Lookup(img, fname).Some? && Lookup(img, fname).value.ft == 2
    requires var fd := OpenSpec(h.table, img, fname).0;
             0 < fd && StaysOpen(calls, fd) && IsRun(CallStep(h, img, Open(fname)), img, calls)
    ensures var fd := OpenSpec(h.table, img, fname).0;
            var r := RunCalls(CallStep(h, img, Open(fname)), img, calls);
            && Lookup(img, fname).value.ind < |img.inodes|
            && fd in r.got && r.got[fd] <= Contents(img, Lookup(img, fname).value.ind)
            && fd in r.table && r.table[fd].Regular? && r.table[fd].pos == |r.got[fd]|
  {
    hide WellFormed, Contents, Lookup, OpenSpec, CallStep, PrefixesRead, StaysOpen, IsRun, RunCalls;
    OpenedFile(h, img, fname);
    var fd, first := OpenSpec(h.table, img, fname).0, CallStep(h, img, Open(fname));
    CallKeepsPrefixes(h, img, Open(fname));
    RunReadsPrefixes(first, img, calls);
    FileKept(first, img, calls, fd);
    PrefixOf(RunCalls(first, img, calls), fd);
  }

  lemma OpenedFile(h: History, img: Image, fname: seq<Byte>)
    requires WellFormed(img) && Lookup(img, fname).Some? && Lookup(img, fname).value.ft == 2
    requires 0 < OpenSpec(h.table, img, fname).0
    ensures var d, fd, first := Lookup(img, fname).value, OpenSpec(h.table, img, fname).0, CallStep(h, img, Open(fname));
            && 2 <= fd < MAX_FILES && d.ind < |img.inodes| && fd in first.table
            && first.table[fd] == Regular(Contents(img, d.ind), 0)
  {
    hide WellFormed, Contents, Lookup;
    LookupWellFormed(img, fname);
  }

  lemma PrefixOf(h: History, fd: nat)
    requires PrefixesRead(h) && fd in h.table && h.table[fd].Regular?
    ensures fd in h.got && h.got[fd] <= h.table[fd].bytes && h.table[fd].pos == |h.got[fd]|
  {
  }

  // ---- Listing a directory ----

  /** `ls`: read until nothing comes; true if the end was 0 and not a failed read. */
  function List(m: Table, img: Image, fd: nat, n: int): (seq<seq<Byte>>, bool)
    requires WellFormed(img) && 2 <= fd < MAX_FILES && fd in m && m[fd].Directory?
    decreases if img.nent < m[fd].next then 0 else img.nent + 1 - m[fd].next
  {
    var (r, name, after) := ReadSpec(m, img, fd, n, 0);
    if r == -1 then ([], false)
    else if r == 0 then ([], true)
    else
      var (names, ended) := List(after, img, fd, n);
      ([name] + names, ended)
  }

  /** The names of the entries from `i` on. */
  function Names(img: Image, i: nat, n: int): seq<seq<Byte>>
    requires WellFormed(img) && i <= img.nent
    decreases img.nent - i
  {
    if i == img.nent then [] else [NamePrefix(img.dirs[i], n)] + Names(img, i + 1, n)
  }

  /** A name with a NUL is handed over up to the NUL, whatever the type behind it. */
  lemma NamePrefixIs(d: Dentry, n: nat)
    requires |d.name| == NAME_LEN && NUL in d.name
    ensures NamePrefix(d, n) == Cut(CStr(d.name), n)
  {
    var k := |CStr(d.name)|;
    assert EntryBytes(d)[..k] == d.name[..k] == CStr(d.name);
    CStrIs(EntryBytes(d), k);
  }

  /** The directory reads one entry more than it has. */
  lemma {:induction false} ListFrom(m: Table, img: Image, fd: nat, n: int, i: nat)
    requires WellFormed(img) && 2 <= fd < MAX_FILES && fd in m && m[fd] == Directory(i) && i <= img.nent
    requires forall k :: i <= k < img.nent ==> NamePrefix(img.dirs[k], n) != []
    ensures var past := NamePrefix(img.dirs[img.nent], n);
            List(m, img, fd, n) == if past == [] then (Names(img, i, n), true) else (Names(img, i, n) + [past], false)
    decreases img.nent - i
  {
    hide NamePrefix;
    var after := m[fd := Directory(i + 1)];
    var name, past := NamePrefix(img.dirs[i], n), NamePrefix(img.dirs[img.nent], n);
    if i < img.nent {
      ListFrom(after, img, fd, n, i + 1);
      assert [name] + (Names(img, i + 1, n) + [past]) == [name] + Names(img, i + 1, n) + [past];
    } else {
      assert List(after, img, fd, n) == ([], false);
      assert [past] + [] == [] + [past];
    }
  }

  lemma {:induction false} NamesCount(img: Image, i: nat, n: int)
    requires WellFormed(img) && i <= img.nent
    ensures |Names(img, i, n)| == img.nent - i
    decreases img.nent - i
  {
    if i < img.nent {
      NamesCount(img, i + 1, n);
    }
  }

  /** An entry without a name ends the listing early. */
  lemma {:induction false} ListStops(m: Table, img: Image, fd: nat, n: int, i: nat, k: nat)
    requires WellFormed(img) && 2 <= fd < MAX_FILES && fd in m && m[fd] == Directory(i)
    requires i <= k < img.nent && NamePrefix(img.dirs[k], n) == []
    ensures |List(m, img, fd, n).0| < img.nent - i
    decreases img.nent - i
  {
    hide NamePrefix;
    if NamePrefix(img.dirs[i], n) != [] {
      ListStops(m[fd := Directory(i + 1)], img, fd, n, i + 1, k);
    }
  }

  /** A listing is exactly the directory's names, and ends well, exactly when every entry has a name and
      the 64 bytes behind the last entry begin with a NUL. If only those do not, they are shown too and
      the listing fails. */
  lemma ListingExactIff(m: Table, img: Image, fd: nat, n: int)
    requires WellFormed(img) && 2 <= fd < MAX_FILES && fd in m && m[fd] == Directory(0) && 0 < n
    ensures List(m, img, fd, n) == (Names(img, 0, n), true)
       <==> (forall k :: 0 <= k < img.nent ==> img.dirs[k].name[0] != NUL) && img.dirs[img.nent].name[0] == NUL
    ensures (forall k :: 0 <= k <= img.nent ==> img.dirs[k].name[0] != NUL) ==>
              List(m, img, fd, n) == (Names(img, 0, n) + [NamePrefix(img.dirs[img.nent], n)], false)
  {
    forall k | 0 <= k <= img.nent
      ensures NamePrefix(img.dirs[k], n) == [] <==> img.dirs[k].name[0] == NUL
    {
      assert EntryBytes(img.dirs[k])[0] == img.dirs[k].name[0];
    }
    hide NamePrefix, List, Names;
    NamesCount(img, 0, n);
    if k :| 0 <= k < img.nent && img.dirs[k].name[0] == NUL {
      ListStops(m, img, fd, n, 0, k);
    } else {
      ListFrom(m, img, fd, n, 0);
    }
  }

  // ---- The table as it lies in the control block ----

  datatype Kind = OnTerminal | OnRtc | OnDirectory | OnFile

  /** struct file_desc, with the jump table named by what it drives. */
  datatype Desc = Desc(op: Kind, inode: Word, pos: Word, flag: bool)

  /** A descriptor in use is at a position its file has. */
  ghost predicate DescValid(img: Image, d: Desc) {
    && (d.flag && d.op == OnFile ==> d.inode < |img.inodes| && d.pos <= img.inodes[d.inode].len)
    && (d.flag && d.op == OnDirectory ==> d.pos <= img.nent + 1)
  }

  ghost predicate FdsValid(img: Image, fds: seq<Desc>) {
    WellFormed(img) && |fds| == MAX_FILES && forall i :: 0 <= i < MAX_FILES ==> DescValid(img, fds[i])
  }

  ghost function FileOf(img: Image, d: Desc): OpenFile
    requires WellFormed(img) && DescValid(img, d) && d.flag
  {
    match d.op
    case OnTerminal => Terminal
    case OnRtc => Rtc
    case OnDirectory => Directory(d.pos)
    case OnFile => Regular(Contents(img, d.inode), d.pos)
  }

  /** The map a control block's descriptors stand for. */
  ghost function Files(img: Image, fds: seq<Desc>): (m: Table)
    requires FdsValid(img, fds)
    ensures forall i: nat :: i in m <==> i < MAX_FILES && fds[i].flag
    ensures forall i: nat :: i in m ==> m[i] == FileOf(img, fds[i])
  {
    map i: nat | i < MAX_FILES && fds[i].flag :: FileOf(img, fds[i])
  }

  function FreeFrom(fds: seq<Desc>, fd: nat): (r: nat)
    requires |fds| == MAX_FILES && fd <= MAX_FILES
    ensures fd <= r <= MAX_FILES && (r < MAX_FILES ==> !fds[r].flag)
    decreases MAX_FILES - fd
  {
    if fd < MAX_FILES && fds[fd].flag then FreeFrom(fds, fd + 1) else fd
  }

  ghost function OpenFds(fds: seq<Desc>, img: Image, fname: seq<Byte>): (int, seq<Desc>)
    requires WellFormed(img) && |fds| == MAX_FILES
  {
    match Lookup(img, fname)
    case None => (-1, fds)
    case Some(d) =>
      var fd: int := FreeFrom(fds, 2);
      if 2 < d.ft then (0, fds) else if fd == MAX_FILES then (-1, fds) else (fd, fds[fd := NewDesc(d, fds[fd])])
  }

  /** A descriptor for an entry that was found; only a regular file sets the inode. */
  function NewDesc(d: Dentry, was: Desc): Desc {
    if d.ft == 2 then Desc(OnFile, d.ind, 0, true)
    else was.(op := if d.ft == 0 then OnRtc else OnDirectory, pos := 0, flag := true)
  }

  function CloseFds(fds: seq<Desc>, fd: int): (int, seq<Desc>)
    requires |fds| == MAX_FILES
  {
    if 2 <= fd < MAX_FILES && fds[fd].flag then (0, fds[fd := fds[fd].(flag := false)]) else (-1, fds)
  }

  /** A read whose end wraps around in 32 bits. */
  predicate Wraps(fds: seq<Desc>, fd: int, n: int)
    requires |fds| == MAX_FILES
  {
    0 <= fd < MAX_FILES && fd != 1 && fds[fd].flag && fds[fd].op == OnFile && WORD <= fds[fd].pos + ToWord(n)
  }

  /** The result, the bytes stored in the caller's buffer, and the table afterwards. `typed` is what a
      terminal read stores. */
  ghost function ReadFds(fds: seq<Desc>, img: Image, fd: int, n: int, device: int, typed: seq<Byte>)
    : (int, seq<Byte>, seq<Desc>)
    requires FdsValid(img, fds) && !Wraps(fds, fd, n)
  {
    if fd < 0 || fd == 1 || MAX_FILES <= fd || !fds[fd].flag then (-1, [], fds)
    else
      var d := fds[fd];
      match d.op
      case OnFile =>
        var bytes := Contents(img, d.inode);
        var k := Available(|bytes|, d.pos, ToWord(n));
        (k, bytes[d.pos..d.pos + k], fds[fd := d.(pos := d.pos + k)])
      case OnDirectory =>
        if img.nent < d.pos then (-1, [], fds)
        else
          var name := NamePrefix(img.dirs[d.pos], n);
          (|name|, if |name| < n then name + [NUL] else name, fds[fd := d.(pos := d.pos + 1)])
      case OnTerminal => (device, typed, fds)
      case OnRtc => (device, [], fds)
  }

  // ---- The table refines the map ----

  /** A descriptor that changed, and nothing else. */
  lemma FilesUpdate(img: Image, fds: seq<Desc>, fd: nat, d: Desc)
    requires FdsValid(img, fds) && fd < MAX_FILES && DescValid(img, d)
    ensures FdsValid(img, fds[fd := d])
    ensures Files(img, fds[fd := d]) == if d.flag then Files(img, fds)[fd := FileOf(img, d)] else Files(img, fds) - {fd}
  {
    hide WellFormed;
  }

  lemma {:induction false} FreeIsLeastFree(img: Image, fds: seq<Desc>, fd: nat)
    requires FdsValid(img, fds) && fd <= MAX_FILES
    ensures FreeFrom(fds, fd) == LeastFree(Files(img, fds), fd)
    decreases MAX_FILES - fd
  {
    assert |fds| == MAX_FILES;
    hide FdsValid;
    if fd < MAX_FILES && fds[fd].flag {
      FreeIsLeastFree(img, fds, fd + 1);
    }
  }

  lemma OpenRefines(img: Image, fds: seq<Desc>, fname: seq<Byte>)
    requires FdsValid(img, fds)
    ensures var (r, after) := OpenFds(fds, img, fname);
            FdsValid(img, after) && (r, Files(img, after)) == OpenSpec(Files(img, fds), img, fname)
  {
    assert WellFormed(img) && Listed(img) && |fds| == MAX_FILES;
    hide FdsValid, WellFormed, Listed, Files, Contents, Lookup, NewDesc, Opened, DescValid, FileOf;
    FreeIsLeastFree(img, fds, 2);
    var fd, found := FreeFrom(fds, 2), Lookup(img, fname);
    if found.Some? && found.value.ft <= 2 && fd < MAX_FILES {
      LookupWellFormed(img, fname);
      NewDescIs(img, found.value, fds[fd]);
      FilesUpdate(img, fds, fd, NewDesc(found.value, fds[fd]));
    }
  }

  lemma NewDescIs(img: Image, d: Dentry, was: Desc)
    requires WellFormed(img) && d.ft <= 2 && (d.ft == 2 ==> d.ind < |img.inodes|)
    ensures var desc := NewDesc(d, was);
            desc.flag && DescValid(img, desc) && FileOf(img, desc) == Opened(img, d)
  {
  }

  lemma CloseRefines(img: Image, fds: seq<Desc>, fd: int)
    requires FdsValid(img, fds)
    ensures var (r, after) := CloseFds(fds, fd);
            FdsValid(img, after) && (r, Files(img, after)) == CloseSpec(Files(img, fds), fd)
  {
    if 2 <= fd < MAX_FILES {
      FilesUpdate(img, fds, fd, fds[fd].(flag := false));
    }
  }

  lemma ReadRefines(img: Image, fds: seq<Desc>, fd: int, n: int, device: int, typed: seq<Byte>)
    requires FdsValid(img, fds)
    ensures Wraps(fds, fd, n) <==> !ReadFits(Files(img, fds), fd, n)
    ensures !Wraps(fds, fd, n) ==>
              var (r, bytes, after) := ReadFds(fds, img, fd, n, device, typed);
              var (k, got, m) := ReadSpec(Files(img, fds), img, fd, n, device);
              && FdsValid(img, after) && r == k && Files(img, after) == m && (got != [] ==> got <= bytes && r == |got|)
              && bytes == ReadStores(Files(img, fds), img, fd, n, typed)
  {
    hide Contents, CStr, NamePrefix;
    if 0 <= fd < MAX_FILES && fd != 1 && fds[fd].flag {
      InodeLength(img, fds, fd);
      if !Wraps(fds, fd, n) {
        var after := ReadFds(fds, img, fd, n, device, typed).2;
        FilesUpdate(img, fds, fd, after[fd]);
        assert fds[fd := fds[fd]] == fds;
      }
    }
  }

  lemma InodeLength(img: Image, fds: seq<Desc>, fd: nat)
    requires FdsValid(img, fds) && fd < MAX_FILES
    ensures fds[fd].flag && fds[fd].op == OnFile ==> fds[fd].pos <= |Contents(img, fds[fd].inode)| < WORD
  {
    assert DescValid(img, fds[fd]);
  }

  // ---- The calls in place ----

  class Process {
    const img: Image
    const fds: array<Desc>

    ghost predicate Valid()
      reads fds
    {
      FdsValid(img, fds[..])
    }

    ghost function Abs(): Table
      requires Valid()
      reads fds
    {
      Files(img, fds[..])
    }

    method FirstFree() returns (fd: nat)
      requires fds.Length == MAX_FILES
      ensures fd == FreeFrom(fds[..], 2)
    {
      fd := 2;
      while fd < MAX_FILES && fds[fd].flag
        invariant 2 <= fd <= MAX_FILES && FreeFrom(fds[..], 2) == FreeFrom(fds[..], fd)
      {
        fd := fd + 1;
      }
    }

    /** sys_open */
    method SysOpen(fname: seq<Byte>) returns (r: int)
      requires Valid() && (NUL in fname || NAME_LEN <= |fname|)
      modifies fds
      ensures Valid() && (r, Abs()) == OpenSpec(old(Abs()), img, fname)
      ensures (r, fds[..]) == OpenFds(old(fds[..]), img, fname)
    {
      OpenRefines(img, fds[..], fname);
      hide WellFormed, Contents, Lookup, Files, DescValid, OpenSpec;
      var found := ReadDentryByName(img, fname);
      if found.None? {
        return -1;
      }
      var d := found.value;
      if 2 < d.ft {
        return 0;
      }
      var fd := FirstFree();
      if fd == MAX_FILES {
        return -1;
      }
      ghost var was := fds[..];
      fds[fd] := fds[fd].(flag := true, pos := 0, op := if d.ft == 0 then OnRtc else OnDirectory);
      if d.ft == 2 {
        fds[fd] := fds[fd].(op := OnFile, inode := d.ind);
      }
      assert fds[..] == was[fd := fds[fd]];
      r := fd;
    }

    /** sys_close */
    method SysClose(fd: int) returns (r: int)
      requires Valid()
      modifies fds
      ensures Valid() && (r, Abs()) == CloseSpec(old(Abs()), fd)
      ensures (r, fds[..]) == CloseFds(old(fds[..]), fd)
    {
      CloseRefines(img, fds[..], fd);
      hide WellFormed, Files, DescValid, CloseSpec;
      if fd <= 1 || 8 <= fd {
        return -1;
      }
      if !fds[fd].flag {
        return -1;
      }
      ghost var was := fds[..];
      fds[fd] := fds[fd].(flag := false);
      assert fds[..] == was[fd := fds[fd]];
      r := 0;
    }

    /** file_read: the position moves by what was read. */
    method FileRead(fd: nat, buf: array<Byte>, n: int) returns (r: int)
      requires Valid() && fd != 1 && fd < MAX_FILES && fds[fd].flag && fds[fd].op == OnFile && !Wraps(fds[..], fd, n)
      requires |ReadFds(fds[..], img, fd, n, 0, []).1| <= buf.Length
      modifies fds, buf
      ensures var (k, bytes, after) := ReadFds(old(fds[..]), img, fd, n, 0, []);
              0 <= r == k == |bytes| <= buf.Length && buf[..r] == bytes && fds[..] == after
      ensures forall i :: 0 <= i < buf.Length && r <= i ==> buf[i] == old(buf[i])
    {
      InodeLength(img, fds[..], fd);
      hide WellFormed, Contents;
      var d := fds[fd];
      ghost var was := fds[..];
      assert DescValid(img, was[fd]);
      r := ReadData(img, d.inode, d.pos, buf, ToWord(n));
      fds[fd] := d.(pos := d.pos + r);
      assert fds[..] == was[fd := fds[fd]];
    }

    /** dir_read: the entry at the position, which moves on by one. */
    method DirRead(fd: nat, buf: array<Byte>, n: int) returns (r: int)
      requires Valid() && fd != 1 && fd < MAX_FILES && fds[fd].flag && fds[fd].op == OnDirectory
      requires |ReadFds(fds[..], img, fd, n, 0, []).1| <= buf.Length
      modifies fds, buf
      ensures var (k, bytes, after) := ReadFds(old(fds[..]), img, fd, n, 0, []);
              && r == k && |bytes| <= buf.Length && buf[..|bytes|] == bytes && fds[..] == after
              && forall i :: |bytes| <= i < buf.Length ==> buf[i] == old(buf[i])
    {
      hide CStr;
      if img.nent < fds[fd].pos {
        return -1;
      }
      assert WellFormed(img);
      var d := img.dirs[fds[fd].pos];
      ghost var was := fds[..];
      assert DescValid(img, was[fd]);
      fds[fd] := fds[fd].(pos := fds[fd].pos + 1);
      assert fds[..] == was[fd := fds[fd]];
      EntryEnds(d);
      r := CopyName(EntryBytes(d), buf, n);
      ghost var name := NamePrefix(d, n);
      assert buf[..r] == name;
      assert r < n ==> buf[..r + 1] == name + [NUL];
    }

    /** The loop of dir_read. */
    static method CopyName(bytes: seq<Byte>, buf: array<Byte>, n: int) returns (r: nat)
      requires |CStr(bytes)| < |bytes|
      requires n <= buf.Length || |CStr(bytes)| < buf.Length
      modifies buf
      ensures r == if n <= 0 then 0 else if n < |CStr(bytes)| then n else |CStr(bytes)|
      ensures r <= buf.Length && forall i :: 0 <= i < r ==> buf[i] == CStr(bytes)[i]
      ensures r < n ==> r < buf.Length && buf[r] == NUL
      ensures forall i :: 0 <= i < buf.Length && (r < i || (r == i && n <= r)) ==> buf[i] == old(buf[i])
    {
      ghost var s := CStr(bytes);
      assert forall k :: 0 <= k < |s| ==> s[k] == bytes[k] != NUL;
      assert bytes[|s|] == NUL;
      hide CStr;
      r := 0;
      while r < n
        invariant (r == 0 || r <= n) && r <= |s| && r <= buf.Length
        invariant forall i :: 0 <= i < r ==> buf[i] == s[i]
        invariant forall i :: r <= i < buf.Length ==> buf[i] == old(buf[i])
      {
        buf[r] := bytes[r];
        if bytes[r] == NUL {
          break;
        }
        r := r + 1;
      }
    }

    static lemma EntryEnds(d: Dentry)
      requires d.ft < 0x100_0000
      ensures |CStr(EntryBytes(d))| < |EntryBytes(d)|
    {
      var s := EntryBytes(d);
      assert s[|s| - 1] == NUL;
    }

    /** sys_read. A terminal or clock read is the device's own affair: its result is `device`. */
    method SysRead(fd: int, buf: array<Byte>, n: int, device: int) returns (r: int)
      requires Valid() && !Wraps(fds[..], fd, n) && |ReadFds(fds[..], img, fd, n, device, []).1| <= buf.Length
      modifies fds, buf
      ensures Valid()
      ensures var (k, bytes, m) := ReadSpec(old(Abs()), img, fd, n, device);
              r == k && Abs() == m && (bytes != [] ==> 0 <= r <= buf.Length && buf[..r] == bytes)
      ensures var (_, bytes, after) := ReadFds(old(fds[..]), img, fd, n, device, []);
              && fds[..] == after && buf[..|bytes|] == bytes
              && forall i :: |bytes| <= i < buf.Length ==> buf[i] == old(buf[i])
    {
      ghost var was := fds[..];
      ReadRefines(img, was, fd, n, device, []);
      ghost var spec := ReadFds(was, img, fd, n, device, []);
      hide WellFormed, Contents, Files, ReadSpec, NamePrefix;
      if fd < 0 {
        return -1;
      }
      if fd == 1 {
        return -1;
      }
      if fd > 7 {
        return -1;
      }
      if !fds[fd].flag {
        return -1;
      }
      match fds[fd].op
      case OnFile =>
        r := FileRead(fd, buf, n);
      case OnDirectory =>
        r := DirRead(fd, buf, n);
      case _ =>
        r := device;
    }
  }
}
