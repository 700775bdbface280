/** The command line of sys_execute and the arguments sys_getargs hands over
    (student-distrib/syscall.c). */
module Command {
  import opened Bytes

  const NAME_SIZE: nat := 32   // MAX_CMD_LEN
  const ARGS_SIZE: nat := 128

  // ---- What a command line means ----

  /** The command as typed: the C string up to its first newline. */
  function LineOf(command: seq<Byte>): seq<Byte> {
    var s := CStr(command);
    s[..IndexOf(s, NEWLINE)]
  }

  /** The first word, cut to 32 bytes. */
  function WordOf(line: seq<Byte>): seq<Byte> {
    var e := IndexOf(line, SPACE);
    if e <= NAME_SIZE then line[..e] else line[..NAME_SIZE]
  }

  /** The index behind a run of spaces. */
  function SkipSpaces(s: seq<Byte>, i: nat): (k: nat)
    requires i <= |s|
    ensures i <= k <= |s| && (k < |s| ==> s[k] != SPACE)
    ensures forall j :: i <= j < k ==> s[j] == SPACE
    decreases |s| - i
  {
    if i < |s| && s[i] == SPACE then SkipSpaces(s, i + 1) else i
  }

  /** What follows the first run of spaces, as far as command index 128; a first word of more than 32
      bytes has no arguments. */
  function ArgsOf(line: seq<Byte>): seq<Byte> {
    var e := IndexOf(line, SPACE);
    if e < |line| && e <= NAME_SIZE then
      var k := SkipSpaces(line, e);
      if ARGS_SIZE <= k then [] else if |line| <= ARGS_SIZE then line[k..] else line[k..ARGS_SIZE]
    else []
  }

  // ---- What the scans do on the bytes in memory ----

  /** Where the scan for the first word stops: it does not look for the NUL. */
  function WordEnd(command: seq<Byte>, i: nat): (e: nat)
    requires i <= NAME_SIZE < |command|
    ensures i <= e <= NAME_SIZE
    ensures forall j :: i <= j < e ==> command[j] != NEWLINE && command[j] != SPACE
    ensures e < NAME_SIZE ==> command[e] == NEWLINE || command[e] == SPACE
    decreases NAME_SIZE - i
  {
    if i < NAME_SIZE && command[i] != NEWLINE && command[i] != SPACE then WordEnd(command, i + 1) else i
  }

  /** Where the scan for the arguments stops. */
  function ArgsEnd(command: seq<Byte>, k: nat): (e: nat)
    requires k <= |command| && ARGS_SIZE < |command|
    ensures k <= e && (k <= ARGS_SIZE ==> e <= ARGS_SIZE) && e <= |command|
    ensures forall j :: k <= j < e ==> command[j] != NEWLINE && command[j] != NUL
    ensures e < ARGS_SIZE ==> command[e] == NEWLINE || command[e] == NUL
    decreases |command| - k
  {
    if k < ARGS_SIZE && command[k] != NEWLINE && command[k] != NUL then ArgsEnd(command, k + 1) else k
  }

  /** The text the scans pick as arguments. */
  function ScannedArgs(command: seq<Byte>): (r: seq<Byte>)
    requires ARGS_SIZE < |command|
    ensures 0 < WordEnd(command, 0) ==> |r| < ARGS_SIZE
    ensures NUL !in r
  {
    var i := WordEnd(command, 0);
    if command[i] == SPACE then
      var k := SkipSpaces(command, i);
      command[k..ArgsEnd(command, k)]
    else []
  }

  /** Behind the end of a short command without spaces, within the first 33 bytes and before any
      newline, memory holds a space that is followed by text. */
  predicate StrayArgs(command: seq<Byte>)
    requires ARGS_SIZE < |command|
  {
    var n := |CStr(command)|;
    var i := WordEnd(command, 0);
    && n < i && command[i] == SPACE
    && var k := SkipSpaces(command, i);
       k < ARGS_SIZE && command[k] != NEWLINE && command[k] != NUL
  }

  lemma LineBytes(command: seq<Byte>)
    requires NUL in command
    ensures var line, n := LineOf(command), |CStr(command)|;
            && line <= command && |line| <= n < |command|
            && (forall j :: 0 <= j < |line| ==> command[j] != NUL && command[j] != NEWLINE)
            && (command[|line|] == NEWLINE || (command[|line|] == NUL && |line| == n))
  {
    var s := CStr(command);
    var e := IndexOf(s, NEWLINE);
    assert |s| < |command|;
    assert forall j :: 0 <= j < |s| ==> s[j] == command[j];
    assert forall j :: 0 <= j < e ==> s[j] == s[..e][j];
  }

  /** The scan stops at the line's first space, if that comes soon enough. */
  lemma WordEndInLine(command: seq<Byte>)
    requires NUL in command && ARGS_SIZE < |command|
    ensures var line, i := LineOf(command), WordEnd(command, 0);
            var e := IndexOf(line, SPACE);
            && (e < |line| && e <= NAME_SIZE ==> i == e)
            && (e < |line| && NAME_SIZE < e ==> i == NAME_SIZE && command[i] != SPACE)
            && (e == |line| ==> |line| <= i || i == NAME_SIZE)
            && (e == |line| && i < |line| ==> command[i] != SPACE)
            && (e == |line| && command[|line|] == NEWLINE && |line| <= NAME_SIZE ==> i == |line|)
  {
    LineBytes(command);
    var line, i := LineOf(command), WordEnd(command, 0);
    var e := IndexOf(line, SPACE);
    hide LineOf;
    assert forall j :: 0 <= j < e ==> line[j] == line[..e][j];
    assert forall j :: 0 <= j < |line| ==> line[j] == command[j];
  }

  lemma SkipInLine(command: seq<Byte>, line: seq<Byte>, i: nat)
    requires line <= command && i <= |line| < |command| && command[|line|] != SPACE
    ensures SkipSpaces(command, i) == SkipSpaces(line, i)
  {
    var a, b := SkipSpaces(command, i), SkipSpaces(line, i);
    assert forall j :: 0 <= j < |line| ==> line[j] == command[j];
  }

  lemma ArgsEndInLine(command: seq<Byte>, line: seq<Byte>, k: nat)
    requires line <= command && k <= |line| < |command| && ARGS_SIZE < |command|
    requires command[|line|] == NEWLINE || command[|line|] == NUL
    requires forall j :: 0 <= j < |line| ==> command[j] != NUL && command[j] != NEWLINE
    ensures ArgsEnd(command, k) == if ARGS_SIZE <= k then k else if |line| <= ARGS_SIZE then |line| else ARGS_SIZE
  {
  }

  lemma ArgsInLine(command: seq<Byte>, line: seq<Byte>, e: nat)
    requires line <= command && e < |line| < |command| && ARGS_SIZE < |command| && e <= NAME_SIZE
    requires command[|line|] == NEWLINE || command[|line|] == NUL
    requires forall j :: 0 <= j < |line| ==> command[j] != NUL && command[j] != NEWLINE
    requires e == IndexOf(line, SPACE)
    ensures command[SkipSpaces(command, e)..ArgsEnd(command, SkipSpaces(command, e))] == ArgsOf(line)
  {
    hide IndexOf;
    SkipInLine(command, line, e);
    var k := SkipSpaces(line, e);
    ArgsEndInLine(command, line, k);
    hide SkipSpaces, ArgsEnd;
    if ARGS_SIZE <= k {
      assert command[k..k] == [];
    } else {
      var end := if |line| <= ARGS_SIZE then |line| else ARGS_SIZE;
      assert command[k..end] == line[k..end];
    }
  }

  lemma NoArgsInLine(command: seq<Byte>, n: nat)
    requires NUL in command && ARGS_SIZE < |command| && n == |CStr(command)|
    requires command[WordEnd(command, 0)] == SPACE ==> n < WordEnd(command, 0)
    ensures ScannedArgs(command) == [] <==> !StrayArgs(command)
  {
    hide CStr, WordEnd;
    var i := WordEnd(command, 0);
    if command[i] == SPACE {
      var k := SkipSpaces(command, i);
      assert ScannedArgs(command) == command[k..ArgsEnd(command, k)];
    }
  }

  /** The scans pick the arguments of the command line exactly when memory behind a short command
      does not offer stray ones. */
  lemma ScannedArgsIff(command: seq<Byte>)
    requires NUL in command && ARGS_SIZE < |command|
    ensures ScannedArgs(command) == ArgsOf(LineOf(command)) <==> !StrayArgs(command)
  {
    LineBytes(command);
    WordEndInLine(command);
    hide LineOf, WordEnd, CStr, IndexOf, ArgsEnd, SkipSpaces;
    var line := LineOf(command);
    var e := IndexOf(line, SPACE);
    if e < |line| && e <= NAME_SIZE {
      ArgsInLine(command, line, e);
      assert command[e] == line[e];
    } else {
      NoArgsInLine(command, |CStr(command)|);
    }
  }

  lemma {:induction false} NulFreeIsCStr(s: seq<Byte>)
    requires NUL !in s
    ensures CStr(s) == s
  {
    assert forall k :: 0 <= k < |s| ==> s[k] in s;
  }

  function Zeros(n: nat): (r: seq<Byte>)
    ensures |r| == n && forall i :: 0 <= i < n ==> r[i] == NUL
  {
    seq(n, i => NUL)
  }

  /** The name buffer the scan fills. */
  function NameBytes(command: seq<Byte>): (r: seq<Byte>)
    requires ARGS_SIZE < |command|
    ensures |r| == NAME_SIZE
  {
    var e := WordEnd(command, 0);
    command[..e] + Zeros(NAME_SIZE - e)
  }

  lemma NameAt(command: seq<Byte>)
    requires ARGS_SIZE < |command|
    ensures var name, e := NameBytes(command), WordEnd(command, 0);
            && (forall j :: 0 <= j < e ==> name[j] == command[j])
            && (forall j :: e <= j < NAME_SIZE ==> name[j] == NUL)
  {
  }

  /** Whatever lies behind the NUL, the name looked up is the command's first word. */
  lemma ScannedName(command: seq<Byte>)
    requires NUL in command && ARGS_SIZE < |command|
    ensures CStr(NameBytes(command)) == WordOf(LineOf(command))
  {
    hide LineOf, WordEnd, CStr;
    var name := NameBytes(command);
    NameAt(command);
    hide NameBytes;
    LineBytes(command);
    WordEndInLine(command);
    var line, i := LineOf(command), WordEnd(command, 0);
    var e := IndexOf(line, SPACE);
    var n := if e <= NAME_SIZE then e else NAME_SIZE;
    assert n <= i;
    hide IndexOf;
    assert forall j :: 0 <= j < n ==> name[j] == line[j] != NUL;
    assert name[..n] == line[..n];
    if n < NAME_SIZE {
      assert name[n] == NUL;
      CStrIs(name, n);
    } else {
      assert name[..n] == name;
      NulFreeIsCStr(name);
    }
  }

  // ---- The scans in place ----

  /** The first part of sys_execute: the name buffer and the argument buffer, both zeroed before. The
      argument buffer keeps a NUL in its last byte. */
  method Scan(command: seq<Byte>) returns (name: array<Byte>, args: array<Byte>)
    requires ARGS_SIZE < |command| && command[|command| - 1] != SPACE
    ensures name.Length == NAME_SIZE && args.Length == ARGS_SIZE && fresh(name) && fresh(args)
    ensures name[..] == NameBytes(command)
    ensures name[0] != NUL ==> CStr(args[..]) == ScannedArgs(command) && args[ARGS_SIZE - 1] == NUL
  {
    hide CStr, WordEnd, NameBytes, ScannedArgs;
    var i;
    name, i := ScanName(command);
    args := new Byte[ARGS_SIZE](_ => 0);
    if name[0] == NUL {
      return;
    }
    assert 0 < i by { NameAt(command); }
    ScanArgs(command, i, args);
  }

  method ScanName(command: seq<Byte>) returns (name: array<Byte>, i: nat)
    requires ARGS_SIZE < |command|
    ensures name.Length == NAME_SIZE && fresh(name) && name[..] == NameBytes(command) && i == WordEnd(command, 0)
  {
    name := new Byte[NAME_SIZE](_ => 0);
    i := 0;
    while command[i] != NEWLINE && command[i] != SPACE && i < NAME_SIZE
      invariant 0 <= i <= NAME_SIZE && WordEnd(command, 0) == WordEnd(command, i)
      invariant forall j :: 0 <= j < i ==> name[j] == command[j]
      invariant forall j :: i <= j < NAME_SIZE ==> name[j] == NUL
      decreases NAME_SIZE - i
    {
      name[i] := command[i];
      i := i + 1;
    }
    assert i == WordEnd(command, 0);
    NameAt(command);
    hide WordEnd, NameBytes;
    assert forall j :: 0 <= j < NAME_SIZE ==> name[j] == NameBytes(command)[j];
  }

  method ScanArgs(command: seq<Byte>, word: nat, args: array<Byte>)
    requires ARGS_SIZE < |command| && command[|command| - 1] != SPACE && 0 < word == WordEnd(command, 0)
    requires args.Length == ARGS_SIZE && forall j :: 0 <= j < ARGS_SIZE ==> args[j] == NUL
    modifies args
    ensures CStr(args[..]) == ScannedArgs(command) && args[ARGS_SIZE - 1] == NUL
  {
    hide CStr, WordEnd;
    if command[word] != SPACE {
      CStrIs(args[..], 0);
      return;
    }
    var i := word;
    while command[i] == SPACE
      invariant word <= i < |command| && SkipSpaces(command, word) == SkipSpaces(command, i)
      decreases |command| - i
    {
      i := i + 1;
    }
    CopyArgs(command, i, args);
  }

  method CopyArgs(command: seq<Byte>, i: nat, args: array<Byte>)
    requires ARGS_SIZE < |command| && 0 < i < |command|
    requires args.Length == ARGS_SIZE && forall j :: 0 <= j < ARGS_SIZE ==> args[j] == NUL
    modifies args
    ensures CStr(args[..]) == command[i..ArgsEnd(command, i)] && args[ARGS_SIZE - 1] == NUL
  {
    hide CStr;
    var j := 0;
    while command[i + j] != NEWLINE && command[i + j] != NUL && i + j < ARGS_SIZE
      invariant 0 <= j && i + j < |command| && (j == 0 || i + j <= ARGS_SIZE)
      invariant ArgsEnd(command, i) == ArgsEnd(command, i + j)
      invariant forall k :: 0 <= k < j ==> args[k] == command[i + k] != NUL
      invariant forall k :: j <= k < ARGS_SIZE ==> args[k] == NUL
      decreases ARGS_SIZE - (i + j)
    {
      args[j] := command[i + j];
      j := j + 1;
    }
    assert args[..][..j] == command[i..i + j];
    CStrIs(args[..], j);
  }

  /** strcpy into the process control block: the new string and its NUL, then what was there before. */
  function StrCpyInto(dest: seq<Byte>, src: seq<Byte>): (r: seq<Byte>)
    requires |CStr(src)| < |dest|
    ensures |r| == |dest| && CStr(r) == CStr(src)
  {
    var s := CStr(src);
    var r := s + [NUL] + dest[|s| + 1..];
    assert r[..|s|] == s;
    CStrIs(r, |s|);
    r
  }

  /** There is an argument, and it fits with its NUL. */
  predicate HandsOver(block: seq<Byte>, nbytes: int) {
    CStr(block) != [] && |CStr(block)| < nbytes
  }

  /** sys_getargs: `block` is the process control block from its `args` field on. Refuses an empty
      argument and a buffer the string and its NUL do not fit into; otherwise the buffer holds the
      string. */
  method GetArgs(block: seq<Byte>, buf: array<Byte>, nbytes: int) returns (r: int)
    requires nbytes <= buf.Length && nbytes <= |block| && ARGS_SIZE <= |block| && NUL in block[..ARGS_SIZE]
    modifies buf
    ensures r == 0 || r == -1
    ensures r == 0 <==> HandsOver(block, nbytes)
    ensures r == 0 ==> buf[..nbytes] == block[..nbytes] && CStr(buf[..]) == CStr(block)
    ensures forall i :: 0 <= i < buf.Length && nbytes <= i ==> buf[i] == old(buf[i])
    ensures r == -1 ==> buf[..] == old(buf[..])
  {
    ghost var s := CStr(block);
    assert NUL in block && |s| < |block|;
    hide CStr;
    if nbytes <= 0 {
      return -1;
    }
    if block[0] == NUL {
      return -1;
    }
    var n := 0;
    while block[n] != NUL
      invariant 0 <= n <= |s|
      decreases |s| - n
    {
      n := n + 1;
    }
    assert n == |s|;
    if nbytes <= n {
      return -1;
    }
    for i := 0 to nbytes
      invariant forall k :: 0 <= k < i ==> buf[k] == block[k]
      invariant forall k :: i <= k < buf.Length ==> buf[k] == old(buf[k])
    {
      buf[i] := block[i];
    }
    assert buf[..][..n] == s;
    CStrIs(buf[..], n);
    r := 0;
  }
}
