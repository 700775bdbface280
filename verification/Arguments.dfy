/** Splitting a command into words in place, and joining words again (syscalls/ece391emulate.c,
    ece391_execute and ece391_getargs). */
module Arguments {
  import opened Bytes

  const MAX_COMMAND: nat := 1023

  // ---- Words ----

  predicate Separates(b: Byte) {
    b == SPACE || b == NEWLINE
  }

  function WordLen(s: seq<Byte>): (e: nat)
    ensures e <= |s| && (e < |s| ==> Separates(s[e]))
    ensures forall i :: 0 <= i < e ==> !Separates(s[i])
  {
    if s == [] || Separates(s[0]) then 0 else 1 + WordLen(s[1..])
  }

  function Spaces(s: seq<Byte>): (k: nat)
    ensures k <= |s| && (k < |s| ==> s[k] != SPACE)
    ensures forall i :: 0 <= i < k ==> s[i] == SPACE
  {
    if s == [] || s[0] != SPACE then 0 else 1 + Spaces(s[1..])
  }

  /** The text behind a word and the one separator that ended it. */
  function After(s: seq<Byte>, e: nat): seq<Byte> {
    if e < |s| then s[e + 1..] else []
  }

  /** The arguments in a text: words divided by spaces. A newline right behind a word divides like a
      space; any other newline ends the arguments. */
  function Tokens(s: seq<Byte>): (ws: seq<seq<Byte>>)
    ensures forall w :: w in ws ==> IsWord(w)
    ensures 2 * |ws| <= |s| + 1
    decreases |s|
  {
    var t := s[Spaces(s)..];
    if t == [] || t[0] == NEWLINE then []
    else
      var e := WordLen(t);
      assert t[..e] != [] by { assert !Separates(t[0]); }
      [t[..e]] + Tokens(After(t, e))
  }

  predicate IsWord(w: seq<Byte>) {
    w != [] && forall i :: 0 <= i < |w| ==> !Separates(w[i])
  }

  function Join(ws: seq<seq<Byte>>): seq<Byte> {
    if ws == [] then [] else if |ws| == 1 then ws[0] else ws[0] + [SPACE] + Join(ws[1..])
  }

  /** A word in front of a text, alone or divided from it by a space, is its first argument. */
  lemma WordFirst(w: seq<Byte>, rest: seq<Byte>)
    requires IsWord(w)
    ensures Tokens(w) == [w]
    ensures Tokens(w + [SPACE] + rest) == [w] + Tokens(rest)
  {
    assert Tokens([]) == [];
    TokensOfWord(w, w);
    TokensOfWord(w + [SPACE] + rest, w);
    assert After(w + [SPACE] + rest, |w|) == rest;
  }

  lemma TokensOfWord(s: seq<Byte>, w: seq<Byte>)
    requires IsWord(w) && w <= s && (|w| < |s| ==> s[|w|] == SPACE)
    ensures Tokens(s) == [w] + Tokens(After(s, |w|))
  {
    hide Spaces, WordLen;
    assert forall i :: 0 <= i < |w| ==> s[i] == w[i] && !Separates(w[i]);
    assert s[0] != SPACE && s[0] != NEWLINE;
    assert Spaces(s) == 0 && s[0..] == s;
    assert WordLen(s) == |w| && s[..|w|] == w;
  }

  /** Joining words and splitting again gives the words back. */
  lemma {:induction false} JoinThenSplit(ws: seq<seq<Byte>>)
    requires forall i :: 0 <= i < |ws| ==> IsWord(ws[i])
    ensures Tokens(Join(ws)) == ws
  {
    if ws == [] {
      assert Tokens([]) == [];
    } else {
      hide Tokens, IsWord;
      var w, rest := ws[0], ws[1..];
      assert Join(ws) == if |ws| == 1 then w else w + [SPACE] + Join(rest);
      hide Join;
      WordFirst(w, Join(rest));
      if |ws| == 1 {
        assert ws == [w];
      } else {
        JoinThenSplit(rest);
        assert ws == [w] + rest;
      }
    }
  }

  /** The text between single spaces. */
  function Fields(s: seq<Byte>): seq<seq<Byte>>
    decreases |s|
  {
    var i := IndexOf(s, SPACE);
    if i == |s| then [s] else [s[..i]] + Fields(s[i + 1..])
  }

  function NonEmpty(fs: seq<seq<Byte>>): seq<seq<Byte>> {
    if fs == [] then [] else (if fs[0] == [] then [] else [fs[0]]) + NonEmpty(fs[1..])
  }

  lemma NonEmptyCons(f: seq<Byte>, fs: seq<seq<Byte>>)
    ensures NonEmpty([f] + fs) == if f == [] then NonEmpty(fs) else [f] + NonEmpty(fs)
  {
    assert ([f] + fs)[1..] == fs;
  }

  lemma FieldsAre(s: seq<Byte>, i: nat)
    requires i == IndexOf(s, SPACE)
    ensures Fields(s) == if i == |s| then [s] else [s[..i]] + Fields(s[i + 1..])
  {
  }

  lemma FieldsStep(s: seq<Byte>, i: nat)
    requires i == IndexOf(s, SPACE)
    ensures NonEmpty(Fields(s))
         == if i == 0 then (if s == [] then [] else NonEmpty(Fields(s[1..])))
            else [s[..i]] + if i == |s| then [] else NonEmpty(Fields(s[i + 1..]))
  {
    hide IndexOf, NonEmpty, Fields;
    NonEmptyNone();
    FieldsAre(s, i);
    if i == |s| {
      assert s[..i] == s && [s] + [] == [s];
      NonEmptyCons(s, []);
    } else {
      NonEmptyCons(s[..i], Fields(s[i + 1..]));
    }
  }

  lemma NonEmptyNone()
    ensures NonEmpty([]) == []
  {
  }

  /** Without newlines the arguments are the non-empty fields between spaces. */
  lemma {:induction false} TokensAreFields(s: seq<Byte>)
    requires NEWLINE !in s
    ensures Tokens(s) == NonEmpty(Fields(s))
    decreases |s|
  {
    var i := IndexOf(s, SPACE);
    FieldsStep(s, i);
    NoTokens();
    hide Tokens, Fields, NonEmpty;
    if s == [] {
    } else if i == 0 {
      LeadingSpace(s);
      TokensAreFields(s[1..]);
    } else {
      var w := s[..i];
      assert IsWord(w) by { assert forall k :: 0 <= k < i ==> w[k] == s[k] && w[k] in w && s[k] in s; }
      TokensOfWord(s, w);
      if i < |s| {
        TokensAreFields(s[i + 1..]);
      }
    }
  }

  lemma NoTokens()
    ensures Tokens([]) == []
  {
  }

  lemma LeadingSpace(s: seq<Byte>)
    requires s != [] && s[0] == SPACE
    ensures Tokens(s) == Tokens(s[1..])
  {
    assert s[Spaces(s)..] == s[1..][Spaces(s[1..])..];
  }

  /** Splitting and joining normalises a text: doing it again changes nothing. */
  lemma NormalisingTwice(s: seq<Byte>)
    ensures Tokens(Join(Tokens(s))) == Tokens(s)
    ensures Join(Tokens(Join(Tokens(s)))) == Join(Tokens(s))
  {
    var ws := Tokens(s);
    assert forall i :: 0 <= i < |ws| ==> ws[i] in ws;
    JoinThenSplit(ws);
  }

  // ---- The split in place ----

  /** A NUL-terminated word lies at `at`. */
  ghost predicate WordAt(buf: seq<Byte>, at: nat, w: seq<Byte>) {
    at + |w| < |buf| && NUL !in w && buf[at..at + |w|] == w && buf[at + |w|] == NUL
  }

  lemma WordIsCStr(buf: seq<Byte>, at: nat, w: seq<Byte>)
    requires WordAt(buf, at, w)
    ensures CStr(buf[at..]) == w
  {
    assert buf[at..][..|w|] == w;
    CStrIs(buf[at..], |w|);
  }

  /** The words found so far lie in front of `p`. */
  ghost predicate WordsAt(buf: seq<Byte>, args: seq<nat>, ws: seq<seq<Byte>>, p: nat) {
    && |args| == |ws|
    && forall i :: 0 <= i < |ws| ==> WordAt(buf, args[i], ws[i]) && args[i] + |ws[i]| < p
  }

  /** The text still to be split starts at `p` and ends with a NUL at `end`. */
  ghost predicate TextAt(buf: seq<Byte>, p: nat, end: nat, s: seq<Byte>) {
    p <= end < |buf| && buf[p..end] == s && buf[end] == NUL && NUL !in s
  }

  /** Words in front stay where they are when a byte behind them changes. */
  lemma WordsStay(buf: seq<Byte>, args: seq<nat>, ws: seq<seq<Byte>>, p: nat, q: nat, b: Byte)
    requires WordsAt(buf, args, ws, p) && p <= q < |buf|
    ensures WordsAt(buf[q := b], args, ws, p)
  {
    forall i | 0 <= i < |ws|
      ensures WordAt(buf[q := b], args[i], ws[i])
    {
      var at := args[i];
      assert buf[q := b][at..at + |ws[i]|] == buf[at..at + |ws[i]|];
    }
  }

  method SkipSpaces(buf: array<Byte>, p: nat, ghost end: nat, ghost s: seq<Byte>) returns (q: nat)
    requires TextAt(buf[..], p, end, s)
    ensures q == p + Spaces(s) && TextAt(buf[..], q, end, s[Spaces(s)..])
  {
    q := p;
    while buf[q] == SPACE
      invariant p <= q <= end && q - p <= Spaces(s)
      decreases end - q
    {
      assert q < end;
      assert s[q - p] == buf[q];
      q := q + 1;
    }
    assert q < end ==> s[q - p] == buf[q];
    assert q == p + Spaces(s);
    hide Spaces;
    assert buf[..][q..end] == s[q - p..];
  }

  method ScanWord(buf: array<Byte>, p: nat, ghost end: nat, ghost s: seq<Byte>) returns (q: nat)
    requires TextAt(buf[..], p, end, s)
    ensures q == p + WordLen(s) <= end
    ensures buf[p..q] == s[..WordLen(s)] && (q == end <==> buf[q] == NUL)
  {
    q := p;
    while buf[q] != NUL && !Separates(buf[q])
      invariant p <= q <= end && q - p <= WordLen(s)
      decreases end - q
    {
      assert q < end ==> s[q - p] == buf[q];
      q := q + 1;
    }
    assert q < end ==> s[q - p] == buf[q] && s[q - p] in s;
    assert q == p + WordLen(s);
    hide WordLen;
    assert buf[p..q] == s[..q - p];
  }

  /** One argument: the word at `p` gets its NUL, and the scan moves behind it. */
  method TakeWord(buf: array<Byte>, p: nat, ghost end: nat, ghost s: seq<Byte>,
                  ghost args: seq<nat>, ghost ws: seq<seq<Byte>>)
    returns (q: nat)
    requires TextAt(buf[..], p, end, s) && WordsAt(buf[..], args, ws, p)
    modifies buf
    ensures var e := WordLen(s);
            && TextAt(buf[..], q, end, After(s, e))
            && WordsAt(buf[..], args + [p], ws + [s[..e]], if e < |s| then q else end + 1)
    ensures forall k :: 0 <= k < p ==> buf[k] == old(buf[k])
  {
    hide WordLen;
    q := ScanWord(buf, p, end, s);
    ghost var e := WordLen(s);
    ghost var was := buf[..];
    assert forall b :: b in s[..e] ==> b in s;
    if buf[q] != NUL {
      WordsStay(was, args, ws, p, q, NUL);
      buf[q] := NUL;
      assert buf[..] == was[q := NUL];
      assert buf[..][p..q] == was[p..q];
      q := q + 1;
      assert buf[..][q..end] == was[p..end][e + 1..] == After(s, e);
    } else {
      assert buf[..][q..end] == [];
    }
    assert WordAt(buf[..], p, s[..e]);
  }

  const DOT_SLASH: seq<Byte> := [46, 47]

  /** The words of a command: the program with its path, and the arguments. */
  function CommandWords(command: seq<Byte>): (ws: seq<seq<Byte>>)
    ensures |command| <= MAX_COMMAND ==> |ws| <= 512
  {
    var e := WordLen(command);
    [DOT_SLASH + command[..e]] + Tokens(After(command, e))
  }

  const HERE: seq<Byte> := Ascii("./")

  /** For a command that begins with a word, these are its words with "./" in front of the first. */
  lemma CommandWordsAre(command: seq<Byte>)
    requires command != [] && !Separates(command[0])
    ensures Tokens(command) != []
    ensures CommandWords(command) == [HERE + Tokens(command)[0]] + Tokens(command)[1..]
  {
    assert Spaces(command) == 0;
    assert command[0..] == command;
    assert HERE == DOT_SLASH;
  }

  /** ece391_execute up to the fork: the command is copied behind "./" and cut into its words. `args`
      holds where each word starts. */
  method Split(command: seq<Byte>, buf: array<Byte>) returns (ok: bool, args: seq<nat>)
    requires NUL !in command && buf.Length == MAX_COMMAND + 3
    modifies buf
    ensures ok == (|command| <= MAX_COMMAND)
    ensures ok ==> |args| == |CommandWords(command)| <= 512
    ensures ok ==> forall i :: 0 <= i < |args| ==>
              args[i] <= buf.Length && CStr(buf[args[i]..]) == CommandWords(command)[i]
  {
    hide CStr, Tokens, WordLen, Spaces;
    if MAX_COMMAND < |command| {
      return false, [];
    }
    ok := true;
    ghost var ws;
    args, ws := SplitWords(command, buf);
    forall i | 0 <= i < |args|
      ensures args[i] <= buf.Length && CStr(buf[args[i]..]) == CommandWords(command)[i]
    {
      WordIsCStr(buf[..], args[i], ws[i]);
      assert buf[..][args[i]..] == buf[args[i]..];
    }
  }

  /** "./" and the command with its NUL are put into the buffer. */
  method CopyIn(command: seq<Byte>, buf: array<Byte>)
    requires NUL !in command && |command| + 2 < buf.Length
    modifies buf
    ensures TextAt(buf[..], 2, |command| + 2, command) && buf[0] == DOT_SLASH[0] && buf[1] == DOT_SLASH[1]
  {
    buf[0] := 46;
    buf[1] := 47;
    for i := 0 to |command|
      invariant buf[0] == 46 && buf[1] == 47
      invariant forall k :: 0 <= k < i ==> buf[k + 2] == command[k]
    {
      buf[i + 2] := command[i];
    }
    buf[|command| + 2] := NUL;
    assert buf[..][2..|command| + 2] == command;
  }

  /** The program's name: the scan starts behind "./", the word in front of it. */
  method TakeProgram(buf: array<Byte>, ghost end: nat, ghost command: seq<Byte>) returns (p: nat)
    requires TextAt(buf[..], 2, end, command) && buf[0] == DOT_SLASH[0] && buf[1] == DOT_SLASH[1]
    modifies buf
    ensures var e := WordLen(command);
            && TextAt(buf[..], p, end, After(command, e))
            && WordsAt(buf[..], [0], [DOT_SLASH + command[..e]], if e < |command| then p else end + 1)
  {
    hide WordLen;
    ghost var e := WordLen(command);
    assert WordsAt(buf[..], [], [], 2);
    p := TakeWord(buf, 2, end, command, [], []);
    ghost var w := DOT_SLASH + command[..e];
    assert WordAt(buf[..], ([] + [2])[0], ([] + [command[..e]])[0]);
    assert WordAt(buf[..], 0, w) by {
      assert buf[..][2..2 + e] == command[..e];
      assert forall b :: b in command[..e] ==> b in command;
      assert buf[..][0..2 + e] == [buf[0], buf[1]] + buf[..][2..2 + e];
    }
  }

  lemma WordsEarlier(buf: seq<Byte>, args: seq<nat>, ws: seq<seq<Byte>>, p: nat, q: nat)
    requires WordsAt(buf, args, ws, p) && p <= q
    ensures WordsAt(buf, args, ws, q)
  {
  }

  lemma TokensStep(s: seq<Byte>)
    ensures var t := s[Spaces(s)..];
            && (t == [] || t[0] == NEWLINE ==> Tokens(s) == [])
            && (t != [] && t[0] != NEWLINE ==> Tokens(s) == [t[..WordLen(t)]] + Tokens(After(t, WordLen(t))))
  {
  }

  method SplitWords(command: seq<Byte>, buf: array<Byte>) returns (args: seq<nat>, ghost ws: seq<seq<Byte>>)
    requires NUL !in command && buf.Length == MAX_COMMAND + 3 && |command| <= MAX_COMMAND
    modifies buf
    ensures ws == CommandWords(command) && WordsAt(buf[..], args, ws, buf.Length)
  {
    hide Tokens, WordLen, WordsAt, TextAt;
    ghost var end, e := |command| + 2, WordLen(command);
    CopyIn(command, buf);
    var p := TakeProgram(buf, end, command);
    args, ws := SplitArgs(buf, p, end, After(command, e), if e < |command| then p else end + 1,
                          [0], [DOT_SLASH + command[..e]]);
  }

  /** The loop over the arguments: the words in `ws0` are already found, `s` is left. */
  method SplitArgs(buf: array<Byte>, p0: nat, ghost end: nat, ghost s0: seq<Byte>, ghost bound0: nat,
                   args0: seq<nat>, ghost ws0: seq<seq<Byte>>)
    returns (args: seq<nat>, ghost ws: seq<seq<Byte>>)
    requires TextAt(buf[..], p0, end, s0) && WordsAt(buf[..], args0, ws0, bound0)
    requires bound0 == p0 || (s0 == [] && bound0 == end + 1)
    modifies buf
    ensures ws == ws0 + Tokens(s0) && WordsAt(buf[..], args, ws, buf.Length)
  {
    assert end < buf.Length;
    hide Tokens, WordLen, Spaces, WordsAt, TextAt;
    var p: nat := p0;
    args, ws := args0, ws0;
    ghost var s, all := s0, ws0 + Tokens(s0);
    ghost var bound: nat := bound0;
    while true
      invariant TextAt(buf[..], p, end, s) && WordsAt(buf[..], args, ws, bound)
      invariant bound == p || (s == [] && bound == end + 1)
      invariant ws + Tokens(s) == all
      decreases |s|
    {
      TokensStep(s);
      p := SkipSpaces(buf, p, end, s);
      ghost var t := s[Spaces(s)..];
      TextStarts(buf[..], p, end, t);
      if buf[p] == NUL || buf[p] == NEWLINE {
        EndArgs(buf, p, bound, args, ws);
        assert ws + [] == ws;
        return;
      }
      WordsEarlier(buf[..], args, ws, bound, p);
      ghost var e := WordLen(t);
      var at := p;
      p := TakeWord(buf, at, end, t, args, ws);
      Regroup(ws, t[..e], Tokens(After(t, e)));
      args, ws := args + [at], ws + [t[..e]];
      s, bound := After(t, e), if e < |t| then p else end + 1;
    }
  }

  lemma Regroup(ws: seq<seq<Byte>>, w: seq<Byte>, later: seq<seq<Byte>>)
    ensures ws + ([w] + later) == ws + [w] + later
  {
  }

  /** The byte under the scan is the text's first, or the NUL behind it. */
  lemma TextStarts(buf: seq<Byte>, p: nat, end: nat, t: seq<Byte>)
    requires TextAt(buf, p, end, t)
    ensures p <= end < |buf| && (t == [] <==> buf[p] == NUL) && (t != [] ==> t[0] == buf[p])
  {
    assert t != [] ==> t[0] == buf[p] && t[0] in t;
  }

  /** The scan is at the text's end, or at a newline that ends it: a NUL is stored there. */
  method EndArgs(buf: array<Byte>, p: nat, ghost bound: nat, args: seq<nat>, ghost ws: seq<seq<Byte>>)
    requires p < buf.Length && WordsAt(buf[..], args, ws, bound) && bound <= buf.Length
    requires bound <= p || buf[p] == NUL
    modifies buf
    ensures WordsAt(buf[..], args, ws, buf.Length)
  {
    hide WordsAt;
    ghost var was := buf[..];
    if bound <= p {
      WordsStay(was, args, ws, bound, p, NUL);
    } else {
      assert was[p := NUL] == was;
    }
    buf[p] := NUL;
    assert buf[..] == was[p := NUL];
    WordsEarlier(buf[..], args, ws, bound, buf.Length);
  }

  // ---- The join in place ----

  /** Some of the words, from the first on, fill the buffer to its last byte. */
  ghost predicate Fills(words: seq<seq<Byte>>, nbytes: int) {
    exists i :: 1 <= i <= |words| && |Join(words[..i])| == nbytes
  }

  /** ece391_getargs: the words with one space between them, if they and a NUL fit into `nbytes`. The
      byte behind the buffer is overwritten with a NUL exactly when some of the words fill the buffer,
      and nothing behind that one ever is. */
  method GetArgs(words: seq<seq<Byte>>, buf: array<Byte>, nbytes: int) returns (r: int)
    requires nbytes <= buf.Length && (Fills(words, nbytes) ==> nbytes < buf.Length)
    requires forall i :: 0 <= i < |words| ==> NUL !in words[i]
    modifies buf
    ensures r == 0 || r == -1
    ensures r == 0 <==> |Join(words)| < nbytes
    ensures r == 0 ==> CStr(buf[..]) == Join(words)
    ensures Fills(words, nbytes) ==> buf[nbytes] == NUL
    ensures forall k :: 0 <= k < buf.Length && nbytes <= k && !(k == nbytes && Fills(words, nbytes)) ==>
              buf[k] == old(buf[k])
  {
    hide CStr, Join, Fills;
    ghost var all := Join(words);
    var at: nat, left: int, idx: nat := 0, nbytes, 0;
    assert words[0..] == words;
    NothingJoined(nbytes);
    while idx < |words|
      invariant at + left == nbytes && idx <= |words| && (idx == |words| ==> words == []) && (0 <= left || at == 0)
      invariant at <= buf.Length && Put(words, idx, at)
      invariant forall k :: 0 <= k < at ==> buf[k] == all[k]
      invariant forall k :: 0 <= k < buf.Length && nbytes <= k ==> buf[k] == old(buf[k])
    {
      Turn(words, idx, at, nbytes);
      var w := words[idx];
      if |w| > left {
        return -1;
      }
      StrCpy(buf, at, w, all);
      at, left := at + |w|, left - |w|;
      idx := idx + 1;
      if |words| <= idx {
        break;
      }
      if left < 1 {
        return -1;
      }
      buf[at] := SPACE;
      at, left := at + 1, left - 1;
    }
    if left < 1 {
      return -1;
    }
    JoinNulFree(words);
    EndText(buf, at, all);
    r := 0;
  }

  /** The words before `i`, and a space behind them, take up `at` bytes of the text; the rest follows. */
  ghost predicate Put(words: seq<seq<Byte>>, i: nat, at: nat) {
    && i <= |words|
    && at == (if i == 0 then 0 else |Join(words[..i])| + 1)
    && at <= |Join(words)| && Join(words)[at..] == Join(words[i..])
  }

  /** One turn of the loop: the next word ends at `end` of the text, which is its end if the word is the
      last one and else a space; and `end` decides whether the words fill the buffer. */
  lemma Turn(words: seq<seq<Byte>>, i: nat, at: nat, nbytes: int)
    requires i < |words| && Put(words, i, at)
    ensures var all, end := Join(words), at + |words[i]|;
            && end <= |all| && (forall k :: 0 <= k < |words[i]| ==> all[at + k] == words[i][k])
            && (i + 1 == |words| ==> end == |all|)
            && (i + 1 < |words| ==> end < |all| && all[end] == SPACE && Put(words, i + 1, end + 1))
            && (end == nbytes ==> Fills(words, nbytes))
            && (nbytes < end && at <= nbytes ==> !Fills(words, nbytes))
            && (i + 1 == |words| && end < nbytes ==> !Fills(words, nbytes))
            && (i == 0 && nbytes < end ==> !Fills(words, nbytes))
  {
    hide Fills, Join;
    var all, w, todo := Join(words), words[i], Join(words[i..]);
    JoinStep(words, i);
    PrefixStep(words, i);
    FillsStep(words, i, nbytes);
    WordInText(all, at, w, todo);
    if i + 1 < |words| {
      SpaceInText(all, at + |w|, todo, w, Join(words[i + 1..]));
    } else {
      assert |all| == at + |todo|;
    }
  }

  /** The NUL behind the text. */
  method EndText(buf: array<Byte>, at: nat, ghost all: seq<Byte>)
    requires at == |all| && at < buf.Length && NUL !in all && forall k :: 0 <= k < at ==> buf[k] == all[k]
    modifies buf
    ensures CStr(buf[..]) == all
    ensures forall k :: at < k < buf.Length ==> buf[k] == old(buf[k])
  {
    hide CStr;
    buf[at] := NUL;
    assert buf[..][..at] == all;
    CStrIs(buf[..], at);
  }

  lemma WordInText(all: seq<Byte>, at: nat, w: seq<Byte>, todo: seq<Byte>)
    requires at <= |all| && all[at..] == todo && w <= todo
    ensures at + |w| <= |all| && (forall j :: 0 <= j < |w| ==> all[at + j] == w[j])
    ensures forall k :: at <= k < at + |w| ==> all[k] == w[k - at]
  {
    assert forall j :: 0 <= j < |w| ==> all[at + j] == todo[j];
  }

  lemma SpaceInText(all: seq<Byte>, end: nat, todo: seq<Byte>, w: seq<Byte>, rest: seq<Byte>)
    requires |w| <= end <= |all| && all[end - |w|..] == todo == w + [SPACE] + rest
    ensures end < |all| && all[end] == SPACE && all[end + 1..] == rest
  {
    assert all[end] == todo[|w|];
    assert all[end + 1..] == todo[|w| + 1..];
  }

  /** The words up to and with the next one, joined. */
  lemma {:induction false} PrefixStep(words: seq<seq<Byte>>, i: nat)
    requires i < |words|
    ensures Join(words[..i + 1]) == if i == 0 then words[0] else Join(words[..i]) + [SPACE] + words[i]
    decreases i
  {
    var shorter, longer := words[..i], words[..i + 1];
    if i != 0 {
      PrefixStep(words[1..], i - 1);
      assert longer[1..] == words[1..][..i] && shorter[1..] == words[1..][..i - 1];
      if i == 1 {
        assert longer[1..] == [words[1]];
      }
    }
  }

  lemma {:induction false} PrefixGrows(words: seq<seq<Byte>>, i: nat, j: nat)
    requires 1 <= i < j <= |words|
    ensures |Join(words[..i])| < |Join(words[..j])|
    decreases j - i
  {
    hide Join;
    PrefixStep(words, j - 1);
    if i < j - 1 {
      PrefixGrows(words, i, j - 1);
    }
  }

  /** Where the next word ends decides: before the end of the buffer nothing is decided yet, at the end
      the words fill it, and behind it they never did. */
  lemma FillsStep(words: seq<seq<Byte>>, i: nat, nbytes: int)
    requires i < |words|
    ensures |Join(words[..i + 1])| == nbytes ==> Fills(words, nbytes)
    ensures nbytes < |Join(words[..i + 1])| && (i == 0 || |Join(words[..i])| < nbytes) ==> !Fills(words, nbytes)
    ensures i + 1 == |words| && |Join(words[..i + 1])| < nbytes ==> !Fills(words, nbytes)
  {
    hide Join;
    forall k, j | 1 <= k < j <= |words|
      ensures |Join(words[..k])| < |Join(words[..j])|
    {
      PrefixGrows(words, k, j);
    }
  }

  /** strcpy of the next word; `all` is the text that is being put together. */
  method StrCpy(buf: array<Byte>, at: nat, w: seq<Byte>, ghost all: seq<Byte>)
    requires at + |w| < buf.Length && at + |w| <= |all|
    requires forall j :: 0 <= j < |w| ==> all[at + j] == w[j]
    requires forall k :: 0 <= k < at ==> buf[k] == all[k]
    modifies buf
    ensures forall k :: 0 <= k < at + |w| ==> buf[k] == all[k]
    ensures buf[at + |w|] == NUL
    ensures forall j :: at + |w| < j < buf.Length ==> buf[j] == old(buf[j])
  {
    for k := 0 to |w|
      invariant forall j :: at + k <= j < buf.Length ==> buf[j] == old(buf[j])
      invariant forall j :: 0 <= j < at + k ==> buf[j] == all[j]
    {
      buf[at + k] := w[k];
    }
    buf[at + |w|] := NUL;
  }

  lemma NothingJoined(nbytes: int)
    ensures Join([]) == [] && !Fills([], nbytes)
  {
  }

  lemma JoinStep(words: seq<seq<Byte>>, i: nat)
    requires i < |words|
    ensures Join(words[i..]) == if i + 1 == |words| then words[i] else words[i] + [SPACE] + Join(words[i + 1..])
    ensures words[i] <= Join(words[i..])
  {
    assert words[i..][1..] == words[i + 1..];
  }

  lemma {:induction false} JoinNulFree(words: seq<seq<Byte>>)
    requires forall i :: 0 <= i < |words| ==> NUL !in words[i]
    ensures NUL !in Join(words)
  {
    if 1 < |words| {
      JoinNulFree(words[1..]);
    }
  }
}
