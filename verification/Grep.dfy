/** `grep`'s search of one file (syscalls/ece391grep.c): a 1024-byte buffer is filled by reads,
    cut into lines, and the unfinished last line is copied down before the next read. */
module Grep {
  import opened Bytes

  const BUFSIZE: nat := 1024

  // ---- What grep is for: the lines that contain the needle ----

  /** The needle occurs in the line. An empty needle, or one whose first byte is 128 or more
      (a negative `char` compared with an unsigned byte), is found nowhere. */
  ghost predicate Matches(line: seq<Byte>, needle: seq<Byte>) {
    needle != [] && needle[0] < 128 && exists i: nat :: OccursAt(line, needle, i)
  }

  ghost predicate OccursAt(line: seq<Byte>, needle: seq<Byte>, i: nat) {
    i + |needle| <= |line| && forall k :: 0 <= k < |needle| ==> line[i + k] == needle[k]
  }

  /** The lines to be reported, in order. */
  ghost function Select(lines: seq<seq<Byte>>, needle: seq<Byte>): seq<seq<Byte>> {
    if lines == [] then []
    else (if Matches(lines[0], needle) then [lines[0]] else []) + Select(lines[1..], needle)
  }

  // ---- What the buffer makes of the file ----

  /** The file cut at newlines and, inside a longer line, after every 1024 bytes. */
  function Pieces(f: seq<Byte>): (r: seq<seq<Byte>>)
    ensures forall p :: p in r ==> |p| <= BUFSIZE
    decreases |f|
  {
    if f == [] then [] else
      var e := IndexOf(f, NEWLINE);
      if BUFSIZE <= e then [f[..BUFSIZE]] + Pieces(f[BUFSIZE..])
      else [f[..e]] + Pieces(if e < |f| then f[e + 1..] else [])
  }

  /** Taking the first piece off the text: what the buffer loop does in one turn. */
  lemma SelectPiece(f: seq<Byte>, e: nat, rest: seq<Byte>, needle: seq<Byte>)
    requires e <= |f| && e <= BUFSIZE && NEWLINE !in f[..e]
    requires e == |f| < BUFSIZE ==> rest == []
    requires e < |f| && e < BUFSIZE ==> f[e] == NEWLINE && rest == f[e + 1..]
    requires e == BUFSIZE ==> rest == f[e..]
    ensures Select(Pieces(f), needle)
         == (if Matches(f[..e], needle) then [f[..e]] else []) + Select(Pieces(rest), needle)
  {
    if f == [] {
      assert f[..e] == [] && !Matches([], needle);
    } else if e < BUFSIZE {
      IndexOfIs(f, NEWLINE, e);
      assert Pieces(f) == [f[..e]] + Pieces(rest);
    } else {
      var k := IndexOf(f, NEWLINE);
      assert forall j :: 0 <= j < e ==> f[j] == f[..e][j];
      assert Pieces(f) == [f[..e]] + Pieces(rest);
    }
  }

  // ---- The exact condition under which the buffer does not show ----

  lemma MatchInPart(f: seq<Byte>, e: nat, lo: nat, hi: nat, needle: seq<Byte>)
    requires lo <= hi <= e <= |f|
    ensures Matches(f[lo..hi], needle) ==> Matches(f[..e], needle)
  {
    if Matches(f[lo..hi], needle) {
      var i: nat :| OccursAt(f[lo..hi], needle, i);
      assert forall k :: 0 <= k < |needle| ==> f[..e][lo + i + k] == f[lo..hi][i + k] == needle[k];
      assert OccursAt(f[..e], needle, lo + i);
    }
  }

  /** Without its first 1024 bytes, a file's first line is shorter and nothing else changes. */
  lemma LinesOfRest(f: seq<Byte>, e: nat)
    requires BUFSIZE <= e == IndexOf(f, NEWLINE)
    ensures var tail := Lines(if e < |f| then f[e + 1..] else []);
            && Lines(f) == [f[..e]] + tail
            && Pieces(f) == [f[..BUFSIZE]] + Pieces(f[BUFSIZE..])
            && Lines(f[BUFSIZE..]) == if |f| == BUFSIZE then tail else [f[BUFSIZE..e]] + tail
  {
    var g := f[BUFSIZE..];
    assert g[..e - BUFSIZE] == f[BUFSIZE..e];
    assert forall k :: 0 <= k < e ==> f[k] == f[..e][k];
    IndexOfIs(g, NEWLINE, e - BUFSIZE);
    if g != [] && e < |f| {
      assert g[e - BUFSIZE + 1..] == f[e + 1..];
    }
  }

  lemma SelectCons(l: seq<Byte>, ls: seq<seq<Byte>>, needle: seq<Byte>)
    ensures Select([l] + ls, needle)
         == if Matches(l, needle) then [l] + Select(ls, needle) else Select(ls, needle)
  {
    assert ([l] + ls)[1..] == ls;
  }

  lemma EmptyNeverMatches(needle: seq<Byte>)
    ensures !Matches([], needle)
  {
  }

  lemma NothingLeft(needle: seq<Byte>)
    ensures Pieces([]) == Lines([]) == [] && Select([], needle) == []
  {
  }

  /** A first line that fills the buffer contributes the same cut or whole: itself if it fits
      exactly, and nothing if it is longer and does not match. */
  lemma {:induction false} LongMissIsSilent(f: seq<Byte>, needle: seq<Byte>)
    requires BUFSIZE <= IndexOf(f, NEWLINE)
    requires forall l :: l in Lines(f) && Matches(l, needle) ==> |l| <= BUFSIZE
    ensures Select(Pieces(f), needle) == Select(Lines(f), needle)
    decreases |f|, 0
  {
    hide *;
    var e := IndexOf(f, NEWLINE);
    var g, line, tail := f[BUFSIZE..], f[..e], Lines(if e < |f| then f[e + 1..] else []);
    LinesOfRest(f, e);
    SelectCons(f[..BUFSIZE], Pieces(g), needle);
    SelectCons(line, tail, needle);
    assert line in Lines(f);
    assert f[..BUFSIZE] == f[0..BUFSIZE];
    MatchInPart(f, e, 0, BUFSIZE, needle);
    if g != [] {
      var cut := f[BUFSIZE..e];
      MatchInPart(f, e, BUFSIZE, e, needle);
      EmptyNeverMatches(needle);
      assert !Matches(cut, needle) by { assert e == BUFSIZE ==> cut == []; }
      assert forall l :: l in Lines(g) ==> l == cut || l in Lines(f);
      GrepIsExactIfShort(g, needle);
      SelectCons(cut, tail, needle);
    } else {
      NothingLeft(needle);
    }
  }

  lemma {:induction false} GrepIsExactIfShort(f: seq<Byte>, needle: seq<Byte>)
    requires forall l :: l in Lines(f) && Matches(l, needle) ==> |l| <= BUFSIZE
    ensures Select(Pieces(f), needle) == Select(Lines(f), needle)
    decreases |f|, 1
  {
    if f != [] {
      var e := IndexOf(f, NEWLINE);
      if BUFSIZE <= e {
        LongMissIsSilent(f, needle);
      } else {
        var rest := if e < |f| then f[e + 1..] else [];
        assert Lines(f) == [f[..e]] + Lines(rest);
        GrepIsExactIfShort(rest, needle);
      }
    }
  }

  lemma {:induction false} SelectKeeps(lines: seq<seq<Byte>>, needle: seq<Byte>, l: seq<Byte>)
    ensures l in Select(lines, needle) <==> l in lines && Matches(l, needle)
  {
    if lines != [] {
      SelectKeeps(lines[1..], needle, l);
      assert l in lines <==> l == lines[0] || l in lines[1..];
    }
  }

  /** The buffered search reports exactly the matching lines if and only if no matching line is
      longer than the buffer. */
  lemma GrepIsExactIff(f: seq<Byte>, needle: seq<Byte>)
    ensures Select(Pieces(f), needle) == Select(Lines(f), needle)
       <==> forall l :: l in Lines(f) && Matches(l, needle) ==> |l| <= BUFSIZE
  {
    if Select(Pieces(f), needle) == Select(Lines(f), needle) {
      forall l | l in Lines(f) && Matches(l, needle)
        ensures |l| <= BUFSIZE
      {
        SelectKeeps(Lines(f), needle, l);
        SelectKeeps(Pieces(f), needle, l);
      }
    } else if forall l :: l in Lines(f) && Matches(l, needle) ==> |l| <= BUFSIZE {
      GrepIsExactIfShort(f, needle);
    }
  }

  // ---- The string helpers, on the buffer in place (syscalls/ece391support.c) ----

  method StrLen(s: array<Byte>) returns (n: nat)
    requires NUL in s[..]
    ensures n < s.Length && s[..n] == CStr(s[..])
  {
    n := 0;
    while s[n] != NUL
      invariant n < s.Length && NUL !in s[..n] && NUL in s[n..]
      decreases s.Length - n
    {
      assert s[n..] == [s[n]] + s[n + 1..];
      n := n + 1;
    }
    assert s[..][..n] == s[..n];
    CStrIs(s[..], n);
  }

  /** Forward copy of the C string at `from` down to the front of the same buffer. */
  method StrCpyDown(data: array<Byte>, from: nat, ghost end: nat)
    requires 0 < from <= end < data.Length
    requires data[end] == NUL && NUL !in data[from..end]
    modifies data
    ensures data[..end - from] == old(data[from..end]) && data[end - from] == NUL
    ensures forall k :: end - from < k < data.Length ==> data[k] == old(data[k])
  {
    var i := 0;
    while data[from + i] != NUL
      invariant i <= end - from
      invariant data[..i] == old(data[from..from + i])
      invariant forall k :: i <= k < data.Length ==> data[k] == old(data[k])
      decreases end - from - i
    {
      assert i < end - from;
      data[i] := data[from + i];
      i := i + 1;
    }
    assert forall k :: 0 <= k < end - from ==> old(data[from + k]) == old(data[from..end])[k];
    data[i] := data[from + i];
  }

  /** Zero exactly when the `n` needle bytes stand at `at`, for a buffer NUL-terminated at `end`. */
  method StrNCmp(data: array<Byte>, at: nat, s: array<Byte>, n: nat, ghost end: nat) returns (r: int)
    requires at <= end < data.Length && data[end] == NUL
    requires n <= s.Length && NUL !in s[..n]
    ensures r == 0 <==> at + n <= end && forall k :: 0 <= k < n ==> data[at + k] == s[k]
  {
    if n == 0 {
      return 0;
    }
    var k := 0;
    while data[at + k] == s[k]
      invariant k < n && at + k <= end
      invariant forall j :: 0 <= j < k ==> data[at + j] == s[j]
      decreases n - k
    {
      assert s[k] != NUL by { assert s[k] in s[..n]; }
      if k + 1 == n {
        return 0;
      }
      k := k + 1;
    }
    var (x: int, y: int) := (data[at + k], s[k]);
    r := x - y;
  }

  // ---- do_one_file ----

  /** Searches `data[lo..hi]`, already NUL-terminated at `hi`. */
  method SearchLine(data: array<Byte>, lo: nat, hi: nat, s: array<Byte>, n: nat) returns (found: bool)
    requires lo <= hi < data.Length && data[hi] == NUL && NUL !in data[lo..hi]
    requires n < s.Length && NUL !in s[..n] && s[n] == NUL
    ensures found == Matches(data[lo..hi], s[..n])
  {
    ghost var line, needle := data[lo..hi], s[..n];
    // `s` is a pointer to signed char, `data` holds unsigned bytes
    var first: int := s[0];
    if 128 <= first {
      first := first - 256;
    }
    var check := lo;
    while check < hi
      invariant lo <= check <= hi
      invariant needle != [] && needle[0] < 128 ==> forall i: nat :: i < check - lo ==> !OccursAt(line, needle, i)
    {
      ghost var i := check - lo;
      assert line[i] == data[check] && line[i] in line;
      assert needle != [] && OccursAt(line, needle, i) ==> needle[0] == line[i];
      if first == data[check] {
        var r := StrNCmp(data, check, s, n, hi);
        assert forall j :: check <= j < hi ==> data[j] == line[j - lo];
        assert forall k :: 0 <= k < n ==> needle[k] == s[k];
        assert r == 0 <==> OccursAt(line, needle, i);
        if r == 0 {
          return true;
        }
      }
      check := check + 1;
    }
    found := false;
  }

  /** The buffer's cells `lo..hi` are the text from `at` on. */
  ghost predicate Holds(data: array<Byte>, lo: nat, hi: nat, text: seq<Byte>, at: nat)
    requires lo <= hi <= data.Length && at + hi - lo <= |text|
    reads data
  {
    forall k :: lo <= k < hi ==> data[k] == text[at + k - lo]
  }

  /** The end of the line that starts at `from`: the next newline, or the end of the data. */
  method LineEnd(data: array<Byte>, from: nat, used: nat, ghost text: seq<Byte>) returns (end: nat)
    requires from <= used < data.Length && used <= |text| && Holds(data, from, used, text, from)
    ensures from <= end <= used && NEWLINE !in text[from..end]
    ensures end < used ==> text[end] == NEWLINE
  {
    end := from;
    while end < used && data[end] != NEWLINE
      invariant from <= end <= used && NEWLINE !in text[from..end]
    {
      end := end + 1;
    }
  }

  /** The text that follows the line ending at `end`, seen from a buffer holding `used` bytes of it. */
  lemma AfterLine(text: seq<Byte>, used: nat, from: nat, end: nat, needle: seq<Byte>)
    requires from <= end <= used <= |text| && used <= BUFSIZE && (used < BUFSIZE ==> used == |text|)
    requires NEWLINE !in text[from..end] && (end < used ==> text[end] == NEWLINE)
    requires end == used ==> from == 0 || used == |text|
    ensures var next := if end < used then end + 1 else used;
            Select(Pieces(text[from..]), needle)
              == (if Matches(text[from..end], needle) then [text[from..end]] else [])
                 + Select(Pieces(text[next..]), needle)
  {
    var f, e := text[from..], end - from;
    var next := if end < used then end + 1 else used;
    assert f[..e] == text[from..end];
    assert text[next..] == f[next - from..];
    SelectPiece(f, e, text[next..], needle);
  }

  /** Moving the first reported line from what is to come to what is printed. */
  lemma Printed(out: seq<seq<Byte>>, line: seq<Byte>, hit: bool, here: seq<seq<Byte>>, next: seq<seq<Byte>>)
    requires here == (if hit then [line] else []) + next
    ensures out + here == (if hit then out + [line] else out) + next
  {
    if !hit {
      assert [] + next == next;
    } else {
      assert out + ([line] + next) == out + [line] + next;
    }
  }

  /** The unfinished line moves to the front of the buffer. */
  method CopyDown(data: array<Byte>, from: nat, used: nat, ghost text: seq<Byte>)
    requires 0 < from <= used < data.Length && used <= |text| && NUL !in text
    requires Holds(data, from, used, text, from)
    modifies data
    ensures Holds(data, 0, used - from, text, from)
    ensures forall k :: used < k < data.Length ==> data[k] == old(data[k])
    ensures data[used] == NUL
  {
    data[used] := NUL;
    StrCpyDown(data, from, used);
    assert forall k :: 0 <= k < used - from ==> data[k] == data[..used - from][k];
  }

  /** One finished line is terminated and searched. */
  method TakeLine(data: array<Byte>, lo: nat, hi: nat, s: array<Byte>, n: nat, ghost text: seq<Byte>)
    returns (found: bool)
    requires lo <= hi < data.Length && data != s && hi <= |text| && NUL !in text
    requires Holds(data, lo, hi, text, lo)
    requires n < s.Length && NUL !in s[..n] && s[n] == NUL
    modifies data
    ensures found == Matches(text[lo..hi], s[..n])
    ensures data[lo..hi] == text[lo..hi] && data[hi] == NUL
    ensures forall k :: 0 <= k < data.Length && k != hi ==> data[k] == old(data[k])
  {
    data[hi] := NUL;
    assert data[lo..hi] == text[lo..hi];
    found := SearchLine(data, lo, hi, s, n);
  }

  const COLON: Byte := 58

  /** What is written for the lines reported: each behind the file's name and a colon. */
  function Report(name: seq<Byte>, lines: seq<seq<Byte>>): seq<Byte> {
    if lines == [] then [] else
      var k := |lines| - 1;
      Report(name, lines[..k]) + name + [COLON] + lines[k] + [NEWLINE]
  }

  lemma {:induction false} ReportLast(name: seq<Byte>, lines: seq<seq<Byte>>, line: seq<Byte>)
    ensures Report(name, lines + [line]) == Report(name, lines) + name + [COLON] + line + [NEWLINE]
  {
    assert (lines + [line])[..|lines|] == lines;
  }

  const COLON_TEXT: seq<Byte> := Ascii(":")

  /** The lines that were written, as a reader sees them. */
  function Labelled(name: seq<Byte>, lines: seq<seq<Byte>>): seq<seq<Byte>> {
    if lines == [] then [] else
      var k := |lines| - 1;
      Labelled(name, lines[..k]) + [name + COLON_TEXT + lines[k]]
  }

  lemma LinesStep(f: seq<Byte>, e: nat)
    requires e < |f| && NEWLINE !in f[..e] && f[e] == NEWLINE
    ensures Lines(f) == [f[..e]] + Lines(f[e + 1..])
  {
    IndexOfIs(f, NEWLINE, e);
  }

  /** A line with its newline behind whole lines is one more line. */
  lemma {:induction false} LinesLast(text: seq<Byte>, line: seq<Byte>)
    requires (text == [] || text[|text| - 1] == NEWLINE) && NEWLINE !in line
    ensures Lines(text + line + [NEWLINE]) == Lines(text) + [line]
    decreases |text|
  {
    hide Lines, IndexOf;
    var f := text + line + [NEWLINE];
    NoLines();
    if text == [] {
      assert f[..|line|] == line && f[|line| + 1..] == [];
      LinesStep(f, |line|);
    } else {
      var e := IndexOf(text, NEWLINE);
      var rest := text[e + 1..];
      assert f[..e] == text[..e] && f[e] == text[e] && f[e + 1..] == rest + line + [NEWLINE];
      LinesStep(text, e);
      LinesStep(f, e);
      LinesLast(rest, line);
    }
  }

  lemma NoLines()
    ensures Lines([]) == []
  {
  }

  lemma Regrouped(a: seq<Byte>, b: seq<Byte>, c: seq<Byte>, d: seq<Byte>, e: seq<Byte>)
    ensures a + b + c + d + e == a + (b + c + d) + e
  {
  }

  /** What is written splits back into one line for each line reported, the name and a colon before it. */
  lemma {:induction false} ReportSplits(name: seq<Byte>, lines: seq<seq<Byte>>)
    requires NEWLINE !in name && forall i :: 0 <= i < |lines| ==> NEWLINE !in lines[i]
    ensures Lines(Report(name, lines)) == Labelled(name, lines)
    ensures Report(name, lines) == [] || Report(name, lines)[|Report(name, lines)| - 1] == NEWLINE
    decreases |lines|
  {
    NoLines();
    if lines != [] {
      var k := |lines| - 1;
      var before, line := Report(name, lines[..k]), name + COLON_TEXT + lines[k];
      ReportStep(name, lines);
      hide Lines, Report, Labelled;
      ReportSplits(name, lines[..k]);
      assert NEWLINE !in line by { assert NEWLINE !in lines[k] && NEWLINE !in COLON_TEXT; }
      LinesLast(before, line);
    }
  }

  lemma {:induction false} ReportStep(name: seq<Byte>, lines: seq<seq<Byte>>)
    requires lines != []
    ensures var k := |lines| - 1;
            var before, line := Report(name, lines[..k]), name + COLON_TEXT + lines[k];
            && Report(name, lines) == before + line + [NEWLINE]
            && Labelled(name, lines) == Labelled(name, lines[..k]) + [line]
  {
    var k := |lines| - 1;
    assert COLON_TEXT == [COLON];
    Regrouped(Report(name, lines[..k]), name, [COLON], lines[k], [NEWLINE]);
  }

  /** The inner loop over one filled buffer. `text` is the file from the front of the buffer on; the
      buffer was filled completely unless the file is used up. Returns how much of an unfinished
      line was copied to the front. */
  method ScanBuffer(data: array<Byte>, used: nat, cnt: nat, s: array<Byte>, n: nat, name: seq<Byte>,
                    written: seq<Byte>, ghost printed: seq<seq<Byte>>, ghost text: seq<Byte>)
    returns (last: nat, shown: seq<Byte>, ghost out: seq<seq<Byte>>)
    requires data.Length == BUFSIZE + 1 && data != s && data[BUFSIZE] != NEWLINE
    requires used <= |text| && used <= BUFSIZE && Holds(data, 0, used, text, 0) && NUL !in text
    requires n < s.Length && NUL !in s[..n] && s[n] == NUL
    requires used < BUFSIZE ==> used == |text|
    requires cnt == 0 ==> used < BUFSIZE && forall k :: 0 <= k < used ==> text[k] != NEWLINE
    requires written == Report(name, printed)
    modifies data
    ensures shown == Report(name, out)
    ensures last <= used && last < BUFSIZE && data[BUFSIZE] != NEWLINE
    ensures cnt == 0 ==> last == 0
    ensures Holds(data, 0, last, text, used - last)
    ensures forall k :: used - last <= k < used ==> text[k] != NEWLINE
    ensures out + Select(Pieces(text[used - last..]), s[..n]) == printed + Select(Pieces(text), s[..n])
  {
    hide Pieces, Select, Report;
    ghost var needle := s[..n];
    out, shown := printed, written;
    var lineStart := 0;
    assert text[0..] == text;
    ghost var todo := Select(Pieces(text), needle);
    ghost var all := printed + todo;
    while true
      invariant 0 <= lineStart && (lineStart == 0 || lineStart < used)
      invariant cnt == 0 ==> lineStart == 0
      invariant Holds(data, lineStart, used, text, lineStart)
      invariant data[BUFSIZE] != NEWLINE
      invariant todo == Select(Pieces(text[lineStart..]), needle) && out + todo == all && shown == Report(name, out)
      decreases used - lineStart
    {
      var lineEnd := LineEnd(data, lineStart, used, text);
      ghost var line := text[lineStart..lineEnd];
      if data[lineEnd] != NEWLINE && cnt != 0 && lineStart != 0 {
        assert forall k :: lineStart <= k < used ==> text[k] == line[k - lineStart];
        CopyDown(data, lineStart, used, text);
        return used - lineStart, shown, out;
      }
      ghost var next := if lineEnd < used then lineEnd + 1 else used;
      ghost var later := Select(Pieces(text[next..]), needle);
      AfterLine(text, used, lineStart, lineEnd, needle);
      Printed(out, line, Matches(line, needle), todo, later);
      var found := TakeLine(data, lineStart, lineEnd, s, n, text);
      if found {
        ReportLast(name, out, line);
        out := out + [line];
        shown := shown + name + [COLON] + data[lineStart..lineEnd] + [NEWLINE];
      }
      todo := later;
      lineStart := lineEnd + 1;
      if used <= lineStart {
        return 0, shown, out;
      }
    }
  }

  /** ece391_read (fd, data + last, BUFSIZE - last): the space is filled unless the file ends first. */
  method ReadMore(data: array<Byte>, last: nat, file: seq<Byte>, pos: nat) returns (cnt: nat)
    requires data.Length == BUFSIZE + 1 && last <= BUFSIZE && last <= pos <= |file|
    requires Holds(data, 0, last, file, pos - last)
    modifies data
    ensures cnt == if BUFSIZE - last < |file| - pos then BUFSIZE - last else |file| - pos
    ensures Holds(data, 0, last + cnt, file, pos - last)
    ensures data[BUFSIZE] == old(data[BUFSIZE])
  {
    cnt := if BUFSIZE - last < |file| - pos then BUFSIZE - last else |file| - pos;
    forall k | last <= k < last + cnt {
      data[k] := file[pos + k - last];
    }
  }

  /** What the file system does: the reads succeed for ever or for a while, and the close or not. */
  datatype Reads = Always | Until(n: nat)
  datatype Opening = Failed | Opened(bytes: seq<Byte>, served: Reads, closes: bool)

  const NO_OPEN: seq<Byte> := Ascii("file open failed\n")
  const NO_READ: seq<Byte> := Ascii("file read failed\n")
  const NO_CLOSE: seq<Byte> := Ascii("file close failed\n")

  /** The whole search of one file. It writes the pieces of the file that contain the needle, each once
      and in order and behind the file's name; a message and -1 if the file cannot be opened or closed;
      and a first part of those pieces, a message and -1 if a read fails. */
  method DoOneFile(s: array<Byte>, name: seq<Byte>, data: array<Byte>, opening: Opening)
    returns (r: int, shown: seq<Byte>, ghost out: seq<seq<Byte>>)
    requires NUL in s[..] && (opening.Opened? ==> NUL !in opening.bytes)
    requires data.Length == BUFSIZE + 1 && data != s && data[BUFSIZE] != NEWLINE
    modifies data
    ensures opening.Failed? ==> r == -1 && shown == NO_OPEN
    ensures opening.Opened? ==>
              var all := Select(Pieces(opening.bytes), CStr(old(s[..])));
              || (out == all && opening.closes && r == 0 && shown == Report(name, all))
              || (out == all && !opening.closes && r == -1 && shown == Report(name, all) + NO_CLOSE)
              || (out <= all && opening.served.Until? && r == -1 && shown == Report(name, out) + NO_READ)
  {
    hide Pieces, Select, Report;
    var sLen := StrLen(s);
    if opening.Failed? {
      return -1, NO_OPEN, [];
    }
    var file := opening.bytes;
    ghost var needle := s[..sLen];
    assert needle == CStr(s[..]);
    hide CStr;
    ghost var all := Select(Pieces(file), needle);
    NothingReported(name);
    shown, out := [], [];
    var pos, last: nat := 0, 0;
    var turns := 0;
    ghost var text := file;
    while true
      invariant last <= pos <= |file| && last < BUFSIZE && data[BUFSIZE] != NEWLINE
      invariant text == file[pos - last..]
      invariant Holds(data, 0, last, file, pos - last)
      invariant forall k :: pos - last <= k < pos ==> file[k] != NEWLINE
      invariant out + Select(Pieces(text), needle) == all && shown == Report(name, out)
      decreases |file| - pos
    {
      if opening.served == Until(turns) {
        return -1, shown + NO_READ, out;
      }
      turns := turns + 1;
      var cnt := ReadMore(data, last, file, pos);
      var used := last + cnt;
      pos := pos + cnt;
      ghost var at := pos - used;
      assert forall b :: b in text ==> b in file;
      last, shown, out := ScanBuffer(data, used, cnt, s, sLen, name, shown, out, text);
      text := text[used - last..];
      if cnt == 0 {
        NothingLeft(needle);
        assert text == [] && out + [] == out;
        if !opening.closes {
          return -1, shown + NO_CLOSE, out;
        }
        return 0, shown, out;
      }
    }
  }

  lemma NothingReported(name: seq<Byte>)
    ensures Report(name, []) == []
  {
  }
}
