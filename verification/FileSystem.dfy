/** The in-memory file system (student-distrib/filesystem.c): directory entries, inodes that list
    data blocks, and the block-by-block read. */
module FileSystem {
  import opened Bytes

  const BLKSIZE: nat := 4096
  const MAX_BLOCKS: nat := 1023
  const NAME_LEN: nat := 32

  datatype Dentry = Dentry(name: seq<Byte>, ft: Word, ind: Word)
  datatype Inode = Inode(len: Word, data: seq<Word>)

  /** `dirs` holds the 63 entries of the boot block and the 64 bytes that follow it. */
  datatype Image = Image(nent: Word, dirs: seq<Dentry>, inodes: seq<Inode>, blocks: seq<seq<Byte>>)

  /** How many blocks a file of this length uses. */
  function BlockCount(len: nat): nat {
    (len + BLKSIZE - 1) / BLKSIZE
  }

  ghost predicate WellFormedInode(img: Image, nod: Inode) {
    && |nod.data| == MAX_BLOCKS
    && nod.len <= MAX_BLOCKS * BLKSIZE
    && forall k :: 0 <= k < BlockCount(nod.len) ==> nod.data[k] < |img.blocks|
  }

  /** The directory fits into the boot block. */
  ghost predicate Listed(img: Image) {
    |img.dirs| == 64 && img.nent < 64 && forall i :: 0 <= i < 64 ==> |img.dirs[i].name| == NAME_LEN
  }

  ghost predicate WellFormed(img: Image) {
    && Listed(img) && |img.inodes| < WORD
    && (forall i :: 0 <= i <= img.nent ==> img.dirs[i].ft < 0x100_0000)
    && (forall i :: 0 <= i < img.nent && img.dirs[i].ft == 2 ==> img.dirs[i].ind < |img.inodes|)
    && (forall i :: 0 <= i < |img.inodes| ==> WellFormedInode(img, img.inodes[i]))
    && (forall i :: 0 <= i < |img.blocks| ==> |img.blocks[i]| == BLKSIZE)
  }

  lemma IsListed(img: Image)
    requires WellFormed(img)
    ensures Listed(img)
  {
  }

  // ---- What a file is: its listed blocks one after the other, cut to its length ----

  function Concat(img: Image, indices: seq<Word>): (r: seq<Byte>)
    requires forall i :: 0 <= i < |img.blocks| ==> |img.blocks[i]| == BLKSIZE
    requires forall k :: 0 <= k < |indices| ==> indices[k] < |img.blocks|
    ensures |r| == BLKSIZE * |indices|
  {
    if indices == [] then [] else img.blocks[indices[0]] + Concat(img, indices[1..])
  }

  function Contents(img: Image, nd: nat): (r: seq<Byte>)
    requires WellFormed(img) && nd < |img.inodes|
    ensures |r| == img.inodes[nd].len
  {
    var nod := img.inodes[nd];
    assert WellFormedInode(img, nod);
    assert BlockCount(nod.len) <= MAX_BLOCKS;
    Concat(img, nod.data[..BlockCount(nod.len)])[..nod.len]
  }

  lemma {:induction false} ConcatAt(img: Image, indices: seq<Word>, k: nat)
    requires forall i :: 0 <= i < |img.blocks| ==> |img.blocks[i]| == BLKSIZE
    requires forall j :: 0 <= j < |indices| ==> indices[j] < |img.blocks|
    requires k < BLKSIZE * |indices|
    ensures k / BLKSIZE < |indices|
    ensures Concat(img, indices)[k] == img.blocks[indices[k / BLKSIZE]][k % BLKSIZE]
  {
    if BLKSIZE <= k {
      ConcatAt(img, indices[1..], k - BLKSIZE);
      assert (k - BLKSIZE) / BLKSIZE == k / BLKSIZE - 1;
      assert (k - BLKSIZE) % BLKSIZE == k % BLKSIZE;
    }
  }

  /** Byte `k` of a file lies in its block `k / 4096` at `k % 4096`. */
  lemma ContentsAt(img: Image, nd: nat, k: nat)
    requires WellFormed(img) && nd < |img.inodes| && k < img.inodes[nd].len
    ensures k / BLKSIZE < MAX_BLOCKS == |img.inodes[nd].data| && img.inodes[nd].data[k / BLKSIZE] < |img.blocks|
    ensures Contents(img, nd)[k] == img.blocks[img.inodes[nd].data[k / BLKSIZE]][k % BLKSIZE]
  {
    var nod := img.inodes[nd];
    assert WellFormedInode(img, nod);
    var used := nod.data[..BlockCount(nod.len)];
    ConcatAt(img, used, k);
    assert used[k / BLKSIZE] == nod.data[k / BLKSIZE];
  }

  // ---- Looking up a name ----

  /** strncmp (student-distrib/lib.c): zero exactly when the C strings, cut to `n` bytes, are equal.
      Each string ends in a NUL or has at least `n` bytes. */
  method StrNCmp(a: seq<Byte>, b: seq<Byte>, n: nat) returns (r: int)
    requires n <= |a| || NUL in a
    requires n <= |b| || NUL in b
    ensures r == 0 <==> SameName(a, b, n)
  {
    hide CStr;
    for i := 0 to n
      invariant i <= |CStr(a)| && i <= |CStr(b)| && a[..i] == b[..i]
    {
      assert i < |a| && i < |b| by { InString(a, n, i); InString(b, n, i); }
      CStrLength(a, i);
      CStrLength(b, i);
      if a[i] != b[i] || a[i] == NUL {
        var (x: int, y: int) := (a[i], b[i]);
        FirstDifference(a, b, n, i);
        return x - y;
      }
    }
    CStrCut(a, n);
    CStrCut(b, n);
    r := 0;
  }

  /** The names are equal as C strings of at most `n` bytes. */
  predicate SameName(a: seq<Byte>, b: seq<Byte>, n: nat) {
    Cut(CStr(a), n) == Cut(CStr(b), n)
  }

  function Cut(s: seq<Byte>, n: nat): seq<Byte> {
    if |s| <= n then s else s[..n]
  }

  lemma InString(s: seq<Byte>, n: nat, i: nat)
    requires (n <= |s| || NUL in s) && i < n && i <= |CStr(s)|
    ensures i < |s|
  {
  }

  /** A byte inside the C string is no NUL, and the byte behind it is one. */
  lemma CStrLength(s: seq<Byte>, i: nat)
    requires i <= |CStr(s)| && i < |s|
    ensures s[i] != NUL <==> i < |CStr(s)|
  {
    assert i < |CStr(s)| ==> s[i] == CStr(s)[i];
  }

  lemma CStrCut(s: seq<Byte>, n: nat)
    requires n <= |CStr(s)|
    ensures Cut(CStr(s), n) == s[..n]
  {
  }

  lemma FirstDifference(a: seq<Byte>, b: seq<Byte>, n: nat, i: nat)
    requires i < n && i < |a| && i < |b| && i <= |CStr(a)| && i <= |CStr(b)| && a[..i] == b[..i]
    requires a[i] != b[i] || a[i] == NUL
    ensures a[i] == b[i] <==> SameName(a, b, n)
  {
    var p, q := CStr(a), CStr(b);
    CStrLength(a, i);
    CStrLength(b, i);
    hide CStr;
    if a[i] == b[i] {
      assert p == a[..i] && q == b[..i];
    } else {
      assert i < |p| ==> Cut(p, n)[i] == a[i];
      assert i < |q| ==> Cut(q, n)[i] == b[i];
      assert |Cut(p, n)| > i || |Cut(q, n)| > i;
    }
  }

  datatype Option<T> = None | Some(value: T)

  /** The first directory entry with this name. */
  ghost function Lookup(img: Image, fname: seq<Byte>): (r: Option<Dentry>)
    requires Listed(img)
    ensures r.None? <==> forall i :: 0 <= i < img.nent ==> !SameName(fname, img.dirs[i].name, NAME_LEN)
  {
    LookupFrom(img, fname, 0)
  }

  ghost function LookupFrom(img: Image, fname: seq<Byte>, from: nat): (r: Option<Dentry>)
    requires Listed(img) && from <= img.nent
    ensures r.None? <==> forall i :: from <= i < img.nent ==> !SameName(fname, img.dirs[i].name, NAME_LEN)
    ensures r.Some? ==> r.value in img.dirs[..img.nent] && SameName(fname, r.value.name, NAME_LEN)
    decreases img.nent - from
  {
    if from == img.nent then None
    else if SameName(fname, img.dirs[from].name, NAME_LEN) then Some(img.dirs[from])
    else LookupFrom(img, fname, from + 1)
  }

  /** The entry found is the first one with the name. */
  lemma {:induction false} LookupFirst(img: Image, fname: seq<Byte>, from: nat) returns (i: nat)
    requires Listed(img) && from <= img.nent && LookupFrom(img, fname, from).Some?
    ensures from <= i < img.nent && LookupFrom(img, fname, from).value == img.dirs[i]
    ensures SameName(fname, img.dirs[i].name, NAME_LEN)
    ensures forall j :: from <= j < i ==> !SameName(fname, img.dirs[j].name, NAME_LEN)
    decreases img.nent - from
  {
    hide SameName;
    if SameName(fname, img.dirs[from].name, NAME_LEN) {
      i := from;
    } else {
      i := LookupFirst(img, fname, from + 1);
    }
  }

  method ReadDentryByName(img: Image, fname: seq<Byte>) returns (r: Option<Dentry>)
    requires Listed(img) && (NUL in fname || NAME_LEN <= |fname|)
    ensures r == Lookup(img, fname)
  {
    for i := 0 to img.nent
      invariant Lookup(img, fname) == LookupFrom(img, fname, i)
    {
      var c := StrNCmp(fname, img.dirs[i].name, NAME_LEN);
      if c == 0 {
        return Some(img.dirs[i]);
      }
    }
    r := None;
  }

  // ---- read_data ----

  /** The number of bytes read_data copies, in 32-bit arithmetic. */
  function CopyCount(flen: Word, off: Word, len: Word): Word {
    if flen < (len + off) % WORD then (flen - off) % WORD else len
  }

  /** What is there to be read. */
  function Available(flen: Word, off: Word, len: Word): Word {
    if flen < off then 0 else if len < flen - off then len else flen - off
  }

  /** The count is right exactly when the offset is inside the file and the end of the request does
      not wrap around. */
  lemma CopyCountIff(flen: Word, off: Word, len: Word)
    ensures CopyCount(flen, off, len) == Available(flen, off, len)
       <==> off <= flen && len + off < WORD
  {
    if WORD <= len + off {
      assert (len + off) % WORD == len + off - WORD;
    }
    if flen < off {
      assert (flen - off) % WORD == flen - off + WORD;
    }
  }

  /** A word of the inode's block list. On an exact block boundary at the end of the largest file the
      word behind the list is read; it is never followed. */
  function BlockWord(nod: Inode, k: nat): Word {
    if k < |nod.data| then nod.data[k] else 0
  }

  /** read_data: for every offset, length and block list, exactly the file's bytes from `off` on. The
      block is looked up again only on block boundaries. */
  method ReadData(img: Image, nd: Word, off: Word, buf: array<Byte>, len: Word) returns (r: int)
    requires WellFormed(img)
    requires nd < |img.inodes| ==> off <= img.inodes[nd].len && len + off < WORD
    requires nd < |img.inodes| ==> Available(img.inodes[nd].len, off, len) <= buf.Length
    modifies buf
    ensures nd >= |img.inodes| ==> r == -1
    ensures nd < |img.inodes| ==> r == Available(img.inodes[nd].len, off, len)
    ensures nd < |img.inodes| ==> buf[..r] == Contents(img, nd)[off..off + r]
    ensures forall k :: 0 <= k < buf.Length && r <= k ==> buf[k] == old(buf[k])
  {
    hide WellFormed, Contents;
    if nd >= |img.inodes| {
      return -1;
    }
    var nod := img.inodes[nd];
    var n := CopyCount(nod.len, off, len);
    CopyCountIff(nod.len, off, len);
    var at: nat := off;
    var blk := BlockWord(nod, at / BLKSIZE);
    var i := 0;
    while i != n
      invariant 0 <= i <= n && at == off + i && blk == BlockWord(nod, at / BLKSIZE)
      invariant forall k :: 0 <= k < i ==> buf[k] == Contents(img, nd)[off + k]
      invariant forall k :: i <= k < buf.Length ==> buf[k] == old(buf[k])
      decreases n - i
    {
      ContentsAt(img, nd, at);
      assert |img.blocks[blk]| == BLKSIZE by { BlockSize(img, blk); }
      buf[i] := img.blocks[blk][at % BLKSIZE];
      at := at + 1;
      if at % BLKSIZE == 0 {
        blk := BlockWord(nod, at / BLKSIZE);
      } else {
        assert at / BLKSIZE == (at - 1) / BLKSIZE;
      }
      i := i + 1;
    }
    r := n;
  }

  lemma BlockSize(img: Image, blk: Word)
    requires WellFormed(img) && blk < |img.blocks|
    ensures |img.blocks[blk]| == BLKSIZE
  {
  }
}
