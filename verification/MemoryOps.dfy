/** memset, memcpy and memmove (student-distrib/lib.c) on a byte-addressed memory: bytes up to a
    four-byte boundary, then double words, then the last bytes. */
module MemoryOps {
  import opened Bytes

  /** Byte `i` of a little-endian double word. */
  function ByteOf(v: Word, i: nat): Byte
    requires i < 4
  {
    if i == 0 then v % 256
    else if i == 1 then v / 0x100 % 256
    else if i == 2 then v / 0x1_0000 % 256
    else v / 0x100_0000 % 256
  }

  lemma BytesOfWord(b0: Byte, b1: Byte, b2: Byte, b3: Byte)
    ensures var v := LittleEndian(b0, b1, b2, b3);
            && 0 <= v < WORD
            && ByteOf(v, 0) == b0 && ByteOf(v, 1) == b1 && ByteOf(v, 2) == b2 && ByteOf(v, 3) == b3
  {
    var v := LittleEndian(b0, b1, b2, b3);
    var hi := b1 + b2 * 0x100 + b3 * 0x1_0000;
    assert v == b0 + 0x100 * hi;
    assert v / 0x100 == hi;
    assert v / 0x1_0000 == b2 + b3 * 0x100;
    assert v / 0x100_0000 == b3;
  }

  /** One step of stosl or movsl: four bytes at once. */
  method StoreDword(mem: array<Byte>, at: nat, v: Word)
    requires at + 4 <= mem.Length
    modifies mem
    ensures forall k :: at <= k < at + 4 ==> mem[k] == ByteOf(v, k - at)
    ensures forall k :: 0 <= k < mem.Length && (k < at || at + 4 <= k) ==> mem[k] == old(mem[k])
  {
    mem[at], mem[at + 1], mem[at + 2], mem[at + 3] := ByteOf(v, 0), ByteOf(v, 1), ByteOf(v, 2), ByteOf(v, 3);
  }

  /** memset: for every alignment and length exactly the `n` bytes at `s` become `c & 0xFF`. */
  method Memset(mem: array<Byte>, s: nat, c: int, n: nat)
    requires s + n <= mem.Length
    modifies mem
    ensures forall k :: 0 <= k < mem.Length ==> mem[k] == if s <= k < s + n then c % 256 else old(mem[k])
  {
    var b: Byte := c % 256;
    var edi, ecx := s, n;
    while ecx != 0 && edi % 4 != 0
      invariant 0 <= ecx && edi + ecx == s + n && s <= edi
      invariant forall k :: 0 <= k < mem.Length ==> mem[k] == if s <= k < edi then b else old(mem[k])
      decreases ecx
    {
      mem[edi] := b;
      edi, ecx := edi + 1, ecx - 1;
    }
    var edx := ecx % 4;
    ecx := ecx / 4;
    BytesOfWord(b, b, b, b);
    var eax := LittleEndian(b, b, b, b);
    while ecx != 0
      invariant 0 <= ecx && edi + 4 * ecx + edx == s + n && s <= edi
      invariant forall k :: 0 <= k < mem.Length ==> mem[k] == if s <= k < edi then b else old(mem[k])
      decreases ecx
    {
      StoreDword(mem, edi, eax);
      edi, ecx := edi + 4, ecx - 1;
    }
    while edx != 0
      invariant 0 <= edx && edi + edx == s + n && s <= edi
      invariant forall k :: 0 <= k < mem.Length ==> mem[k] == if s <= k < edi then b else old(mem[k])
      decreases edx
    {
      mem[edi] := b;
      edi, edx := edi + 1, edx - 1;
    }
  }

  /** Memory after `n` bytes went from `src` to `dest`: the old source bytes there, nothing else changed. */
  ghost predicate Copied(was: seq<Byte>, now: seq<Byte>, dest: nat, src: nat, n: nat) {
    && |was| == |now| && dest + n <= |was| && src + n <= |was|
    && (forall k :: dest <= k < dest + n ==> now[k] == was[src - dest + k])
    && (forall k :: 0 <= k < |now| && !(dest <= k < dest + n) ==> now[k] == was[k])
  }

  /** A forward copy does not overwrite what it has still to read. */
  predicate ForwardOk(dest: nat, src: nat, n: nat) {
    dest <= src || src + n <= dest
  }

  lemma CopiedThen(a: seq<Byte>, b: seq<Byte>, c: seq<Byte>, dest: nat, src: nat, n: nat, m: nat)
    requires Copied(a, b, dest, src, n) && Copied(b, c, dest + n, src + n, m) && ForwardOk(dest, src, n + m)
    ensures Copied(a, c, dest, src, n + m)
  {
  }

  /** movsl: a double word is loaded and stored. */
  method MoveDword(mem: array<Byte>, edi: nat, esi: nat)
    requires edi + 4 <= mem.Length && esi + 4 <= mem.Length
    modifies mem
    ensures forall k :: edi <= k < edi + 4 ==> mem[k] == old(mem[esi - edi + k])
    ensures forall k :: 0 <= k < mem.Length && (k < edi || edi + 4 <= k) ==> mem[k] == old(mem[k])
  {
    BytesOfWord(mem[esi], mem[esi + 1], mem[esi + 2], mem[esi + 3]);
    var v := LittleEndian(mem[esi], mem[esi + 1], mem[esi + 2], mem[esi + 3]);
    StoreDword(mem, edi, v);
  }

  /** Bytes one by one, up to a four-byte boundary of the destination if `align` is set. */
  method CopyBytes(mem: array<Byte>, dest: nat, src: nat, n: nat, align: bool) returns (h: nat)
    requires dest + n <= mem.Length && src + n <= mem.Length && ForwardOk(dest, src, n)
    modifies mem
    ensures h <= n && (h == n || (align && (dest + h) % 4 == 0))
    ensures Copied(old(mem[..]), mem[..], dest, src, h)
  {
    h := 0;
    ghost var was := mem[..];
    while h != n && !(align && (dest + h) % 4 == 0)
      invariant h <= n && Copied(was, mem[..], dest, src, h)
      decreases n - h
    {
      mem[dest + h] := mem[src + h];
      h := h + 1;
    }
  }

  /** rep movsl */
  method CopyWords(mem: array<Byte>, dest: nat, src: nat, words: nat)
    requires dest + 4 * words <= mem.Length && src + 4 * words <= mem.Length && ForwardOk(dest, src, 4 * words)
    modifies mem
    ensures Copied(old(mem[..]), mem[..], dest, src, 4 * words)
  {
    ghost var was := mem[..];
    for i := 0 to words
      invariant Copied(was, mem[..], dest, src, 4 * i)
    {
      ghost var before := mem[..];
      MoveDword(mem, dest + 4 * i, src + 4 * i);
      assert Copied(before, mem[..], dest + 4 * i, src + 4 * i, 4);
      CopiedThen(was, before, mem[..], dest, src, 4 * i, 4);
    }
  }

  /** memcpy: the old source bytes, unless the destination begins inside the source. */
  method Memcpy(mem: array<Byte>, dest: nat, src: nat, n: nat)
    requires dest + n <= mem.Length && src + n <= mem.Length && ForwardOk(dest, src, n)
    modifies mem
    ensures Copied(old(mem[..]), mem[..], dest, src, n)
  {
    hide Copied;
    ghost var was := mem[..];
    var h := CopyBytes(mem, dest, src, n, true);
    if h == n {
      return;
    }
    var words, tail := (n - h) / 4, (n - h) % 4;
    ghost var head := mem[..];
    CopyWords(mem, dest + h, src + h, words);
    CopiedThen(was, head, mem[..], dest, src, h, 4 * words);
    ghost var body := mem[..];
    var t := CopyBytes(mem, dest + h + 4 * words, src + h + 4 * words, tail, false);
    CopiedThen(was, body, mem[..], dest, src, h + 4 * words, tail);
  }

  /** memmove: for every overlap the destination holds the old source bytes and nothing else changed;
      the copy runs upwards or downwards, whichever does not overwrite what is still to be read. */
  method Memmove(mem: array<Byte>, dest: nat, src: nat, n: nat)
    requires dest + n <= mem.Length && src + n <= mem.Length
    modifies mem
    ensures Copied(old(mem[..]), mem[..], dest, src, n)
  {
    ghost var was := mem[..];
    if dest <= src {
      for i := 0 to n
        invariant Copied(was, mem[..], dest, src, i)
      {
        mem[dest + i] := mem[src + i];
      }
    } else {
      for i := n downto 0
        invariant Copied(was, mem[..], dest + i, src + i, n - i)
      {
        mem[dest + i] := mem[src + i];
      }
    }
  }
}
