/** Printing numbers (student-distrib/lib.c): itoa with its in-place reversal, and the eight-digit
    padding of printf's %#x. */
module Numbers {
  import opened Arith
  import opened Bytes

  type Radix = x: int | 2 <= x <= 36 witness 10

  const ZERO: Byte := 48

  // ---- Digits and their value ----

  /** lookup[d] */
  function DigitChar(d: nat): (b: Byte)
    requires d < 36
    ensures b != NUL && (b == ZERO <==> d == 0)
  {
    if d < 10 then 48 + d else 55 + d
  }

  function DigitValue(b: Byte): int {
    if 48 <= b <= 57 then b - 48 else if 65 <= b <= 90 then b - 55 else -1
  }

  const DIGITS: seq<Byte> := Ascii("0123456789ABCDEFGHIJKLMNOPQRSTUVWXYZ")

  /** The digits in order. */
  lemma DigitsAre(d: nat)
    requires d < 36
    ensures DigitChar(d) == DIGITS[d] && DigitValue(DIGITS[d]) == d
  {
  }

  predicate AreDigits(s: seq<Byte>, radix: Radix) {
    forall i :: 0 <= i < |s| ==> 0 <= DigitValue(s[i]) < radix
  }

  /** The number a string of digits stands for, first digit first. */
  function ValueOf(s: seq<Byte>, radix: Radix): int {
    if s == [] then 0 else ValueOf(s[..|s| - 1], radix) * radix + DigitValue(s[|s| - 1])
  }

  function Rem(v: nat, radix: Radix): (r: nat)
    ensures r < radix
  {
    v % radix
  }

  function Quo(v: nat, radix: Radix): (q: nat)
    ensures v == q * radix + Rem(v, radix)
    ensures v != 0 ==> q < v
  {
    Shrinks(v, radix, v / radix);
    v / radix
  }

  lemma Shrinks(v: nat, radix: Radix, q: nat)
    requires q * radix <= v
    ensures v != 0 ==> q < v
  {
    Product(q, radix - 2);
    assert q * radix == 2 * q + q * (radix - 2);
  }

  /** The digits in the order the loop produces them, last digit first. */
  function LastFirst(v: nat, radix: Radix): (s: seq<Byte>)
    ensures NUL !in s && AreDigits(s, radix)
    ensures v != 0 ==> s != [] && s[|s| - 1] != ZERO
  {
    if v == 0 then [] else [DigitChar(Rem(v, radix))] + LastFirst(Quo(v, radix), radix)
  }

  function Reversed(s: seq<Byte>): (r: seq<Byte>)
    ensures |r| == |s| && forall i :: 0 <= i < |s| ==> r[i] == s[|s| - 1 - i]
  {
    seq(|s|, i requires 0 <= i < |s| => s[|s| - 1 - i])
  }

  lemma ReversedCons(b: Byte, s: seq<Byte>)
    ensures Reversed([b] + s) == Reversed(s) + [b]
  {
  }

  lemma ValueSnoc(s: seq<Byte>, b: Byte, radix: Radix)
    ensures ValueOf(s + [b], radix) == ValueOf(s, radix) * radix + DigitValue(b)
  {
    assert (s + [b])[..|s|] == s;
  }

  /** Reading the reversed digits back gives the number. */
  lemma {:induction false} LastFirstValue(v: nat, radix: Radix)
    ensures ValueOf(Reversed(LastFirst(v, radix)), radix) == v
  {
    if v == 0 {
      assert Reversed([]) == [];
    } else {
      hide Quo, Rem, Reversed, ValueOf;
      var q, b := Quo(v, radix), DigitChar(Rem(v, radix));
      var s := LastFirst(q, radix);
      assert LastFirst(v, radix) == [b] + s;
      hide LastFirst;
      LastFirstValue(q, radix);
      ReversedCons(b, s);
      ValueSnoc(Reversed(s), b, radix);
      assert DigitValue(b) == Rem(v, radix);
    }
  }

  lemma WordRange()
    ensures Pow(2, 32) == 0x1_0000_0000 && Pow(16, 8) == 0x1_0000_0000
  {
    assert Pow(2, 2) == 4 && Pow(16, 1) == 16;
    PowSum(2, 2, 2);
    PowSum(2, 4, 4);
    PowSum(2, 8, 8);
    PowSum(2, 16, 16);
    PowSum(16, 1, 1);
    PowSum(16, 2, 2);
    PowSum(16, 4, 4);
  }

  /** A number below b^k has at most k digits in any radix from b on. */
  lemma {:induction false} DigitCount(v: nat, radix: Radix, b: nat, k: nat)
    requires 2 <= b <= radix && v < Pow(b, k)
    ensures |LastFirst(v, radix)| <= k
    decreases k
  {
    if v != 0 {
      Quotient(v, radix, b, Pow(b, k - 1));
      hide Quo, Rem;
      DigitCount(Quo(v, radix), radix, b, k - 1);
    }
  }

  lemma Quotient(v: nat, radix: Radix, b: nat, p: nat)
    requires 0 < b <= radix && v < b * p
    ensures Quo(v, radix) < p
  {
    hide Quo, Rem;
    var q := Quo(v, radix);
    Product(q, radix - b);
    assert q * b == q * radix - q * (radix - b);
    if p <= q {
      Product(q - p, b);
    }
  }

  // ---- In place ----

  /** strrev: the C string at `at` is reversed where it stands. */
  method StrRev(buf: array<Byte>, at: nat, ghost len: nat)
    requires at + len < buf.Length && buf[at + len] == NUL && NUL !in buf[at..at + len]
    modifies buf
    ensures buf[at..at + len] == Reversed(old(buf[at..at + len])) && buf[at + len] == NUL
    ensures forall k :: 0 <= k < buf.Length && (k < at || at + len <= k) ==> buf[k] == old(buf[k])
  {
    hide Reversed;
    var n := StrLen(buf, at, len);
    ghost var was := buf[..];
    SwapEnds(buf, at, n);
    ReversedSlice(was, buf[..], at, n);
    assert was[at..at + n] == old(buf[at..at + n]) && buf[..][at..at + n] == buf[at..at + n];
  }

  lemma ReversedSlice(was: seq<Byte>, now: seq<Byte>, at: nat, n: nat)
    requires |was| == |now| && at + n <= |was|
    requires forall k :: at <= k < at + n ==> now[k] == was[at + at + n - 1 - k]
    ensures now[at..at + n] == Reversed(was[at..at + n])
  {
    var s := was[at..at + n];
    assert forall i :: 0 <= i < n ==> Reversed(s)[i] == s[n - 1 - i];
  }

  /** The loop of strrev: the two ends are swapped, inwards. */
  method SwapEnds(buf: array<Byte>, at: nat, n: nat)
    requires at + n <= buf.Length
    modifies buf
    ensures forall k :: at <= k < at + n ==> buf[k] == old(buf[at + at + n - 1 - k])
    ensures forall k :: 0 <= k < buf.Length && (k < at || at + n <= k) ==> buf[k] == old(buf[k])
  {
    var beg, end: int := at, at + n - 1;
    ghost var m := at + at + n - 1;
    while beg < end
      invariant at <= beg <= end + 2 && beg + end == m
      invariant forall k :: at <= k < beg || end < k < at + n ==> buf[k] == old(buf[m - k])
      invariant forall k :: 0 <= k < buf.Length && !(at <= k < beg || end < k < at + n) ==> buf[k] == old(buf[k])
    {
      buf[beg], buf[end] := buf[end], buf[beg];
      beg, end := beg + 1, end - 1;
    }
  }

  method StrLen(buf: array<Byte>, at: nat, ghost len: nat) returns (n: nat)
    requires at + len < buf.Length && buf[at + len] == NUL && NUL !in buf[at..at + len]
    ensures n == len
  {
    n := 0;
    assert forall k :: at <= k < at + len ==> buf[k] == buf[at..at + len][k - at];
    while buf[at + n] != NUL
      invariant n <= len
      decreases len - n
    {
      n := n + 1;
    }
  }

  /** A number in a radix: it reads back as the number, without leading zeros. */
  ghost predicate Prints(s: seq<Byte>, v: nat, radix: Radix) {
    && s != [] && AreDigits(s, radix) && ValueOf(s, radix) == v
    && (1 < |s| ==> s[0] != ZERO)
  }

  lemma ZeroPrints(radix: Radix)
    ensures Prints([ZERO], 0, radix)
  {
    assert ValueOf([], radix) == 0;
  }

  lemma DigitsPrint(v: nat, radix: Radix)
    requires v != 0
    ensures Prints(Reversed(LastFirst(v, radix)), v, radix) && NUL !in Reversed(LastFirst(v, radix))
  {
    LastFirstValue(v, radix);
    hide ValueOf;
    var s := LastFirst(v, radix);
    hide LastFirst;
    assert forall i :: 0 <= i < |s| ==> s[i] in s;
    assert Reversed(s)[0] == s[|s| - 1];
  }

  /** itoa, into a buffer that has room for the digits and a NUL. */
  method Itoa(value: Word, buf: array<Byte>, at: nat, radix: Radix) returns (ghost len: nat)
    requires at + 1 < buf.Length && at + |LastFirst(value, radix)| < buf.Length
    modifies buf
    ensures 1 <= len <= 32 && at + len < buf.Length && buf[at + len] == NUL && NUL !in buf[at..at + len]
    ensures Prints(buf[at..at + len], value, radix)
    ensures radix == 16 ==> len <= 8
    ensures forall k :: 0 <= k < at || at + len < k < buf.Length ==> buf[k] == old(buf[k])
  {
    hide LastFirst, Prints, Reversed;
    if value == 0 {
      buf[at] := ZERO;
      buf[at + 1] := NUL;
      assert buf[at..at + 1] == [ZERO];
      ZeroPrints(radix);
      return 1;
    }
    WordDigits(value, radix);
    DigitsPrint(value, radix);
    len := |LastFirst(value, radix)|;
    EmitDigits(value, buf, at, radix);
    ghost var digits := LastFirst(value, radix);
    assert NUL !in digits;
    assert buf[at..at + len] == digits;
    StrRev(buf, at, len);
    assert buf[at..at + len] == Reversed(digits);
  }

  /** The loop of itoa: the digits from the last one on, and a NUL. */
  method EmitDigits(value: Word, buf: array<Byte>, at: nat, radix: Radix)
    requires at + |LastFirst(value, radix)| < buf.Length
    modifies buf
    ensures buf[at..at + |LastFirst(value, radix)|] == LastFirst(value, radix)
    ensures buf[at + |LastFirst(value, radix)|] == NUL
    ensures forall k :: 0 <= k < at || at + |LastFirst(value, radix)| < k < buf.Length ==> buf[k] == old(buf[k])
  {
    hide LastFirst, Quo, Rem, DigitChar;
    ghost var all := LastFirst(value, radix);
    var p: nat, newval: nat := at, value;
    while newval > 0
      invariant at <= p <= at + |all| && all[p - at..] == LastFirst(newval, radix)
      invariant forall k :: at <= k < p ==> buf[k] == all[k - at]
      invariant forall k :: 0 <= k < at || p <= k < buf.Length ==> buf[k] == old(buf[k])
      decreases newval
    {
      DigitStep(newval, radix);
      ghost var rest := all[p - at..];
      assert all[p - at] == rest[0] && all[p + 1 - at..] == rest[1..];
      buf[p] := DigitChar(Rem(newval, radix));
      p, newval := p + 1, Quo(newval, radix);
    }
    NoDigits(radix);
    buf[p] := NUL;
  }

  lemma DigitStep(v: nat, radix: Radix)
    requires v != 0
    ensures LastFirst(v, radix) == [DigitChar(Rem(v, radix))] + LastFirst(Quo(v, radix), radix)
  {
    hide Quo, Rem;
  }

  lemma NoDigits(radix: Radix)
    ensures LastFirst(0, radix) == []
  {
  }

  lemma WordDigits(v: Word, radix: Radix)
    ensures |LastFirst(v, radix)| <= 32
    ensures radix == 16 ==> |LastFirst(v, radix)| <= 8
  {
    WordRange();
    DigitCount(v, radix, 2, 32);
    if radix == 16 {
      DigitCount(v, 16, 16, 8);
    }
  }

  /** Zeros in front do not change the value. */
  lemma {:induction false} LeadingZeros(z: seq<Byte>, s: seq<Byte>, radix: Radix)
    requires forall i :: 0 <= i < |z| ==> z[i] == ZERO
    ensures ValueOf(z + s, radix) == ValueOf(s, radix)
    decreases |z| + |s|
  {
    var t := z + s;
    if s != [] {
      assert t[..|t| - 1] == z + s[..|s| - 1];
      LeadingZeros(z, s[..|s| - 1], radix);
    } else if z != [] {
      assert t[..|t| - 1] == z[..|z| - 1] + [];
      LeadingZeros(z[..|z| - 1], [], radix);
    }
  }

  /** The %#x conversion: for every value exactly eight hexadecimal digits with that value. */
  method FormatHex(value: Word, buf: array<Byte>) returns (start: nat)
    requires buf.Length == 64
    modifies buf
    ensures start <= 8 && buf[start + 8] == NUL
    ensures AreDigits(buf[start..start + 8], 16) && ValueOf(buf[start..start + 8], 16) == value
  {
    hide ValueOf, LastFirst, Prints;
    WordDigits(value, 16);
    ghost var len := Itoa(value, buf, 8, 16);
    start := StrLen(buf, 8, len);
    ghost var s := buf[8..8 + len];
    assert start + 8 == 8 + len && AreDigits(s, 16) && ValueOf(s, 16) == value by { PrintsValue(s, value, 16); }
    PadZeros(buf, start);
    assert buf[8..8 + len] == s;
    ghost var z := buf[start..8];
    LeadingZeros(z, s, 16);
    assert buf[start..8 + len] == z + s;
  }

  /** The loop that fills up with zeros. */
  method PadZeros(buf: array<Byte>, start: nat)
    requires start <= 8 <= buf.Length
    modifies buf
    ensures forall k :: start <= k < 8 ==> buf[k] == ZERO
    ensures forall k :: 0 <= k < start || 8 <= k < buf.Length ==> buf[k] == old(buf[k])
  {
    var i := start;
    while i < 8
      invariant start <= i <= 8
      invariant forall k :: start <= k < i ==> buf[k] == ZERO
      invariant forall k :: 0 <= k < start || 8 <= k < buf.Length ==> buf[k] == old(buf[k])
    {
      buf[i] := ZERO;
      i := i + 1;
    }
  }

  lemma PrintsValue(s: seq<Byte>, v: nat, radix: Radix)
    requires Prints(s, v, radix)
    ensures AreDigits(s, radix) && ValueOf(s, radix) == v
  {
  }
}
