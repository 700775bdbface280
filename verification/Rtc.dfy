/** The virtualised real-time clock (student-distrib/rtc.c): hardware interrupts at 1024 Hz are
    counted down to the frequency a program asked for. */
module Rtc {
  import opened Arith

  const MAX_FREQ: nat := 1024
  const BASE_FREQ: nat := 2

  // ---- Which frequencies are accepted ----

  /** The bitwise `&` of C on natural numbers. */
  function BitAnd(a: nat, b: nat): nat {
    if a == 0 || b == 0 then 0 else a % 2 * (b % 2) + 2 * BitAnd(a / 2, b / 2)
  }

  predicate IsPowerOf2(n: nat) {
    n == 1 || (n != 0 && n % 2 == 0 && IsPowerOf2(n / 2))
  }

  lemma {:induction false} BitAndSelf(k: nat)
    ensures BitAnd(k, k) == k
  {
    if k != 0 {
      BitAndSelf(k / 2);
      assert k % 2 * (k % 2) == k % 2;
    }
  }

  /** (n - 1) & n is zero exactly for the powers of two. */
  lemma {:induction false} PowerOf2Mask(n: nat)
    requires n != 0
    ensures BitAnd(n - 1, n) == 0 <==> IsPowerOf2(n)
  {
    var k := n / 2;
    if n == 1 {
    } else if n % 2 == 1 {
      assert (n - 1) / 2 == k && (n - 1) % 2 == 0;
      BitAndSelf(k);
    } else {
      assert (n - 1) / 2 == k - 1 && (n - 1) % 2 == 1 && n % 2 == 0;
      PowerOf2Mask(k);
    }
  }

  /** The condition of rtc_write. */
  predicate Accepted(freq: nat) {
    2 <= freq <= MAX_FREQ && BitAnd(freq - 1, freq) == 0
  }

  /** x >> k */
  function Shr(x: nat, k: nat): nat
    decreases k
  {
    if k == 0 then x else Shr(x / 2, k - 1)
  }

  /** 32768 >> (rate - 1) */
  function RateFreq(rate: nat): nat
    requires 1 <= rate
  {
    Shr(32768, rate - 1)
  }

  lemma {:induction false} ShrPow(n: nat, k: nat)
    requires k <= n
    ensures Shr(Pow(2, n), k) == Pow(2, n - k)
    decreases k
  {
    if k != 0 {
      assert Pow(2, n) / 2 == Pow(2, n - 1);
      ShrPow(n - 1, k - 1);
    }
  }

  /** A power of two up to 2^k is one of 2^0 .. 2^k. */
  lemma {:induction false} Exponent(f: nat, k: nat)
    requires 1 <= f <= Pow(2, k)
    ensures IsPowerOf2(f) <==> exists j: nat :: j <= k && f == Pow(2, j)
    decreases k
  {
    if f == 1 {
      assert f == Pow(2, 0);
    } else if f % 2 == 0 {
      Exponent(f / 2, k - 1);
      if IsPowerOf2(f) {
        var j: nat :| j <= k - 1 && f / 2 == Pow(2, j);
        assert f == Pow(2, j + 1);
      } else {
        forall j: nat | j <= k
          ensures f != Pow(2, j)
        {
          if j != 0 {
            assert f / 2 != Pow(2, j - 1);
          }
        }
      }
    } else {
      assert forall j: nat :: j <= k ==> f != Pow(2, j);
    }
  }

  lemma Limits()
    ensures Pow(2, 0) == 1 && Pow(2, 10) == MAX_FREQ && Pow(2, 15) == 32768
  {
    assert Pow(2, 5) == 32;
    PowSum(2, 5, 5);
    PowSum(2, 10, 5);
  }

  /** The exponent of an accepted frequency. */
  lemma AcceptedExponent(freq: nat) returns (j: nat)
    requires Accepted(freq)
    ensures 1 <= j <= 10 && freq == Pow(2, j)
  {
    Limits();
    PowerOf2Mask(freq);
    Exponent(freq, 10);
    j :| j <= 10 && freq == Pow(2, j);
  }

  /** The rate rtc_set_rate finds, or 0. */
  method SetRate(freq: nat) returns (rate: nat)
    ensures rate == 0 || (6 <= rate < 16 && freq == RateFreq(rate))
    ensures rate == 0 <==> forall i :: 6 <= i < 16 ==> freq != RateFreq(i)
  {
    rate := 0;
    for i := 6 to 16
      invariant rate == 0 && forall k :: 6 <= k < i ==> freq != RateFreq(k)
    {
      if freq == RateFreq(i) {
        rate := i;
        break;
      }
    }
  }

  lemma RateOf(rate: nat)
    requires 6 <= rate < 16
    ensures RateFreq(rate) == Pow(2, 16 - rate)
  {
    Limits();
    ShrPow(15, rate - 1);
  }

  lemma PowerRange(j: nat)
    requires 1 <= j <= 10
    ensures 2 <= Pow(2, j) <= MAX_FREQ && Pow(2, j) * Pow(2, 10 - j) == MAX_FREQ
  {
    Limits();
    PowSum(2, j, 10 - j);
    PowPositive(2, 10 - j);
    PowPositive(2, j - 1);
    assert Pow(2, j) == 2 * Pow(2, j - 1);
    hide Pow;
    Product(Pow(2, j), Pow(2, 10 - j) - 1);
  }

  lemma PowerAccepted(j: nat)
    requires 1 <= j <= 10
    ensures Accepted(Pow(2, j))
  {
    hide Pow, IsPowerOf2, BitAnd;
    Limits();
    PowerRange(j);
    Exponent(Pow(2, j), 10);
    PowerOf2Mask(Pow(2, j));
  }

  /** A frequency is accepted exactly when the hardware has a rate for it. */
  lemma AcceptedIff(freq: nat)
    ensures Accepted(freq) <==> exists i :: 6 <= i < 16 && freq == RateFreq(i)
  {
    hide Accepted, RateFreq, Pow;
    if Accepted(freq) {
      var j := AcceptedExponent(freq);
      RateOf(16 - j);
    }
    if i :| 6 <= i < 16 && freq == RateFreq(i) {
      RateOf(i);
      PowerAccepted(16 - i);
    }
  }

  // ---- Counting interrupts ----

  /** rtc_counter, rtc_max_count and rtc_interrupt_occurred. */
  datatype Clock = Clock(counter: nat, maxCount: nat, occurred: bool)

  datatype Event = Open | Write(freq: nat, nbytes: int) | Interrupt | Read

  const BOOT := Clock(0, MAX_FREQ / BASE_FREQ, false)

  function Interrupted(c: Clock): Clock {
    if c.maxCount <= c.counter + 1 then Clock(0, c.maxCount, true) else c.(counter := c.counter + 1)
  }

  /** rtc_open leaves the counter alone; rtc_write resets it; rtc_read takes the flag. */
  function Step(c: Clock, e: Event): Clock {
    match e
    case Open => Clock(c.counter, MAX_FREQ / BASE_FREQ, false)
    case Write(freq, nbytes) =>
      if nbytes == 4 && Accepted(freq) then Clock(0, MAX_FREQ / freq, c.occurred) else c
    case Interrupt => Interrupted(c)
    case Read => c.(occurred := false)
  }

  function Run(c: Clock, es: seq<Event>): Clock
    decreases |es|
  {
    if es == [] then c else Run(Step(c, es[0]), es[1..])
  }

  /** The virtual frequency an event leaves set: open sets 2, an accepted write its own. */
  function FreqAfter(freq: nat, e: Event): nat {
    match e
    case Open => BASE_FREQ
    case Write(f, nbytes) => if nbytes == 4 && Accepted(f) then f else freq
    case _ => freq
  }

  /** The frequency set last. */
  function FreqSet(freq: nat, es: seq<Event>): nat
    decreases |es|
  {
    if es == [] then freq else FreqSet(FreqAfter(freq, es[0]), es[1..])
  }

  /** The count stays below its limit, and the limit is 1024 divided by the frequency. */
  ghost predicate Inv(c: Clock, freq: nat) {
    c.counter < c.maxCount && 2 <= freq && freq * c.maxCount == MAX_FREQ
  }

  lemma AcceptedDivides(freq: nat)
    requires Accepted(freq)
    ensures freq * (MAX_FREQ / freq) == MAX_FREQ
  {
    hide Pow, Accepted;
    var j := AcceptedExponent(freq);
    PowerRange(j);
    DivModIs(MAX_FREQ, freq, Pow(2, 10 - j), 0);
  }

  lemma StepKeepsInv(c: Clock, freq: nat, e: Event)
    requires Inv(c, freq)
    ensures Inv(Step(c, e), FreqAfter(freq, e))
  {
    match e
    case Open =>
      assert c.maxCount <= 512 by { Product(freq - 2, c.maxCount); }
    case Write(f, nbytes) =>
      if nbytes == 4 && Accepted(f) {
        AcceptedDivides(f);
        Positive(f);
      }
    case _ =>
  }

  /** For every interleaving of opens, writes, reads and interrupts: the limit is the one of the
      frequency set last, and the count is below it. */
  lemma {:induction false} RunKeepsInv(c: Clock, freq: nat, es: seq<Event>)
    requires Inv(c, freq)
    ensures Inv(Run(c, es), FreqSet(freq, es))
    decreases |es|
  {
    if es != [] {
      StepKeepsInv(c, freq, es[0]);
      RunKeepsInv(Step(c, es[0]), FreqAfter(freq, es[0]), es[1..]);
    }
  }

  lemma BootInv()
    ensures Inv(BOOT, BASE_FREQ)
  {
  }

  /** Over every run from boot, the next n interrupts tick as often as the frequency set last says, the
      interrupts already counted included. */
  lemma TicksAfterRun(es: seq<Event>, n: nat)
    ensures var c, f := Run(BOOT, es), FreqSet(BASE_FREQ, es);
            TickCount(c, n) == (c.counter + n) * f / MAX_FREQ
  {
    BootInv();
    RunKeepsInv(BOOT, BASE_FREQ, es);
    hide TickCount, Run, FreqSet;
    var c, f := Run(BOOT, es), FreqSet(BASE_FREQ, es);
    TickCountIs(c, n);
    var k, m := c.counter + n, c.maxCount;
    Divided(k, m, k / m);
    Scaled(k, m, k / m, f);
  }

  /** Virtual ticks caused by `n` interrupts in a row. */
  function TickCount(c: Clock, n: nat): nat
    decreases n
  {
    if n == 0 then 0 else (if c.maxCount <= c.counter + 1 then 1 else 0) + TickCount(Interrupted(c), n - 1)
  }

  /** The ticks are the interrupts, together with those already counted, divided by the limit. */
  lemma {:induction false} TickCountIs(c: Clock, n: nat)
    requires c.counter < c.maxCount
    ensures TickCount(c, n) == (c.counter + n) / c.maxCount
    decreases n
  {
    var m := c.maxCount;
    if n == 0 {
      DivModIs(c.counter, m, 0, c.counter);
    } else {
      TickCountIs(Interrupted(c), n - 1);
      if m <= c.counter + 1 {
        var q, k := (n - 1) / m, (n - 1) % m;
        assert c.counter + n == m + (n - 1) == (q + 1) * m + k;
        DivModIs(c.counter + n, m, q + 1, k);
      }
    }
  }

  /** After a write of an accepted frequency, n interrupts cause exactly n * f / 1024 ticks. */
  lemma TicksAfterWrite(c: Clock, freq: nat, n: nat)
    requires Accepted(freq)
    ensures TickCount(Step(c, Write(freq, 4)), n) == n * freq / MAX_FREQ
  {
    AcceptedDivides(freq);
    assert freq != 0 by { Positive(freq); }
    hide Accepted, TickCount;
    var m := MAX_FREQ / freq;
    assert 0 < m;
    TickCountIs(Step(c, Write(freq, 4)), n);
    Divided(n, m, n / m);
    Scaled(n, m, n / m, freq);
  }

  lemma Positive(freq: nat)
    requires Accepted(freq)
    ensures 2 <= freq
  {
  }

  lemma Divided(n: nat, m: nat, q: nat)
    requires 0 < m && q == n / m
    ensures q * m <= n < q * m + m
  {
  }

  lemma Scaled(n: nat, m: nat, q: nat, f: nat)
    requires 0 < m && 0 < f && q * m <= n < q * m + m && f * m == MAX_FREQ
    ensures n * f / MAX_FREQ == q
  {
    var r := n - q * m;
    Product(r, f);
    Product(m - 1 - r, f);
    assert n * f == q * (m * f) + r * f;
    assert (m - 1 - r) * f == m * f - f - r * f;
    DivModIs(n * f, MAX_FREQ, q, r * f);
  }

  // ---- The flag a reader waits for ----

  /** `n` interrupts in a row. */
  function Interrupts(c: Clock, n: nat): Clock
    decreases n
  {
    if n == 0 then c else Interrupts(Interrupted(c), n - 1)
  }

  /** The flag is up exactly when it was before or a tick has come. */
  lemma {:induction false} FlagIsTicked(c: Clock, n: nat)
    ensures Interrupts(c, n).occurred <==> c.occurred || 0 < TickCount(c, n)
    decreases n
  {
    if n != 0 {
      FlagIsTicked(Interrupted(c), n - 1);
    }
  }

  lemma AtLeastOneTick(c: Clock, freq: nat, n: nat)
    requires Inv(c, freq)
    ensures 0 < TickCount(c, n) <==> MAX_FREQ <= (c.counter + n) * freq
  {
    hide TickCount;
    TickCountIs(c, n);
    var k, m := c.counter + n, c.maxCount;
    Divided(k, m, k / m);
    Scaled(k, m, k / m, freq);
    Product(k, freq);
  }

  /** What a reader sees, over every run from boot: a read that has just returned, or an open, waits until
      the interrupts, together with those counted already, make up one period of the frequency set last. */
  lemma ReaderWaits(es: seq<Event>, e: Event, n: nat)
    requires e == Read || e == Open
    ensures var c, f := Run(BOOT, es), FreqAfter(FreqSet(BASE_FREQ, es), e);
            Interrupts(Step(c, e), n).occurred <==> MAX_FREQ <= (c.counter + n) * f
  {
    hide Run, FreqSet, TickCount, Interrupts;
    BootInv();
    RunKeepsInv(BOOT, BASE_FREQ, es);
    var c, f := Run(BOOT, es), FreqSet(BASE_FREQ, es);
    StepKeepsInv(c, f, e);
    FlagIsTicked(Step(c, e), n);
    AtLeastOneTick(Step(c, e), FreqAfter(f, e), n);
  }

  /** After an accepted write the flag is up exactly when it was or n interrupts make up one period. */
  lemma FlagAfterWrite(c: Clock, freq: nat, n: nat)
    requires Accepted(freq)
    ensures Interrupts(Step(c, Write(freq, 4)), n).occurred <==> c.occurred || MAX_FREQ <= n * freq
  {
    AcceptedDivides(freq);
    Positive(freq);
    hide Accepted, TickCount, Interrupts;
    var d := Step(c, Write(freq, 4));
    FlagIsTicked(d, n);
    AtLeastOneTick(d, freq, n);
  }

  // ---- The driver's variables, in place ----

  class Driver {
    var counter: nat
    var maxCount: nat
    var occurred: bool
    ghost var freq: nat   // set last

    ghost function State(): Clock
      reads this
    {
      Clock(counter, maxCount, occurred)
    }

    constructor ()
      ensures State() == BOOT && Inv(State(), freq)
    {
      freq := BASE_FREQ;
      counter, maxCount, occurred := 0, MAX_FREQ / BASE_FREQ, false;
    }

    /** rtc_handler */
    method Handler()
      requires Inv(State(), freq)
      modifies this
      ensures State() == Step(old(State()), Interrupt) && Inv(State(), freq)
      ensures freq == FreqAfter(old(freq), Interrupt)
    {
      StepKeepsInv(State(), freq, Interrupt);
      freq := FreqAfter(freq, Interrupt);
      counter := counter + 1;
      if counter >= maxCount {
        occurred := true;
        counter := 0;
      }
    }

    /** rtc_open */
    method OpenClock()
      requires Inv(State(), freq)
      modifies this
      ensures State() == Step(old(State()), Open) && Inv(State(), freq)
      ensures freq == FreqAfter(old(freq), Open)
    {
      StepKeepsInv(State(), freq, Open);
      freq := FreqAfter(freq, Open);
      maxCount := MAX_FREQ / BASE_FREQ;
      occurred := false;
    }

    /** rtc_read, entered once the flag is up. */
    method ReadTick() returns (r: int)
      requires Inv(State(), freq) && occurred
      modifies this
      ensures State() == Step(old(State()), Read) && Inv(State(), freq) && freq == old(freq) && r == 0
    {
      occurred := false;
      r := 0;
    }

    /** rtc_write */
    method WriteFreq(f: nat, nbytes: int) returns (r: int)
      requires Inv(State(), freq)
      modifies this
      ensures State() == Step(old(State()), Write(f, nbytes)) && Inv(State(), freq)
      ensures freq == FreqAfter(old(freq), Write(f, nbytes))
      ensures r == if nbytes == 4 && Accepted(f) then 4 else -1
    {
      StepKeepsInv(State(), freq, Write(f, nbytes));
      freq := FreqAfter(freq, Write(f, nbytes));
      hide BitAnd;
      if nbytes != 4 {
        return -1;
      }
      if !(f >= 2 && f <= 1024 && BitAnd(f - 1, f) == 0) {
        return -1;
      }
      maxCount := MAX_FREQ / f;
      counter := 0;
      r := nbytes;
    }
  }
}
