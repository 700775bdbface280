/** The blinking characters of `fish` (fish/blink.S, fish/fish.c): a list linked through a fixed pool
    in which location 0 marks a free slot, and a countdown per character. */
module Blink {
  import opened Arith
  import opened Bytes

  const POOL: nat := 2000      // 80 * 25
  const NULL: int := -1

  type Half = x: int | 0 <= x < 0x1_0000

  /** struct mp1_blink_struct without its link. */
  datatype Char = Char(location: Half, onChar: Byte, offChar: Byte, onLen: Half, offLen: Half,
                       countdown: Half, status: Half)

  // ---- One character's countdown ----

  /** A 16-bit word read as signed. */
  function Signed(w: Half): int {
    if w < 0x8000 then w else w - 0x1_0000
  }

  predicate IsOn(c: Char) {
    c.status % 2 == 1
  }

  /** One turn of mp1_rtc_tasklet's loop: count down, and at zero or below switch over. */
  function Tick(c: Char): Char {
    var down := (c.countdown - 1) % 0x1_0000;
    if Signed(down) > 0 then c.(countdown := down)
    else if IsOn(c) then c.(countdown := c.offLen, status := c.status - 1)
    else c.(countdown := c.onLen, status := c.status + 1)
  }

  function Ticks(c: Char, t: nat): Char {
    if t == 0 then c else Tick(Ticks(c, t - 1))
  }

  /** The fields mp1_ioctl_add sets: on, with a full countdown. */
  function Started(c: Char): Char {
    c.(status := 1, countdown := c.onLen)
  }

  /** For how many ticks a phase of the given length lasts: a length that is zero, or negative as a
      signed word after the first decrement, lasts one tick. */
  function Lasts(len: Half): (n: nat)
    ensures 1 <= n
  {
    if 1 <= len <= 0x8000 then len else 1
  }

  /** What is left of a phase after `r` of its ticks. */
  lemma PhaseStep(len: Half, r: nat)
    requires r < Lasts(len)
    ensures var down := (len - r - 1) % 0x1_0000;
            0 <= len - r && (Signed(down) > 0 <==> r + 1 < Lasts(len)) && (r + 1 < Lasts(len) ==> down == len - r - 1)
  {
    if len == 0 {
      assert (0 - 1) % 0x1_0000 == 0xFFFF;
    }
  }

  function Period(c: Char): (n: nat)
    ensures 2 <= n
  {
    Lasts(c.onLen) + Lasts(c.offLen)
  }

  /** A character `r` ticks into its period. */
  function Phase(c: Char, r: nat): Char
    requires r < Period(c)
  {
    if r < Lasts(c.onLen) then Started(c).(countdown := c.onLen - r)
    else Started(c).(status := 0, countdown := c.offLen - (r - Lasts(c.onLen)))
  }

  lemma PhaseTick(c: Char, r: nat)
    requires r < Period(c)
    ensures Tick(Phase(c, r)) == Phase(c, if r + 1 == Period(c) then 0 else r + 1)
  {
    if r < Lasts(c.onLen) {
      PhaseStep(c.onLen, r);
    } else {
      PhaseStep(c.offLen, r - Lasts(c.onLen));
    }
  }

  /** The state of a character `t` ticks after it was added. */
  lemma {:induction false} PhaseAfter(c: Char, t: nat)
    ensures Ticks(Started(c), t) == Phase(c, t % Period(c))
  {
    if t == 0 {
      DivModIs(0, Period(c), 0, 0);
    } else {
      hide Tick, Phase, Period;
      PhaseAfter(c, t - 1);
      NextRemainder(t - 1, Period(c));
      PhaseTick(c, (t - 1) % Period(c));
    }
  }

  /** For every pair of lengths and every t: a character that is never synchronized is on exactly in
      the first part of its period. */
  lemma OnExactlyInFirstPhase(c: Char, t: nat)
    ensures IsOn(Ticks(Started(c), t)) <==> t % (Lasts(c.onLen) + Lasts(c.offLen)) < Lasts(c.onLen)
  {
    PhaseAfter(c, t);
    hide Ticks;
  }

  /** What a character shows. */
  function Glyph(c: Char): Byte {
    if IsOn(c) then c.onChar else c.offChar
  }

  /** At every tick an added character shows its on-character in the first part of its period and its
      off-character in the second, at the place it was added. */
  lemma GlyphAfter(c: Char, t: nat)
    ensures var d := Ticks(Started(c), t);
            && d.location == c.location
            && Glyph(d) == if t % (Lasts(c.onLen) + Lasts(c.offLen)) < Lasts(c.onLen) then c.onChar else c.offChar
  {
    PhaseAfter(c, t);
    hide Ticks;
  }

  /** At tick `t` the character shows what its lengths promise: on for onLen of every onLen + offLen. */
  ghost predicate AsGiven(c: Char, t: nat)
    requires 0 < c.onLen + c.offLen
  {
    IsOn(Ticks(Started(c), t)) <==> t % (c.onLen + c.offLen) < c.onLen
  }

  /** A tick at which a length that is 0 or above 32768 shows. */
  lemma FailingTick(c: Char) returns (t: nat)
    requires 0 < c.onLen + c.offLen && !(1 <= c.onLen <= 0x8000 && 1 <= c.offLen <= 0x8000)
    ensures !AsGiven(c, t)
  {
    var on, given, period := c.onLen, c.onLen + c.offLen, Period(c);
    t := if on == 0 then 0 else if 0x8000 < on then 1 else if c.offLen == 0 then on else on + 1;
    OnExactlyInFirstPhase(c, t);
    hide Ticks;
    if on == 0 || 0x8000 < on {
      DivModIs(t, period, 0, t);
      DivModIs(t, given, 0, t);
    } else if c.offLen == 0 {
      DivModIs(t, period, 0, t);
      DivModIs(t, given, 1, 0);
    } else {
      DivModIs(t, period, 1, 0);
      DivModIs(t, given, 0, t);
    }
  }

  /** A character blinks with the lengths it was given, at every tick, exactly when neither is 0 nor
      above 32768. */
  lemma AsGivenIff(c: Char)
    requires 0 < c.onLen + c.offLen
    ensures (forall t: nat :: AsGiven(c, t)) <==> 1 <= c.onLen <= 0x8000 && 1 <= c.offLen <= 0x8000
  {
    if 1 <= c.onLen <= 0x8000 && 1 <= c.offLen <= 0x8000 {
      forall t: nat
        ensures AsGiven(c, t)
      {
        OnExactlyInFirstPhase(c, t);
      }
    } else {
      var t := FailingTick(c);
    }
  }

  /** mp1_ioctl_sync: the second character takes the first one's lengths and phase. */
  function Synced(from: Char, to: Char): Char {
    to.(onLen := from.onLen, offLen := from.offLen, countdown := from.countdown, status := from.status)
  }

  /** After a sync both stay in the same phase at every later tick. */
  lemma {:induction false} SyncedInLockstep(from: Char, to: Char, t: nat)
    ensures Ticks(Synced(from, to), t) == Synced(Ticks(from, t), to)
  {
    if t != 0 {
      SyncedInLockstep(from, to, t - 1);
    }
  }

  // ---- The list as a sequence ----

  /** The first character at a location, or the length. */
  function FirstAt(cs: seq<Char>, loc: Half): (i: nat)
    ensures i <= |cs| && (i < |cs| ==> cs[i].location == loc)
    ensures forall j :: 0 <= j < i ==> cs[j].location != loc
  {
    if cs == [] || cs[0].location == loc then 0 else 1 + FirstAt(cs[1..], loc)
  }

  lemma {:induction false} FirstAtIs(cs: seq<Char>, loc: Half, i: nat)
    requires i <= |cs| && (i < |cs| ==> cs[i].location == loc)
    requires forall j :: 0 <= j < i ==> cs[j].location != loc
    ensures FirstAt(cs, loc) == i
  {
    var k := FirstAt(cs, loc);
    assert k < |cs| ==> cs[k].location == loc;
  }

  function RemoveSpec(cs: seq<Char>, loc: Half): seq<Char> {
    var i := FirstAt(cs, loc);
    if i < |cs| then cs[..i] + cs[i + 1..] else cs
  }

  function SyncSpec(cs: seq<Char>, from: Half, to: Half): seq<Char> {
    var i, j := FirstAt(cs, from), FirstAt(cs, to);
    if i < |cs| && j < |cs| then cs[j := Synced(cs[i], cs[j])] else cs
  }

  function TickSpec(cs: seq<Char>): seq<Char> {
    seq(|cs|, i requires 0 <= i < |cs| => Tick(cs[i]))
  }

  lemma TickSpecIs(cs: seq<Char>, ds: seq<Char>)
    requires |cs| == |ds| && forall i :: 0 <= i < |cs| ==> ds[i] == Tick(cs[i])
    ensures ds == TickSpec(cs)
  {
  }

  /** `t` ticks of the whole list. */
  function TickAll(cs: seq<Char>, t: nat): (ds: seq<Char>)
    ensures |ds| == |cs|
  {
    if t == 0 then cs else TickSpec(TickAll(cs, t - 1))
  }

  /** Every character of a list keeps its own time. */
  lemma {:induction false} TickAllIs(cs: seq<Char>, t: nat, i: nat)
    requires i < |cs|
    ensures TickAll(cs, t)[i] == Ticks(cs[i], t)
  {
    if t != 0 {
      TickAllIs(cs, t - 1, i);
    }
  }

  /** After a sync of two characters of the list they are in the same phase at every later tick, and
      blink alike; the second still stands where it stood and shows its own two characters. All others
      blink as if nothing had happened. */
  lemma SyncSpecLockstep(cs: seq<Char>, from: Half, to: Half, t: nat)
    requires FirstAt(cs, from) < |cs| && FirstAt(cs, to) < |cs|
    ensures var ds := TickAll(SyncSpec(cs, from, to), t);
            var i, j := FirstAt(cs, from), FirstAt(cs, to);
            && ds[i].status == ds[j].status && ds[i].countdown == ds[j].countdown
            && ds[i].onLen == ds[j].onLen && ds[i].offLen == ds[j].offLen
            && ds[i] == Ticks(cs[i], t)
            && ds[j].location == cs[j].location && ds[j].onChar == cs[j].onChar && ds[j].offChar == cs[j].offChar
            && forall k :: 0 <= k < |cs| && k != j ==> ds[k] == Ticks(cs[k], t)
  {
    hide FirstAt, TickSpec, Tick;
    var i, j := FirstAt(cs, from), FirstAt(cs, to);
    var es := SyncSpec(cs, from, to);
    assert es == cs[j := Synced(cs[i], cs[j])];
    SyncedInLockstep(cs[i], cs[j], t);
    forall k | 0 <= k < |cs|
      ensures TickAll(es, t)[k] == Ticks(es[k], t)
    {
      TickAllIs(es, t, k);
    }
  }

  // ---- The links in the pool, as values ----

  datatype Node = Node(c: Char, next: int)

  const FREE := Node(Char(0, 0, 0, 0, 0, 0, 0), NULL)

  /** The link that follows place `i` of the list. */
  function LinkAfter(order: seq<nat>, i: nat): int {
    if i + 1 < |order| then order[i + 1] else NULL
  }

  /** The links run through the slots of `order`, each slot once, and end: there is no cycle. */
  ghost predicate Linked(ns: seq<Node>, head: int, order: seq<nat>) {
    && |ns| == POOL
    && head == (if order == [] then NULL else order[0])
    && (forall i :: 0 <= i < |order| ==> order[i] < POOL && ns[order[i]].next == LinkAfter(order, i))
    && Distinct(order)
  }

  /** The slots in the list are exactly those whose location is not 0. */
  ghost predicate Exact(ns: seq<Node>, order: seq<nat>)
    requires |ns| == POOL
  {
    forall k: nat :: k < POOL ==> (k in order <==> ns[k].c.location != 0)
  }

  ghost function CharsOf(ns: seq<Node>, order: seq<nat>): (cs: seq<Char>)
    requires forall i :: 0 <= i < |order| ==> order[i] < |ns|
    ensures |cs| == |order|
    ensures forall i :: 0 <= i < |order| ==> cs[i] == ns[order[i]].c
  {
    seq(|order|, i requires 0 <= i < |order| => ns[order[i]].c)
  }

  ghost predicate Distinct(order: seq<nat>) {
    forall i, j :: 0 <= i < j < |order| ==> order[i] != order[j]
  }

  lemma ConsDistinct(order: seq<nat>, k: nat)
    requires Distinct(order) && k !in order
    ensures Distinct([k] + order)
  {
    var o := [k] + order;
    assert forall i :: 0 < i < |o| ==> o[i] == order[i - 1];
  }

  /** A free slot put in front. It counts as used exactly when its location is not 0. */
  lemma AddLinks(ns: seq<Node>, head: int, order: seq<nat>, k: nat, c: Char)
    requires Linked(ns, head, order) && Exact(ns, order) && k < POOL && ns[k].c.location == 0
    ensures k !in order
    ensures Linked(ns[k := Node(c, head)], k, [k] + order)
    ensures CharsOf(ns[k := Node(c, head)], [k] + order) == [c] + CharsOf(ns, order)
    ensures Exact(ns[k := Node(c, head)], [k] + order) <==> c.location != 0
  {
    ConsDistinct(order, k);
    ConsExact(ns, order, k, Node(c, head));
    assert forall i :: 0 <= i < |order| ==> order[i] in order;
    assert forall i :: 0 <= i < |order| ==> order[i] != k;
    ConsChars(ns, order, k, Node(c, head));
    ConsLinks(ns, head, order, k, c);
  }

  lemma ConsLinks(ns: seq<Node>, head: int, order: seq<nat>, k: nat, c: Char)
    requires Linked(ns, head, order) && k < POOL && Distinct([k] + order)
    requires forall i :: 0 <= i < |order| ==> order[i] != k
    ensures Linked(ns[k := Node(c, head)], k, [k] + order)
  {
    hide Distinct;
    var ms := ns[k := Node(c, head)];
    var o: seq<nat> := [k] + order;
    forall i | 0 <= i < |o|
      ensures o[i] < POOL && ms[o[i]].next == LinkAfter(o, i)
    {
      if i != 0 {
        assert o[i] == order[i - 1];
        assert ns[order[i - 1]].next == LinkAfter(order, i - 1);
      }
    }
  }

  lemma ConsChars(ns: seq<Node>, order: seq<nat>, k: nat, n: Node)
    requires |ns| == POOL && k < POOL
    requires forall i :: 0 <= i < |order| ==> order[i] < POOL && order[i] != k
    ensures CharsOf(ns[k := n], [k] + order) == [n.c] + CharsOf(ns, order)
  {
    var o := [k] + order;
    assert forall i :: 0 < i < |o| ==> o[i] == order[i - 1];
  }

  lemma ConsExact(ns: seq<Node>, order: seq<nat>, k: nat, n: Node)
    requires |ns| == POOL && Exact(ns, order) && k < POOL
    ensures Exact(ns[k := n], [k] + order) <==> n.c.location != 0
  {
    var ms, o := ns[k := n], [k] + order;
    assert forall s: nat :: s in o <==> s == k || s in order;
    assert k in o && ms[k] == n;
  }

  /** The first slot that counts as free, or the size of the pool. */
  function FirstFree(ns: seq<Node>, from: nat): (k: nat)
    requires from <= |ns|
    ensures from <= k <= |ns| && (k < |ns| ==> ns[k].c.location == 0)
    ensures forall i :: from <= i < k ==> ns[i].c.location != 0
    decreases |ns| - from
  {
    if from < |ns| && ns[from].c.location != 0 then FirstFree(ns, from + 1) else from
  }

  lemma FirstFreeIs(ns: seq<Node>, k: nat)
    requires k <= |ns| && (k < |ns| ==> ns[k].c.location == 0) && forall i :: 0 <= i < k ==> ns[i].c.location != 0
    ensures FirstFree(ns, 0) == k
  {
    var f := FirstFree(ns, 0);
    assert f < |ns| ==> ns[f].c.location == 0;
  }

  /** After an add at location 0 the next add takes the same slot and links it to itself: from the head
      on there is a cycle, and no list. */
  lemma AddAtZeroThenAdd(ns: seq<Node>, head: int, order: seq<nat>, c: Char, d: Char)
    requires Linked(ns, head, order) && c.location == 0 && FirstFree(ns, 0) < POOL
    ensures var k := FirstFree(ns, 0);
            var once := ns[k := Node(c, head)];
            var twice := once[k := Node(d, k)];
            && FirstFree(once, 0) == k && twice[k].next == k
            && forall o: seq<nat> :: !Linked(twice, k, o)
  {
    var k := FirstFree(ns, 0);
    var once := ns[k := Node(c, head)];
    FirstFreeIs(once, k);
    var twice := once[k := Node(d, k)];
    forall o: seq<nat>
      ensures !Linked(twice, k, o)
    {
      SelfLinkIsNoList(twice, k, o);
    }
  }

  lemma SelfLinkIsNoList(ns: seq<Node>, k: nat, o: seq<nat>)
    requires |ns| == POOL && k < POOL && ns[k].next == k
    ensures !Linked(ns, k, o)
  {
    assert o != [] && o[0] == k ==> LinkAfter(o, 0) == k ==> !Distinct(o);
  }

  /** The links lead from the head to place `i`, and no earlier one leads there. */
  lemma LinksTo(ns: seq<Node>, head: int, order: seq<nat>, i: nat)
    requires Linked(ns, head, order) && 0 < i < |order|
    ensures |ns| == POOL && head == order[0]
    ensures forall j :: 0 <= j < i ==> order[j] < POOL && ns[order[j]].next == order[j + 1]
    ensures forall j :: 0 <= j < i ==> order[j] != order[i]
  {
    forall j | 0 <= j < i
      ensures order[j] < POOL && ns[order[j]].next == order[j + 1]
    {
      assert ns[order[j]].next == LinkAfter(order, j);
    }
  }

  function Without(order: seq<nat>, i: nat): seq<nat>
    requires i < |order|
  {
    order[..i] + order[i + 1..]
  }

  /** The link that led to place `i` is bent past it, and the slot zeroed. */
  function Unlinked(ns: seq<Node>, order: seq<nat>, i: nat): seq<Node>
    requires |ns| == POOL && i < |order| && forall j :: 0 <= j < |order| ==> order[j] < POOL
  {
    var k := order[i];
    (if i == 0 then ns else ns[order[i - 1] := Node(ns[order[i - 1]].c, ns[k].next)])[k := FREE]
  }

  lemma InWithout(order: seq<nat>, i: nat, s: nat)
    requires i < |order| && Distinct(order)
    ensures s in Without(order, i) <==> s in order && s != order[i]
  {
    var o := Without(order, i);
    if s in order && s != order[i] {
      var j :| 0 <= j < |order| && order[j] == s;
      assert o[if j < i then j else j - 1] == s;
    }
    WithoutAt(order, i);
  }

  lemma WithoutAt(order: seq<nat>, i: nat)
    requires i < |order|
    ensures |Without(order, i)| == |order| - 1
    ensures forall j :: 0 <= j < |order| - 1 ==> Without(order, i)[j] == order[if j < i then j else j + 1]
    ensures Distinct(order) ==> Distinct(Without(order, i))
  {
  }

  /** What unlinking does to the slot of another place `p`. */
  lemma UnlinkedAt(ns: seq<Node>, head: int, order: seq<nat>, i: nat, p: nat)
    requires Linked(ns, head, order) && i < |order| && p < |order| && p != i
    ensures var n := Unlinked(ns, order, i)[order[p]];
            n.c == ns[order[p]].c && n.next == if p + 1 == i then LinkAfter(order, i) else LinkAfter(order, p)
  {
    assert order[p] != order[i];
    assert i != 0 && p != i - 1 ==> order[p] != order[i - 1];
    assert ns[order[p]].next == LinkAfter(order, p) && ns[order[i]].next == LinkAfter(order, i);
  }

  lemma RemoveLinks(ns: seq<Node>, head: int, order: seq<nat>, i: nat)
    requires Linked(ns, head, order) && i < |order|
    ensures Linked(Unlinked(ns, order, i), if i == 0 then LinkAfter(order, 0) else head, Without(order, i))
    ensures CharsOf(Unlinked(ns, order, i), Without(order, i)) == CharsOf(ns, order)[..i] + CharsOf(ns, order)[i + 1..]
  {
    var ms, o := Unlinked(ns, order, i), Without(order, i);
    assert |ms| == POOL;
    WithoutAt(order, i);
    forall j | 0 <= j < |o|
      ensures o[j] < POOL && ms[o[j]].next == LinkAfter(o, j) && ms[o[j]].c == ns[o[j]].c
    {
      UnlinkedAt(ns, head, order, i, if j < i then j else j + 1);
    }
    hide Unlinked, Without, Distinct;
    DroppedIs(CharsOf(ns, order), CharsOf(ms, o), i);
  }

  lemma DroppedIs(cs: seq<Char>, ds: seq<Char>, i: nat)
    requires i < |cs| == |ds| + 1 && forall j :: 0 <= j < |ds| ==> ds[j] == cs[if j < i then j else j + 1]
    ensures ds == cs[..i] + cs[i + 1..]
  {
  }

  lemma RemoveExact(ns: seq<Node>, order: seq<nat>, i: nat)
    requires |ns| == POOL && Exact(ns, order) && i < |order| && Distinct(order)
    requires forall j :: 0 <= j < |order| ==> order[j] < POOL
    ensures Exact(Unlinked(ns, order, i), Without(order, i))
  {
    forall s: nat | s < POOL
      ensures s in Without(order, i) <==> Unlinked(ns, order, i)[s].c.location != 0
    {
      InWithout(order, i, s);
      hide Without, Distinct;
      assert order[i] in order;
    }
  }

  /** A slot of the list whose character changes, but not its location. */
  lemma ChangeLinks(ns: seq<Node>, head: int, order: seq<nat>, i: nat, c: Char)
    requires Linked(ns, head, order) && Exact(ns, order) && i < |order| && c.location == ns[order[i]].c.location
    ensures var ms := ns[order[i] := Node(c, ns[order[i]].next)];
            && Linked(ms, head, order) && Exact(ms, order)
            && CharsOf(ms, order) == CharsOf(ns, order)[i := c]
  {
    assert forall j :: 0 <= j < |order| && j != i ==> order[j] != order[i];
  }

  // ---- The list in place ----

  class List {
    const nodes: array<Node>
    var head: int
    ghost var order: seq<nat>   // the slots in list order

    ghost predicate Valid()
      reads this, nodes
    {
      Linked(nodes[..], head, order) && Exact(nodes[..], order)
    }

    ghost function Chars(): (cs: seq<Char>)
      requires Linked(nodes[..], head, order)
      reads this, nodes
    {
      CharsOf(nodes[..], order)
    }

    constructor ()
      ensures Valid() && Chars() == [] && fresh(nodes)
    {
      nodes := new Node[POOL](_ => FREE);
      head, order := NULL, [];
    }

    /** mp1_malloc: the first slot whose location is 0. */
    method Malloc() returns (k: int)
      requires nodes.Length == POOL
      ensures k == if FirstFree(nodes[..], 0) < POOL then FirstFree(nodes[..], 0) else NULL
      ensures k == NULL <==> forall i :: 0 <= i < POOL ==> nodes[i].c.location != 0
    {
      k := 0;
      while k < POOL
        invariant 0 <= k <= POOL && forall i :: 0 <= i < k ==> nodes[i].c.location != 0
      {
        if nodes[k].c.location == 0 {
          FirstFreeIs(nodes[..], k);
          return;
        }
        k := k + 1;
      }
      FirstFreeIs(nodes[..], k);
      k := NULL;
    }

    /** mp1_ioctl_add: a character that lies on the screen is started and put in front, if a slot is
        free. A character at location 0 is linked in a slot that still counts as free. */
    method Add(c: Char) returns (r: int)
      requires Valid()
      modifies this, nodes
      ensures r == 0 || r == -1
      ensures r == -1 <==> c.location >= POOL || forall i :: 0 <= i < POOL ==> old(nodes[i].c.location) != 0
      ensures r == -1 ==> Valid() && Chars() == old(Chars()) && order == old(order)
      ensures r == 0 ==> Linked(nodes[..], head, order) && Chars() == [Started(c)] + old(Chars())
      ensures r == 0 ==> order != [] && order[1..] == old(order) && order[0] !in old(order)
      ensures r == 0 ==> order[0] == FirstFree(old(nodes[..]), 0)
      ensures Valid() <==> r == -1 || c.location != 0
    {
      if POOL <= c.location {
        return -1;
      }
      var k := Malloc();
      if k == NULL {
        return -1;
      }
      AddLinks(nodes[..], head, order, k, Started(c));
      hide Linked, Exact, CharsOf;
      ghost var ns := nodes[..];
      nodes[k] := Node(Started(c), head);
      assert nodes[..] == ns[k := Node(Started(c), head)];
      head := k;
      order := [k] + order;
      r := 0;
    }

    /** mp1_find_helper: the slot of the first character at the location. */
    method FindHelper(loc: Half) returns (k: int, ghost i: nat)
      requires Linked(nodes[..], head, order)
      ensures i == FirstAt(Chars(), loc)
      ensures k == if FirstAt(Chars(), loc) < |order| then order[FirstAt(Chars(), loc)] else NULL
    {
      k, i := head, 0;
      while k != NULL
        invariant i <= |order| && k == (if i < |order| then order[i] else NULL)
        invariant forall j :: 0 <= j < i ==> Chars()[j].location != loc
        decreases |order| - i
      {
        assert nodes[..][order[i]].next == LinkAfter(order, i);
        if nodes[k].c.location == loc {
          FirstAtIs(Chars(), loc, i);
          return;
        }
        k, i := nodes[k].next, i + 1;
      }
      FirstAtIs(Chars(), loc, i);
    }

    /** mp1_ioctl_find */
    method Find(loc: Half) returns (r: int, c: Char)
      requires Linked(nodes[..], head, order)
      ensures r == 0 <==> FirstAt(Chars(), loc) < |Chars()|
      ensures r == 0 ==> c == Chars()[FirstAt(Chars(), loc)]
      ensures r == 0 || r == -1
    {
      var k, i := FindHelper(loc);
      if k == NULL {
        return -1, FREE.c;
      }
      return 0, nodes[k].c;
    }

    /** The walk from the head to the link that points to `k`. */
    method FindPrev(k: nat, ghost i: nat) returns (prev: nat)
      requires Linked(nodes[..], head, order) && 0 < i < |order| && k == order[i]
      ensures prev == order[i - 1]
    {
      ghost var j := 0;
      ghost var ns := nodes[..];
      LinksTo(ns, head, order, i);
      hide Linked;
      prev := head;
      while nodes[prev].next != k
        invariant 0 <= j < i && prev == order[j] && ns == nodes[..]
        decreases i - j
      {
        prev, j := nodes[prev].next, j + 1;
      }
    }

    /** The link to place `i` is bent past it and its slot zeroed. */
    method Unlink(k: nat, ghost i: nat)
      requires Linked(nodes[..], head, order) && i < |order| && k == order[i]
      modifies this`head, nodes
      ensures nodes[..] == Unlinked(old(nodes[..]), order, i)
      ensures head == if i == 0 then LinkAfter(order, 0) else old(head)
    {
      ghost var ns := nodes[..];
      assert ns[k].next == LinkAfter(order, i);
      assert i != 0 ==> order[0] != order[i];
      if head == k {
        head := nodes[k].next;
      } else {
        var prev := FindPrev(k, i);
        nodes[prev] := nodes[prev].(next := nodes[k].next);
      }
      nodes[k] := FREE;
    }

    /** mp1_ioctl_remove: the first character at the location is unlinked and its slot zeroed. */
    method Remove(loc: Half) returns (r: int)
      requires Valid()
      modifies this, nodes
      ensures Valid() && Chars() == RemoveSpec(old(Chars()), loc)
      ensures r == if FirstAt(old(Chars()), loc) < |old(Chars())| then 0 else -1
    {
      hide FirstAt, Unlinked, Without;
      var k, i := FindHelper(loc);
      if k == NULL {
        return -1;
      }
      RemoveLinks(nodes[..], head, order, i);
      RemoveExact(nodes[..], order, i);
      hide Linked, Exact, CharsOf;
      Unlink(k, i);
      order := Without(order, i);
      r := 0;
    }

    /** mp1_ioctl_sync */
    method Sync(from: Half, to: Half) returns (r: int)
      requires Valid()
      modifies nodes
      ensures Valid() && Chars() == SyncSpec(old(Chars()), from, to)
      ensures var cs := old(Chars());
              r == if FirstAt(cs, from) < |cs| && FirstAt(cs, to) < |cs| then 0 else -1
    {
      var a, i := FindHelper(from);
      if a == NULL {
        return -1;
      }
      var b, j := FindHelper(to);
      if b == NULL {
        return -1;
      }
      ghost var ns := nodes[..];
      var c := Synced(nodes[a].c, nodes[b].c);
      ChangeLinks(ns, head, order, j, c);
      nodes[b] := nodes[b].(c := c);
      assert nodes[..] == ns[b := Node(c, ns[b].next)];
      r := 0;
    }

    /** One turn of the tasklet's loop: the character is ticked, and the walk goes on behind it. */
    method TickNode(k: nat, ghost i: nat) returns (next: int)
      requires Valid() && i < |order| && k == order[i]
      modifies nodes
      ensures Valid() && Chars() == old(Chars())[i := Tick(old(Chars())[i])]
      ensures next == LinkAfter(order, i)
    {
      ghost var ns := nodes[..];
      assert ns[k].next == LinkAfter(order, i);
      var c := Tick(nodes[k].c);
      ChangeLinks(ns, head, order, i, c);
      nodes[k] := nodes[k].(c := c);
      assert nodes[..] == ns[k := Node(c, ns[k].next)];
      next := nodes[k].next;
    }

    /** mp1_rtc_tasklet: every character of the list is ticked once. */
    method Tasklet()
      requires Valid()
      modifies nodes
      ensures Valid() && Chars() == TickSpec(old(Chars()))
    {
      ghost var cs := Chars();
      assert |cs| == |order| && head == (if order == [] then NULL else order[0]);
      hide Linked, Exact, CharsOf, Tick, TickSpec;
      var k := head;
      ghost var i := 0;
      while k != NULL
        invariant Valid() && 0 <= i <= |order| && k == (if i < |order| then order[i] else NULL)
        invariant |Chars()| == |cs|
        invariant forall j :: 0 <= j < i ==> Chars()[j] == Tick(cs[j])
        invariant forall j :: i <= j < |order| ==> Chars()[j] == cs[j]
        decreases |order| - i
      {
        k := TickNode(k, i);
        i := i + 1;
      }
      TickSpecIs(cs, Chars());
    }
  }
}
