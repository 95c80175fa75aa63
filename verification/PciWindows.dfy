/** Address windows for PCI buses: one pointer that only descends, and a walk over
    the bus tree that leaves every window inside its parent's. */
module PciWindows {
  import opened Bits

  // ------------------------------------------------------------------ alignment

  /** base &= ~(m - 1), m a power of two. */
  function AlignDown(base: int, m: nat): int
    requires m > 0
  {
    base - base % m
  }

  lemma {:induction false} AlignDownIs(base: int, m: nat)
    requires m > 0
    ensures AlignDown(base, m) <= base < AlignDown(base, m) + m && AlignDown(base, m) % m == 0
  {
    var q := base / m;
    assert base == q * m + base % m;
    MulMod(q, m);
  }

  lemma {:induction false} MulMod(q: int, m: nat)
    requires m > 0
    ensures q * m % m == 0
  {
    if q >= 0 {
      DivModUnique(q * m, m, q, 0);
    } else {
      var r := q * m % m;
      assert q * m == q * m / m * m + r;
      assert r == (q - q * m / m) * m;
      MulLess(0, q - q * m / m, m);
      MulLess(q - q * m / m, 1, m);
      MulLess(q - q * m / m, 0, m);
    }
  }

  /** A multiple of a larger power of two is one of a smaller. */
  lemma {:induction false} MultipleOfLess(a: int, j: nat, k: nat)
    requires j <= k && a % Pow2(k) == 0
    ensures a % Pow2(j) == 0
  {
    hide Pow2;
    Pow2Add(k - j, j);
    var q, m, p := a / Pow2(k), Pow2(k - j), Pow2(j);
    assert a == q * (m * p) == (q * m) * p;
    MulMod(q * m, p);
  }

  lemma {:induction false} MultipleMinus(a: int, m: nat)
    requires m > 0 && a % m == 0
    ensures (a - m) % m == 0
  {
    var q := a / m;
    assert a == q * m && a - m == (q - 1) * m;
    MulMod(q - 1, m);
  }

  /** (size - 1) | mask, for powers of two, is the larger of the two less one. */
  lemma {:induction false} OrMasks(j: nat, k: nat)
    ensures Or(Pow2(j) - 1, Pow2(k) - 1) == Pow2(Larger(j, k)) - 1
  {
    hide Or;
    if j == 0 || k == 0 {
      OrZero(Pow2(j) - 1);
      OrZero(Pow2(k) - 1);
    } else {
      OrMasks(j - 1, k - 1);
      OrOdd(Pow2(j - 1) - 1, Pow2(k - 1) - 1);
    }
  }

  function Larger(j: nat, k: nat): nat {
    if j > k then j else k
  }

  lemma {:induction false} OrZero(a: nat)
    ensures Or(a, 0) == a && Or(0, a) == a
  {
    if a > 0 { OrZero(a / 2); }
  }

  lemma {:induction false} OrOdd(a: nat, b: nat)
    ensures Or(2 * a + 1, 2 * b + 1) == 2 * Or(a, b) + 1
  {
  }

  // -------------------------------------------------------------------- roundup2

  /** The power of two that a size is rounded up to. */
  function Order(n: nat): (k: nat)
    requires n > 0
    ensures n <= Pow2(k) && (k > 0 ==> Pow2(k - 1) < n)
  {
    if n == 1 then 0 else Order((n + 1) / 2) + 1
  }

  lemma {:induction false} OrderUnique(n: nat, k: nat)
    requires n > 0 && n <= Pow2(k) && (k > 0 ==> Pow2(k - 1) < n)
    ensures Order(n) == k
    decreases n
  {
    if n > 1 {
      assert k > 0;
      if k > 1 { assert Pow2(k - 1) == 2 * Pow2(k - 2); }
      OrderUnique((n + 1) / 2, k - 1);
    }
  }

  /** roundup2: the bit count, unless only the top bit is set. */
  method Roundup2(num: nat) returns (r: nat)
    requires num > 0
    ensures r == Pow2(Order(num))
  {
    var aligned, shifts, n := 0, 0, num;
    RoundStart(num);
    while n != 0
      invariant shifts >= 0 && aligned >= 0 && n == num / Pow2(shifts)
      invariant aligned == 0 <==> num % Pow2(shifts) == 0 || (n == 0 && num % Pow2(shifts) == Pow2(shifts) / 2)
      invariant n == 0 ==> shifts > 0 && num >= Pow2(shifts - 1)
      decreases n
    {
      RoundStep(num, shifts, n);
      if n % 2 == 1 && n > 1 {
        aligned := aligned + 1;
      }
      n := n / 2;
      shifts := shifts + 1;
    }
    RoundEnd(num, shifts);
    r := if aligned != 0 then Pow2(shifts) else num;
  }

  lemma {:induction false} RoundStart(num: nat)
    ensures num / Pow2(0) == num && num % Pow2(0) == 0
  {
  }

  /** One more bit shifted out. */
  lemma {:induction false} RoundStep(num: nat, k: nat, n: nat)
    requires n == num / Pow2(k) && n > 0
    ensures num / Pow2(k + 1) == n / 2 && Pow2(k + 1) / 2 == Pow2(k) && num >= Pow2(k)
    ensures num % Pow2(k + 1) == n % 2 * Pow2(k) + num % Pow2(k)
    ensures n % 2 * Pow2(k) == (if n % 2 == 1 then Pow2(k) else 0)
  {
    assert Pow2(k + 1) == 2 * Pow2(k);
    hide Pow2;
    var p := Pow2(k);
    assert num == n * p + num % p;
    assert n == 2 * (n / 2) + n % 2;
    assert n * p == n / 2 * (2 * p) + n % 2 * p by {
      assert (2 * (n / 2) + n % 2) * p == 2 * (n / 2) * p + n % 2 * p;
      assert 2 * (n / 2) * p == n / 2 * (2 * p);
    }
    BitProduct(n % 2, p);
    DivModUnique(num, 2 * p, n / 2, n % 2 * p + num % p);
    MulLess(0, n, p);
  }

  lemma {:induction false} BitProduct(b: nat, p: nat)
    requires b < 2
    ensures b * p == if b == 1 then p else 0
  {
  }

  lemma {:induction false} RoundEnd(num: nat, k: nat)
    requires num > 0 && num / Pow2(k) == 0 && k > 0 && num >= Pow2(k - 1)
    ensures num % Pow2(k) == num && num < Pow2(k) && Pow2(k) / 2 == Pow2(k - 1)
    ensures num == Pow2(k - 1) ==> Order(num) == k - 1
    ensures num > Pow2(k - 1) ==> Order(num) == k
  {
    var p := Pow2(k);
    assert num == num / p * p + num % p;
    if num == Pow2(k - 1) {
      if k > 1 { assert Pow2(k - 1) == 2 * Pow2(k - 2); }
      OrderUnique(num, k - 1);
    } else {
      OrderUnique(num, k);
    }
  }

  // ------------------------------------------------------------------- clearing

  /** C's `a & ~b`. */
  function AndNot(a: nat, b: nat): nat
  {
    if a == 0 then 0 else 2 * AndNot(a / 2, b / 2) + (if b % 2 == 0 then a % 2 else 0)
  }

  /** Clearing the low k bits rounds down to a multiple of 2^k. */
  lemma {:induction false} AndNotMask(a: nat, k: nat)
    ensures AndNot(a, Pow2(k) - 1) == AlignDown(a, Pow2(k))
    decreases k
  {
    hide AndNot, AlignDown;
    if k == 0 {
      AndNotZero(a);
      AlignDownOne(a);
    } else {
      var m := Pow2(k - 1);
      AndNotOdd(a, m - 1);
      AndNotMask(a / 2, k - 1);
      AlignDownHalf(a, m);
    }
  }

  lemma {:induction false} AndNotZero(a: nat)
    ensures AndNot(a, 0) == a
  {
    if a > 0 { AndNotZero(a / 2); }
  }

  lemma {:induction false} AlignDownOne(a: nat)
    ensures AlignDown(a, 1) == a
  {
  }

  lemma {:induction false} AndNotOdd(a: nat, b: nat)
    ensures AndNot(a, 2 * b + 1) == 2 * AndNot(a / 2, b)
  {
  }

  lemma {:induction false} AlignDownHalf(a: nat, m: nat)
    requires m > 0
    ensures AlignDown(a, 2 * m) == 2 * AlignDown(a / 2, m)
  {
    HalfMod(a, m);
  }

  // ---------------------------------------------------------------- one block

  /** The block for `want` bytes below `top`: aligned to its rounded size, and not
      further down than the two roundings explain. */
  ghost predicate Fits(want: nat, addr: int, top: int, order: nat)
    requires want > 0
  {
    && 0 < addr
    && addr % Pow2(Order(want)) == 0
    && addr + want <= addr + Pow2(Order(want)) <= top
    && top - addr <= Cost(want, order)
  }

  function Cost(want: nat, order: nat): nat {
    if want == 0 then 0 else 2 * Pow2(Larger(Order(want), order))
  }

  lemma {:induction false} TakeFits(want: nat, order: nat, top: nat, low: nat)
    requires 0 < want && low == AlignDown(top, Pow2(Larger(Order(want), order)))
    ensures low > Pow2(Order(want)) ==> Fits(want, low - Pow2(Order(want)), top, order)
    ensures top > Cost(want, order) ==> low > Pow2(Order(want))
    ensures low <= top
  {
    var k := Order(want);
    var s, m := Pow2(k), Pow2(Larger(k, order));
    AlignDownIs(top, m);
    MultipleOfLess(low, k, Larger(k, order));
    MultipleMinus(low, s);
    Pow2Grows(k, Larger(k, order));
  }

  lemma {:induction false} Pow2Grows(j: nat, k: nat)
    requires j <= k
    ensures Pow2(j) <= Pow2(k)
  {
    if j < k { Pow2Grows(j, k - 1); }
  }

  /** A block of at most 2^31 bytes is still one after rounding. */
  lemma {:induction false} OrderSmall(want: nat)
    requires 0 < want <= Pow2(31)
    ensures want <= Pow2(Order(want)) <= Pow2(32)
  {
    var k := Order(want);
    hide Pow2, Order;
    if k > 32 {
      Pow2Grows(31, k - 1);
      assert false;
    }
    Pow2Grows(k, 32);
  }

  // --------------------------------------------------------------------- region

  /** One kind of address space, handed out from the top down. */
  class Region {
    var base: nat
    var size: nat
    const mask: nat
    ghost const order: nat
    /** Set once the space has run out: 32-bit arithmetic would wrap, or give the
        address 0, which the callers take for a failure. */
    ghost var short: bool

    ghost predicate Valid()
      reads this
    {
      && mask == Pow2(order) - 1 && order <= 8
      && base < Pow2(32)
      && (!short ==> base > 0)
    }

    constructor (align: nat, top: nat, ghost k: nat)
      requires align == Pow2(k) - 1 && k <= 8 && top < Pow2(32)
      ensures Valid() && base == top && size == 0 && mask == align && order == k && short == (top == 0)
    {
      base, size, mask, order, short := top, 0, align, k, top == 0;
    }

    /** region_allocate: a block of the rounded size, aligned to it. */
    method Take(want: nat) returns (addr: nat)
      requires Valid() && want <= Pow2(31)
      modifies this
      ensures Valid() && (old(short) ==> short)
      ensures want == 0 ==> base == old(base) && size == old(size) == addr && short == old(short)
      ensures want > 0 ==> addr == base && size == (old(size) + Pow2(Order(want))) % Pow2(32)
      ensures want > 0 && !short ==> base == AlignDown(old(base), Pow2(Larger(Order(want), order))) - Pow2(Order(want))
      ensures want > 0 && !short ==> Fits(want, base, old(base), order)
      ensures want > 0 && !old(short) && old(base) > Cost(want, order) ==> !short
    {
      hide Pow2, Order, Or, AndNot, AlignDown, Cost, Fits, Larger;
      if want == 0 {
        return size;
      }
      var s := Roundup2(want);
      ghost var k := Order(want);
      OrderSmall(want);
      OrMasks(k, order);
      AndNotMask(base, Larger(k, order));
      var low := AndNot(base, Or(s - 1, mask));
      TakeFits(want, order, base, low);
      short := short || low <= s;
      base := if low < s then low + Pow2(32) - s else low - s;
      size := (size + s) % Pow2(32);
      addr := base;
    }

    /** region_align. */
    method Align(m: nat, ghost k: nat) returns (b: nat)
      requires Valid() && m == Pow2(k) - 1
      modifies this
      ensures Valid() && b == base && (old(short) ==> short)
      ensures base == AlignDown(old(base), Pow2(k))
      ensures !short ==> base > 0
      ensures Spent(old(short), old(base), short, base, Pow2(k))
    {
      AndNotMask(base, k);
      AlignDownIs(base, Pow2(k));
      base := AndNot(base, m);
      short := short || base == 0;
      b := base;
    }
  }

  // ------------------------------------------------------------------- bus tree

  datatype Kind = IO | MMIO | PMMIO

  /** What sits above a bus: the host bridge, a PCI-PCI bridge, or a host bridge
      whose ranges are fixed. */
  datatype Above = Host | Bridge | Fixed

  /** A base address register's needs, and a bus with the links of its record: the
      next peer, the first child, and the registers of its devices in order. */
  datatype Want = Want(kind: Kind, size: nat)
  datatype Bus = NoBus | Bus(peer: Bus, kids: Bus, above: Above, wants: seq<Want>)

  /** What the allocation writes: each register's first and last address, and each
      bus's window, which is closed when its size is 0. */
  datatype Slot = Unused | At(base: int, limit: int)
  datatype Placed = Nowhere |
    Placed(peer: Placed, kids: Placed, above: Above, slots: seq<Slot>, base: int, limit: int, size: int)

  function DevOrder(kind: Kind): nat { if kind == IO then 2 else 4 }
  function BusOrder(kind: Kind): nat { if kind == IO then 2 else 16 }
  function BridgeOrder(kind: Kind): nat { if kind == IO then 12 else 20 }

  function DevMask(kind: Kind): nat { if kind == IO then 0x3 else 0xf }
  function BusMask(kind: Kind): nat { if kind == IO then 0x3 else 0xffff }
  function BridgeMask(kind: Kind): nat { if kind == IO then 0xfff else 0xfffff }

  lemma {:induction false} Masks(kind: Kind)
    ensures DevMask(kind) == Pow2(DevOrder(kind)) - 1
    ensures BusMask(kind) == Pow2(BusOrder(kind)) - 1
    ensures BridgeMask(kind) == Pow2(BridgeOrder(kind)) - 1
  {
    Pow2Values();
    assert Pow2(12) == 4096 by { Pow2Add(4, 8); }
  }

  lemma {:induction false} RangeFacts(above: Above, kind: Kind, base: int)
    ensures BusMask(kind) == Pow2(BusOrder(kind)) - 1 && BridgeMask(kind) == Pow2(BridgeOrder(kind)) - 1
    ensures var m := Pow2(RangeOrder(above, kind));
      AlignDown(base, m) <= base && AlignDown(base, m) % m == 0 && (above == Fixed ==> base % m == 0 && AlignDown(base, m) == base)
  {
    Masks(kind);
    AlignDownIs(base, Pow2(RangeOrder(above, kind)));
  }

  lemma {:induction false} AllMasks()
    ensures forall k: Kind :: DevMask(k) == Pow2(DevOrder(k)) - 1 && DevOrder(k) <= 8
  {
    forall k: Kind ensures DevMask(k) == Pow2(DevOrder(k)) - 1 {
      Masks(k);
    }
  }

  /** Every register's size is one a 32-bit block can hold. */
  ghost predicate Sane(b: Bus) {
    b.Bus? ==>
      && (forall i :: 0 <= i < |b.wants| ==> b.wants[i].size <= Pow2(31))
      && Sane(b.peer) && Sane(b.kids)
  }

  predicate HasBridge(b: Bus) {
    b.Bus? && (b.above == Bridge || HasBridge(b.peer) || HasBridge(b.kids))
  }

  predicate Served(w: Want, s: Slot, kind: Kind) {
    if w.kind != kind then s == Unused
    else
      && s.At? && (w.size > 0 ==> s.limit == s.base + w.size - 1 && s.base % Pow2(Order(w.size)) == 0)
  }

  predicate AllServed(wants: seq<Want>, slots: seq<Slot>, kind: Kind) {
    |slots| == |wants| && forall i :: 0 <= i < |wants| ==> Served(wants[i], slots[i], kind)
  }

  /** Every register of the kind has an aligned block of its size, bus by bus. */
  predicate Serves(b: Bus, p: Placed, kind: Kind) {
    match b
    case NoBus => p.Nowhere?
    case Bus(peer, kids, above, wants) =>
      && p.Placed? && p.above == above && AllServed(wants, p.slots, kind)
      && Serves(peer, p.peer, kind) && Serves(kids, p.kids, kind)
  }

  /** The lowest address taken by a chain of peers allocated below `top`. */
  function Bottom(p: Placed, top: int): int {
    if p.Placed? then p.base else top
  }

  /** Two registers that hold addresses hold different ones. */
  predicate Apart(s: Slot, t: Slot) {
    s.At? && t.At? && s.base <= s.limit && t.base <= t.limit ==> s.limit < t.base || t.limit < s.base
  }

  predicate Inside(s: Slot, lo: int, hi: int) {
    s.At? && s.base <= s.limit ==> lo <= s.base && s.limit < hi
  }

  predicate AllInside(s: seq<Slot>, lo: int, hi: int) {
    forall i :: 0 <= i < |s| ==> Inside(s[i], lo, hi)
  }

  predicate AllApart(s: seq<Slot>) {
    forall i, j :: 0 <= i < j < |s| ==> Apart(s[i], s[j])
  }

  /** One bus's window between `lo` and `hi`: its children on top, its own registers
      below them, and the window ends where the bridge above can end it. */
  predicate Stacked(p: Placed, kind: Kind, hi: int)
    requires p.Placed?
  {
    && 0 < p.base <= p.limit + 1 <= hi
    && (p.limit + 1) % Pow2(BusOrder(kind)) == 0
    && AllInside(p.slots, p.base, Bottom(p.kids, p.limit + 1)) && AllApart(p.slots)
    && p.base <= Bottom(p.kids, p.limit + 1)
    && p.size == (if p.limit > p.base then p.limit - p.base + 1 else 0)
    && (p.size > 0 ==> p.base % Pow2(RangeOrder(p.above, kind)) == 0)
  }

  function RangeOrder(above: Above, kind: Kind): nat {
    match above
    case Host => BusOrder(kind)
    case Bridge => BridgeOrder(kind)
    case Fixed => 0
  }

  /** Windows nest: peers are stacked downward from `top`, children inside. */
  predicate Nested(p: Placed, kind: Kind, top: int) {
    p.Placed? ==>
      && Nested(p.peer, kind, top)
      && Stacked(p, kind, Bottom(p.peer, top))
      && Nested(p.kids, kind, p.limit + 1)
  }

  lemma {:induction false} BottomBelow(p: Placed, kind: Kind, top: int)
    requires Nested(p, kind, top)
    ensures Bottom(p, top) <= top
  {
    if p.Placed? { BottomBelow(p.peer, kind, top); }
  }

  /** An upper bound on the address space a tree takes. */
  function Demand(b: Bus, kind: Kind): nat {
    match b
    case NoBus => 0
    case Bus(peer, kids, above, wants) =>
      Demand(peer, kind) + Demand(kids, kind) + WantSum(wants, kind)
        + Pow2(BusOrder(kind)) + Pow2(RangeOrder(above, kind))
  }

  function WantSum(wants: seq<Want>, kind: Kind): nat {
    if wants == [] then 0
    else WantSum(wants[..|wants| - 1], kind) + WantCost(wants[|wants| - 1], kind)
  }

  function WantCost(w: Want, kind: Kind): nat {
    if w.kind == kind then Cost(w.size, DevOrder(kind)) else 0
  }

  /** Registers placed downward from `top` to `bottom`. */
  predicate Row(s: seq<Slot>, bottom: int, top: int) {
    0 < bottom <= top && AllInside(s, bottom, top) && AllApart(s)
  }

  lemma {:induction false} RowIs(s: seq<Slot>, bottom: int, top: int, lower: int)
    requires Row(s, bottom, top) && lower <= bottom
    ensures AllInside(s, lower, top) && AllApart(s) && lower <= top
  {
    forall i | 0 <= i < |s| ensures Inside(s[i], lower, top) {
      assert Inside(s[i], bottom, top);
    }
  }

  lemma {:induction false} RowNone(top: int, kind: Kind)
    ensures top > 0 ==> Row([], top, top)
    ensures AllServed([], [], kind)
  {
  }

  lemma {:induction false} RowMore(ws: seq<Want>, s: seq<Slot>, t: Slot, w: Want, kind: Kind,
                                   bottom: int, was: int, top: int)
    requires Row(s, was, top) && 0 < bottom <= was && Inside(t, bottom, was)
    requires AllServed(ws, s, kind) && Served(w, t, kind)
    ensures Row(s + [t], bottom, top) && AllServed(ws + [w], s + [t], kind)
  {
    hide Served;
    forall i | 0 <= i < |s| ensures Apart(s[i], t) && Inside(s[i], bottom, top) {
      assert Inside(s[i], was, top);
    }
  }

  /** If more than `cost` was left, no more than that was spent. */
  predicate Spent(wasShort: bool, was: int, short: bool, now: int, cost: nat) {
    !wasShort && was > cost ==> !short && was - now <= cost
  }

  lemma {:induction false} SpentNothing(short: bool, now: int)
    ensures Spent(short, now, short, now, 0)
  {
  }

  lemma {:induction false} SpentIs(wasShort: bool, was: int, short: bool, now: int, cost: nat)
    requires Spent(wasShort, was, short, now, cost) && !wasShort
    ensures was > cost ==> !short && was - now <= cost
  {
  }

  lemma {:induction false} SpentMore(short0: bool, at0: int, short1: bool, at1: int, short2: bool, at2: int, c: nat, d: nat)
    requires Spent(short0, at0, short1, at1, c) && Spent(short1, at1, short2, at2, d)
    ensures Spent(short0, at0, short2, at2, c + d)
  {
  }

  /** What the walk needs to know of the bus it is on. */
  lemma {:induction false} BusFacts(b: Bus, kind: Kind)
    requires b.Bus? && Sane(b)
    ensures Sane(b.peer) && Sane(b.kids) && forall i :: 0 <= i < |b.wants| ==> b.wants[i].size <= Pow2(31)
    ensures HasBridge(b) == (b.above == Bridge || HasBridge(b.peer) || HasBridge(b.kids))
    ensures BusMask(kind) == Pow2(BusOrder(kind)) - 1
  {
    Masks(kind);
  }

  /** A chain of peers, or none, placed from `top` down to `bottom`. */
  predicate Chained(b: Bus, p: Placed, kind: Kind, top: int, bottom: int) {
    Serves(b, p, kind) && Nested(p, kind, top) && bottom == Bottom(p, top)
  }

  lemma {:induction false} EmptyFacts(b: Bus, kind: Kind, short: bool, top: int)
    ensures b.NoBus? ==>
      Chained(b, Nowhere, kind, top, top) && !HasBridge(b) && Spent(short, top, short, top, Demand(b, kind))
  {
  }

  lemma {:induction false} SpentByBus(b: Bus, kind: Kind, short0: bool, at0: int, short1: bool, at1: int,
                                      short2: bool, at2: int, short3: bool, at3: int,
                                      short4: bool, at4: int, short5: bool, at5: int)
    requires b.Bus?
    requires Spent(short0, at0, short1, at1, Demand(b.peer, kind))
    requires Spent(short1, at1, short2, at2, Pow2(BusOrder(kind)))
    requires Spent(short2, at2, short3, at3, Demand(b.kids, kind))
    requires Spent(short3, at3, short4, at4, WantSum(b.wants, kind))
    requires Spent(short4, at4, short5, at5, Pow2(RangeOrder(b.above, kind)))
    ensures Spent(short0, at0, short5, at5, Demand(b, kind))
  {
    hide Pow2, WantSum;
  }

  /** One bus set down below its peers and around its children. */
  lemma {:induction false} PlacedWell(b: Bus, p: Placed, kind: Kind, top: int, hi: int, low: int, shelf: int, low4: int)
    requires b.Bus? && p.Placed? && p.above == b.above
    requires Chained(b.peer, p.peer, kind, top, hi)
    requires 0 < low <= hi && low % Pow2(BusOrder(kind)) == 0 && p.limit == low - 1
    requires Chained(b.kids, p.kids, kind, low, shelf)
    requires AllServed(b.wants, p.slots, kind) && Row(p.slots, low4, shelf)
    requires 0 < p.base <= low4
    requires p.size == if p.limit > p.base then p.limit - p.base + 1 else 0
    requires p.size > 0 ==> p.base % Pow2(RangeOrder(p.above, kind)) == 0
    ensures Chained(b, p, kind, top, p.base)
  {
    hide Served, Row, Pow2, AllInside, AllApart;
    BottomBelow(p.kids, kind, low);
    RowIs(p.slots, low4, shelf, p.base);
  }

  // ----------------------------------------------------------- what nesting means

  /** Every register's block in a tree. */
  function AllSlots(p: Placed): seq<Slot> {
    match p
    case Nowhere => []
    case Placed(peer, kids, _, slots, _, _, _) => AllSlots(peer) + AllSlots(kids) + slots
  }

  /** Every bus of a tree, and the buses of one level. */
  function Buses(p: Placed): seq<Placed> {
    if p.Nowhere? then [] else Buses(p.peer) + Buses(p.kids) + [p]
  }

  function Peers(p: Placed): seq<Placed> {
    if p.Nowhere? then [] else [p] + Peers(p.peer)
  }

  lemma {:induction false} JoinRows(s: seq<Slot>, t: seq<Slot>, bottom: int, mid: int, top: int)
    requires AllInside(s, mid, top) && AllApart(s) && AllInside(t, bottom, mid) && AllApart(t) && bottom <= mid <= top
    ensures AllInside(s + t, bottom, top) && AllApart(s + t)
  {
    var u := s + t;
    forall i | 0 <= i < |u| ensures Inside(u[i], bottom, top) && (i < |s| ==> Inside(u[i], mid, top)) && (i >= |s| ==> Inside(u[i], bottom, mid)) {
      assert u[i] == if i < |s| then s[i] else t[i - |s|];
    }
    forall i, j | 0 <= i < j < |u| ensures Apart(u[i], u[j]) {
      assert u[i] == if i < |s| then s[i] else t[i - |s|];
      assert u[j] == if j < |s| then s[j] else t[j - |s|];
    }
  }

  /** No two registers of a nested tree share an address. */
  lemma {:induction false} SlotsApart(p: Placed, kind: Kind, top: int)
    requires Nested(p, kind, top)
    ensures AllApart(AllSlots(p)) && AllInside(AllSlots(p), Bottom(p, top), top) && Bottom(p, top) <= top
  {
    if p.Placed? {
      hide AllInside, AllApart;
      SlotsApart(p.peer, kind, top);
      SlotsApart(p.kids, kind, p.limit + 1);
      var shelf, hi := Bottom(p.kids, p.limit + 1), Bottom(p.peer, top);
      Loosen(AllSlots(p.kids), shelf, p.limit + 1, hi);
      JoinRows(AllSlots(p.peer), AllSlots(p.kids), shelf, hi, top);
      JoinRows(AllSlots(p.peer) + AllSlots(p.kids), p.slots, p.base, shelf, top);
    }
  }

  lemma {:induction false} Loosen(s: seq<Slot>, bottom: int, top: int, higher: int)
    requires AllInside(s, bottom, top) && top <= higher
    ensures AllInside(s, bottom, higher)
  {
    forall i | 0 <= i < |s| ensures Inside(s[i], bottom, higher) {
      assert Inside(s[i], bottom, top);
    }
  }

  /** A window holds its bus's registers, and all that is placed below the bus. */
  ghost predicate Holds(q: Placed) {
    q.Placed? ==>
      && AllInside(AllSlots(q.kids) + q.slots, q.base, q.limit + 1)
      && forall c :: c in Buses(q.kids) ==> c.Placed? && q.base <= c.base && c.limit <= q.limit
  }

  lemma {:induction false} WindowsNest(p: Placed, kind: Kind, top: int, q: Placed)
    requires Nested(p, kind, top) && q in Buses(p)
    ensures q.Placed? && Holds(q) && Bottom(p, top) <= q.base <= q.limit + 1 <= top
    decreases p, 1
  {
    BottomBelow(p.peer, kind, top);
    if q == p {
      WindowHolds(p, kind, Bottom(p.peer, top));
    } else if q in Buses(p.peer) {
      WindowsNest(p.peer, kind, top, q);
    } else {
      WindowsNest(p.kids, kind, p.limit + 1, q);
    }
  }

  lemma {:induction false} WindowHolds(p: Placed, kind: Kind, top: int)
    requires p.Placed? && Stacked(p, kind, top) && Nested(p.kids, kind, p.limit + 1)
    ensures Holds(p)
    decreases p, 0
  {
    hide AllInside, AllApart;
    SlotsApart(p.kids, kind, p.limit + 1);
    JoinRows(AllSlots(p.kids), p.slots, p.base, Bottom(p.kids, p.limit + 1), p.limit + 1);
    forall c | c in Buses(p.kids) ensures c.Placed? && p.base <= c.base && c.limit <= p.limit {
      WindowsNest(p.kids, kind, p.limit + 1, c);
    }
  }

  /** Peers lie one below the other, the first of the list lowest. */
  lemma {:induction false} PeersApart(p: Placed, kind: Kind, top: int, i: nat, j: nat)
    requires Nested(p, kind, top) && i < j < |Peers(p)|
    ensures Peers(p)[i].Placed? && Peers(p)[j].Placed? && Peers(p)[i].limit < Peers(p)[j].base
  {
    if i > 0 {
      PeersApart(p.peer, kind, top, i - 1, j - 1);
    } else {
      PeerAbove(p.peer, kind, top, j - 1);
    }
  }

  lemma {:induction false} PeerAbove(p: Placed, kind: Kind, top: int, j: nat)
    requires Nested(p, kind, top) && j < |Peers(p)|
    ensures p.Placed? && Peers(p)[j].Placed? && p.base <= Peers(p)[j].base
    ensures Stacked(Peers(p)[j], kind, if j + 1 < |Peers(p)| && Peers(p)[j + 1].Placed? then Peers(p)[j + 1].base else top)
  {
    if j > 0 { PeerAbove(p.peer, kind, top, j - 1); }
  }

  /** The first address past what a PCI-PCI bridge passes on: its limit register has
      no low bits, so the last granule is passed on whole. */
  function Decoded(limit: int, kind: Kind): int {
    AlignDown(limit, Pow2(BridgeOrder(kind))) + Pow2(BridgeOrder(kind))
  }

  /** Though limits are not kept at granule ends, no bridge passes on an address of
      a peer's open window. */
  lemma {:induction false} DecodedApart(p: Placed, kind: Kind, top: int, i: nat, j: nat)
    requires Nested(p, kind, top) && i < j < |Peers(p)|
    requires Peers(p)[j].Placed? && Peers(p)[j].above == Bridge && Peers(p)[j].size > 0
    ensures Peers(p)[i].Placed? && Decoded(Peers(p)[i].limit, kind) <= Peers(p)[j].base
  {
    PeersApart(p, kind, top, i, j);
    PeerAbove(p, kind, top, j);
    MultipleAbove(Peers(p)[i].limit, Peers(p)[j].base, Pow2(BridgeOrder(kind)));
  }

  lemma {:induction false} MultipleAbove(a: int, b: int, m: nat)
    requires m > 0 && a < b && b % m == 0
    ensures AlignDown(a, m) + m <= b
  {
    var q, r := a / m, b / m;
    assert a == q * m + a % m && b == r * m;
    MulLess(r, q, m);
    MulLess(q, r, m);
  }

  /** Where prefetchable memory starts, going down: with a PCI-PCI bridge about, below
      the granule that the other memory ends in. */
  function PrefetchTop(root: Bus, mmio: Placed): int
    requires mmio.Placed?
  {
    if HasBridge(root) then AlignDown(mmio.base, Pow2(BridgeOrder(PMMIO))) - 1 else mmio.base
  }

  lemma {:induction false} PrefetchTopIs(root: Bus, mmio: Placed)
    requires mmio.Placed?
    ensures PrefetchTop(root, mmio) ==
      if HasBridge(root) then AlignDown(mmio.base, Pow2(BridgeOrder(PMMIO))) - 1 else mmio.base
    ensures Pow2(20) > 0
  {
  }

  /** Over both kinds of memory no address is given out twice, and prefetchable
      memory lies below the rest. */
  lemma {:induction false} MemoryApart(root: Bus, mmio: Placed, pmmio: Placed, memTop: int)
    requires mmio.Placed? && pmmio.Placed?
    requires Chained(root, mmio, MMIO, memTop, mmio.base)
    requires Chained(root, pmmio, PMMIO, PrefetchTop(root, mmio), pmmio.base)
    ensures AllApart(AllSlots(mmio) + AllSlots(pmmio))
    ensures AllInside(AllSlots(mmio), mmio.base, memTop) && AllInside(AllSlots(pmmio), pmmio.base, mmio.base)
  {
    hide AllInside, AllApart, Nested;
    AlignDownIs(mmio.base, Pow2(BridgeOrder(PMMIO)));
    SlotsApart(mmio, MMIO, memTop);
    SlotsApart(pmmio, PMMIO, PrefetchTop(root, mmio));
    Loosen(AllSlots(pmmio), pmmio.base, PrefetchTop(root, mmio), mmio.base);
    JoinRows(AllSlots(mmio), AllSlots(pmmio), pmmio.base, mmio.base, memTop);
  }

  /** With a PCI-PCI bridge about, no bridge passes on an address of the other memory
      as prefetchable. */
  lemma {:induction false} PrefetchKeptOut(root: Bus, mmio: Placed, pmmio: Placed, q: Placed)
    requires mmio.Placed? && HasBridge(root) && q in Buses(pmmio)
    requires Nested(pmmio, PMMIO, PrefetchTop(root, mmio))
    ensures q.Placed? && Decoded(q.limit, PMMIO) <= mmio.base
  {
    var m := Pow2(BridgeOrder(PMMIO));
    WindowsNest(pmmio, PMMIO, PrefetchTop(root, mmio), q);
    AlignDownIs(mmio.base, m);
    MultipleAbove(q.limit, AlignDown(mmio.base, m), m);
  }

  lemma {:induction false} Granule(base: nat)
    ensures AndNot(base, BridgeMask(PMMIO)) == AlignDown(base, Pow2(BridgeOrder(PMMIO)))
    ensures 0 <= AlignDown(base, Pow2(BridgeOrder(PMMIO))) <= base < AlignDown(base, Pow2(BridgeOrder(PMMIO))) + Pow2(20)
    ensures base < Pow2(20) ==> AlignDown(base, Pow2(BridgeOrder(PMMIO))) == 0 && base < Pow2(32) - 1
    ensures base >= Pow2(20) ==> AlignDown(base, Pow2(BridgeOrder(PMMIO))) >= 2
  {
    Masks(PMMIO);
    Pow2Values();
    hide Pow2, AndNot;
    AndNotMask(base, 20);
    AlignDownIs(base, Pow2(20));
  }

  /** The allocator's one global: whether a PCI-PCI bridge has been met. */
  class PciSpace {
    var bridge: bool

    constructor ()
      ensures !bridge
    {
      bridge := false;
    }

    /** One register: passed over unless it is of the kind being placed. */
    method TakeOne(w: Want, kind: Kind, r: Region) returns (s: Slot)
      requires r.Valid() && r.order == DevOrder(kind) && w.size <= Pow2(31)
      modifies r
      ensures r.Valid() && (old(r.short) ==> r.short)
      ensures !r.short ==> Served(w, s, kind) && 0 < r.base <= old(r.base) && Inside(s, r.base, old(r.base))
      ensures Spent(old(r.short), old(r.base), r.short, r.base, WantCost(w, kind))
    {
      s := Unused;
      if w.kind == kind {
        var a := r.Take(w.size);
        s := At(a, a + w.size - 1);
      }
    }

    /** The walk over the registers of a bus's devices, in their order. */
    method TakeAll(wants: seq<Want>, kind: Kind, r: Region) returns (slots: seq<Slot>)
      requires r.Valid() && r.order == DevOrder(kind)
      requires forall i :: 0 <= i < |wants| ==> wants[i].size <= Pow2(31)
      modifies r
      ensures r.Valid() && (old(r.short) ==> r.short)
      ensures !r.short ==> AllServed(wants, slots, kind) && Row(slots, r.base, old(r.base))
      ensures Spent(old(r.short), old(r.base), r.short, r.base, WantSum(wants, kind))
    {
      hide Pow2, Order, Cost, Fits, Served, AllServed, Row, Spent;
      ghost var top := r.base;
      slots := [];
      SpentNothing(r.short, top);
      RowNone(top, kind);
      for i := 0 to |wants|
        invariant r.Valid() && (old(r.short) ==> r.short)
        invariant !r.short ==> AllServed(wants[..i], slots, kind) && Row(slots, r.base, top)
        invariant Spent(old(r.short), top, r.short, r.base, WantSum(wants[..i], kind))
      {
        ghost var was, wasShort := r.base, r.short;
        var s := TakeOne(wants[i], kind, r);
        assert wants[..i + 1] == wants[..i] + [wants[i]];
        assert wants[..i + 1][..i] == wants[..i];
        SpentMore(old(r.short), top, wasShort, was, r.short, r.base, WantSum(wants[..i], kind), WantCost(wants[i], kind));
        if !r.short { RowMore(wants[..i], slots, s, wants[i], kind, r.base, was, top); }
        slots := slots + [s];
      }
      assert wants[..|wants|] == wants;
    }

    /** The call through set_resource_range: pci_resource_bridge, _cnb30le or _m1541.
        The first computes limit - base and returns one more. */
    method SetRange(above: Above, kind: Kind, limit: int, r: Region) returns (base: int, size: int)
      requires r.Valid()
      modifies this, r
      ensures r.Valid() && (old(r.short) ==> r.short) && base == r.base < Pow2(32)
      ensures bridge == (old(bridge) || above == Bridge)
      ensures r.base <= old(r.base) && (!r.short ==> r.base > 0)
      ensures size == if limit > base then limit - base + 1 else 0
      ensures base == if limit > old(r.base) then AlignDown(old(r.base), Pow2(RangeOrder(above, kind))) else old(r.base)
      ensures size > 0 ==> base % Pow2(RangeOrder(above, kind)) == 0
      ensures Spent(old(r.short), old(r.base), r.short, r.base, Pow2(RangeOrder(above, kind)))
    {
      hide Pow2, AlignDown, DevMask, BusMask, BridgeMask;
      RangeFacts(above, kind, r.base);
      base := r.base;
      if above == Bridge {
        bridge := true;
      }
      if limit > base {
        if above == Bridge {
          base := r.Align(BridgeMask(kind), BridgeOrder(kind));
        } else if above == Host {
          base := r.Align(BusMask(kind), BusOrder(kind));
        }
      }
      size := if limit > base then limit - base + 1 else 0;
    }

    /** A list of buses that may be empty: `if (bus->peer)`, `if (bus->kids)`. */
    method AllocateAny(b: Bus, kind: Kind, r: Region) returns (p: Placed)
      requires Sane(b) && r.Valid() && r.order == DevOrder(kind)
      modifies this, r
      ensures r.Valid() && (old(r.short) ==> r.short)
      ensures bridge == (old(bridge) || HasBridge(b))
      ensures !r.short ==> Chained(b, p, kind, old(r.base), r.base)
      ensures Spent(old(r.short), old(r.base), r.short, r.base, Demand(b, kind))
      decreases b, 1
    {
      hide *;
      EmptyFacts(b, kind, r.short, r.base);
      p := Nowhere;
      if b.Bus? {
        p := Allocate(b, kind, r);
      }
    }

    /** pci_resource_allocate. */
    method Allocate(b: Bus, kind: Kind, r: Region) returns (p: Placed)
      requires b.Bus? && Sane(b) && r.Valid() && r.order == DevOrder(kind)
      modifies this, r
      ensures r.Valid() && (old(r.short) ==> r.short)
      ensures bridge == (old(bridge) || HasBridge(b))
      ensures p.Placed? && p.base == r.base < Pow2(32)
      ensures !r.short ==> Chained(b, p, kind, old(r.base), r.base)
      ensures Spent(old(r.short), old(r.base), r.short, r.base, Demand(b, kind))
      decreases b, 0
    {
      hide *;
      BusFacts(b, kind);
      var peer := AllocateAny(b.peer, kind, r);
      ghost var hi, short1 := r.base, r.short;
      var low := r.Align(BusMask(kind), BusOrder(kind));
      ghost var short2 := r.short;
      AlignDownIs(hi, Pow2(BusOrder(kind)));
      var limit := if low == 0 then Pow2(32) - 1 else low - 1;
      var kids := AllocateAny(b.kids, kind, r);
      ghost var shelf, short3 := r.base, r.short;
      var slots := TakeAll(b.wants, kind, r);
      ghost var low4, short4 := r.base, r.short;
      var base, size := SetRange(b.above, kind, limit, r);
      p := Placed(peer, kids, b.above, slots, base, limit, size);
      if !r.short {
        PlacedWell(b, p, kind, old(r.base), hi, low, shelf, low4);
      }
      SpentByBus(b, kind, old(r.short), old(r.base), short1, hi, short2, low, short3, shelf, short4, low4, r.short, r.base);
    }

    /** The last address below the granule that holds `base`, in 32 bits. */
    method PmmioTop(base: nat) returns (b: nat)
      requires base < Pow2(32)
      ensures b < Pow2(32)
      ensures base >= Pow2(20) ==> 0 < b == AlignDown(base, Pow2(BridgeOrder(PMMIO))) - 1 && 0 <= base - b <= Pow2(20)
      ensures base < Pow2(20) ==> b > base
    {
      hide *;
      Granule(base);
      b := AndNot(base, BridgeMask(PMMIO));
      b := if b == 0 then Pow2(32) - 1 else b - 1;
    }

    /** pci_resource_init: memory that cannot be prefetched below the top of memory
        space, and memory that can be below that. */
    method Init(root: Bus, ioTop: nat, memTop: nat)
      returns (io: Placed, mmio: Placed, pmmio: Placed, ghost short: bool)
      requires root.Bus? && Sane(root) && 0 < ioTop < Pow2(32) && 0 < memTop < Pow2(32) && !bridge
      modifies this
      ensures io.Placed? && mmio.Placed? && pmmio.Placed?
      ensures !short ==> Chained(root, io, IO, ioTop, io.base)
      ensures !short ==> Chained(root, mmio, MMIO, memTop, mmio.base)
      ensures !short ==> Chained(root, pmmio, PMMIO, PrefetchTop(root, mmio), pmmio.base)
      ensures ioTop > Demand(root, IO) && memTop > Demand(root, MMIO) + Pow2(20) + Demand(root, PMMIO) ==> !short
    {
      hide *;
      AllMasks();
      var r := new Region(DevMask(IO), ioTop, DevOrder(IO));
      io := Allocate(root, IO, r);
      ghost var short0 := r.short;
      r := new Region(DevMask(MMIO), memTop, DevOrder(MMIO));
      mmio := Allocate(root, MMIO, r);
      ghost var short1 := r.short;
      ghost var at1 := r.base;
      var base := r.base;
      if bridge {
        base := PmmioTop(r.base);
      }
      ghost var at2, short2 := base, short1 || base == 0 || base > at1;
      r := new Region(DevMask(PMMIO), base, DevOrder(PMMIO));
      pmmio := Allocate(root, PMMIO, r);
      short := short0 || short2 || r.short;
      PrefetchTopIs(root, mmio);
      SpentIs(false, ioTop, short0, io.base, Demand(root, IO));
      SpentIs(false, memTop, short1, at1, Demand(root, MMIO));
      if at2 != 0 { SpentIs(false, at2, r.short, pmmio.base, Demand(root, PMMIO)); }
    }
  }
}
