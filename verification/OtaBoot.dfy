/**
 * Choosing the partition to boot.  Two copies of a select entry are kept in two
 * flash sectors; the valid one with the higher sequence number names the slot.
 * Setting a new boot partition rewrites the other copy.
 */
module OtaBoot {
  import opened Arith
  import opened Common

  const U32: nat := 0x1_0000_0000
  const UINT32_MAX: nat := 0xFFFF_FFFF

  type u32 = x: nat | x < 0x1_0000_0000

  datatype ImgState = New | PendingVerify | Valid | Invalid | Aborted | Undefined | OtherState(code: u32)

  datatype Entry = Entry(otaSeq: u32, state: ImgState, crc: u32)

  datatype Partition = Factory | Ota(slot: nat) | Test

  /** What an erased sector reads as. */
  const BLANK: Entry := Entry(UINT32_MAX, Undefined, UINT32_MAX)

  /** The partition table, the images and the build, as far as booting depends on them. */
  datatype Device = Device(
    crc: u32 -> u32,
    slots: set<nat>,
    factory: bool,
    test: bool,
    rollbackEnabled: bool,
    imageOk: Partition -> bool)

  /** There are sixteen application slots at most. */
  predicate WellFormed(dev: Device) {
    forall k :: k in dev.slots ==> k < 16
  }

  predicate Has(dev: Device, p: Partition) {
    match p
    case Factory => dev.factory
    case Ota(k) => k in dev.slots
    case Test => dev.test
  }

  /** The number of application slots without a gap from slot 0 on. */
  function AppCount(dev: Device): (n: nat)
    ensures WellFormed(dev) ==> n <= 16
    ensures n !in dev.slots && forall k: nat :: k < n ==> k in dev.slots
  {
    var n := CountFrom(dev.slots, 0);
    assert n > 0 ==> n - 1 in dev.slots;
    n
  }

  function CountFrom(slots: set<nat>, k: nat): (n: nat)
    ensures k <= n && n !in slots && forall j :: k <= j < n ==> j in slots
    decreases slots - set j | j in slots && j < k
  {
    if k !in slots then k
    else
      assert k in slots - set j | j in slots && j < k;
      assert k !in slots - set j | j in slots && j < k + 1;
      CountFrom(slots, k + 1)
  }

  /** Counting as the program does it. */
  method GetAppPartitionCount(dev: Device) returns (n: nat)
    ensures n == AppCount(dev)
  {
    n := 0;
    while n in dev.slots
      invariant forall k: nat :: k < n ==> k in dev.slots
      invariant n <= AppCount(dev)
      decreases AppCount(dev) - n
    {
      n := n + 1;
    }
  }

  predicate BadState(s: ImgState) { s == Invalid || s == Aborted }

  predicate SelectInvalid(e: Entry) { e.otaSeq == UINT32_MAX || BadState(e.state) }

  predicate SelectValid(dev: Device, e: Entry) { !SelectInvalid(e) && e.crc == dev.crc(e.otaSeq) }

  /** The copy in use, or -1: the valid one with the higher number, the first one on a tie. */
  function Active(dev: Device, two: seq<Entry>): (a: int)
    requires |two| == 2
    ensures -1 <= a < 2
    ensures a >= 0 ==> SelectValid(dev, two[a]) &&
                       forall i :: 0 <= i < 2 && SelectValid(dev, two[i]) ==> two[i].otaSeq <= two[a].otaSeq
    ensures a == -1 ==> forall i :: 0 <= i < 2 ==> !SelectValid(dev, two[i])
  {
    var v0, v1 := SelectValid(dev, two[0]), SelectValid(dev, two[1]);
    if v0 && v1 then if Max(two[0].otaSeq, two[1].otaSeq) == two[0].otaSeq then 0 else 1
    else if v0 then 0
    else if v1 then 1
    else -1
  }

  /** The slot a sequence number stands for, in 32-bit arithmetic. */
  function SlotOf(num: u32, count: nat): (k: nat)
    requires count > 0
    ensures k < count
  {
    (if num == 0 then UINT32_MAX else num - 1) % count
  }

  /** The lowest slot from k on that is in the table. */
  function FirstSlot(slots: set<nat>, k: nat): (r: Option<nat>)
    requires k <= 16
    ensures r.Some? ==> k <= r.value < 16 && r.value in slots && forall j :: k <= j < r.value ==> j !in slots
    ensures r.None? ==> forall j :: k <= j < 16 ==> j !in slots
    decreases 16 - k
  {
    if k == 16 then None
    else if k in slots then Some(k)
    else FirstSlot(slots, k + 1)
  }

  /** The partition booted when the select entries do not decide. */
  function DefaultBoot(dev: Device): (p: Option<Partition>)
    ensures p.Some? ==> Has(dev, p.value)
    ensures p == Some(Factory) <==> dev.factory
    ensures p.Some? && p.value.Ota? ==> p.value.slot < 16 && forall j :: 0 <= j < p.value.slot ==> j !in dev.slots
    ensures p == Some(Test) || p == None ==> forall j :: 0 <= j < 16 ==> j !in dev.slots
    ensures p == None ==> !dev.test
  {
    if dev.factory then Some(Factory)
    else
      match FirstSlot(dev.slots, 0)
      case Some(k) => Some(Ota(k))
      case None => if dev.test then Some(Test) else None
  }

  /** The boot partition as the application is told it. */
  function BootPartition(dev: Device, two: seq<Entry>): Option<Partition>
    requires |two| == 2
  {
    var count := AppCount(dev);
    if (SelectInvalid(two[0]) && SelectInvalid(two[1])) || count == 0 then DefaultBoot(dev)
    else
      var a := Active(dev, two);
      if a == -1 then DefaultBoot(dev)
      else Some(Ota(SlotOf(two[a].otaSeq, count)))
  }

  // ----- the next sequence number -------------------------------------------------

  /** The least number not below base that stands for the slot. */
  function NextFor(base: nat, slot: nat, count: nat): nat
    requires slot < count
  {
    base + (slot + 1 - base) % count
  }

  /** It is at least base, less than base + count, and stands for the slot. */
  lemma NextForSpec(base: nat, slot: nat, count: nat)
    requires slot < count
    ensures var r := NextFor(base, slot, count);
            base <= r < base + count && r % count == (slot + 1) % count
  {
    AddResidue(base, slot + 1, count);
  }

  /** Nothing between base and it stands for the slot. */
  lemma NextForLeast(base: nat, slot: nat, count: nat, v: nat)
    requires slot < count && base <= v && v % count == (slot + 1) % count
    ensures NextFor(base, slot, count) <= v
  {
    hide NextFor;
    NextForSpec(base, slot, count);
    var r := NextFor(base, slot, count);
    if v < r {
      SameResidue(v, r, count);
    }
  }

  lemma AddResidue(base: int, target: int, n: int)
    requires n > 0
    ensures (base + (target - base) % n) % n == target % n
  {
    var d := target - base;
    var k := d / n;
    assert d == k * n + d % n;
    assert (-k) * n == -(k * n);
    ShiftMod(target, -k, n);
  }

  lemma ShiftMod(x: int, k: int, n: int)
    requires n > 0
    ensures (x + k * n) % n == x % n
  {
    var q := x / n;
    assert x == q * n + x % n;
    assert (q + k) * n == q * n + k * n;
    DivUnique(x + k * n, n, q + k, x % n);
  }

  /** Two numbers with the same residue less than n apart are equal. */
  lemma SameResidue(a: int, b: int, n: int)
    requires n > 0 && a % n == b % n && a <= b < a + n
    ensures a == b
  {
    var qa, qb := a / n, b / n;
    assert a == qa * n + a % n && b == qb * n + b % n;
    if qa < qb {
      MulStep(qa, qb, n);
    } else if qa > qb {
      MulStep(qb, qa, n);
    }
  }

  lemma PredResidue(r: int, slot: nat, n: int)
    requires 0 <= slot < n && r % n == (slot + 1) % n
    ensures (r - 1) % n == slot
  {
    var q := r / n;
    assert r == q * n + r % n;
    if slot + 1 < n {
      DivUnique(slot + 1, n, 0, slot + 1);
      DivUnique(r - 1, n, q, slot);
    } else {
      DivUnique(slot + 1, n, 1, 0);
      assert (q - 1) * n == q * n - n;
      DivUnique(r - 1, n, q - 1, n - 1);
    }
  }

  /** With a sequence number of zero the 32-bit wrap shows, unless the count divides 2^32. */
  lemma WrappedSlot(count: nat)
    requires count > 0
    ensures UINT32_MAX % count == count - 1 <==> U32 % count == 0
  {
    var k, m := U32 / count, U32 % count;
    assert U32 == k * count + m;
    if m == 0 {
      assert (k - 1) * count == k * count - count;
      DivUnique(UINT32_MAX, count, k - 1, count - 1);
    } else {
      DivUnique(UINT32_MAX, count, k, m - 1);
    }
  }

  /** A number that is one more than the slot, modulo the count, stands for the slot; almost. */
  lemma SlotOfNext(r: u32, slot: nat, count: nat)
    requires slot < count && r % count == (slot + 1) % count
    ensures r > 0 ==> SlotOf(r, count) == slot
    ensures r == 0 ==> (SlotOf(r, count) == slot <==> U32 % count == 0)
  {
    if r > 0 {
      PredResidue(r, slot, count);
    } else {
      DivUnique(0, count, 0, 0);
      if slot + 1 < count {
        DivUnique(slot + 1, count, 0, slot + 1);
      } else {
        WrappedSlot(count);
      }
    }
  }

  /** The search in unbounded arithmetic, as the host tool does it. */
  method FindNext(base: nat, slot: nat, count: nat) returns (r: nat)
    requires slot < count
    ensures r == NextFor(base, slot, count)
  {
    hide NextFor;
    var i := 0;
    var start := (slot + 1) % count;
    while base > start + i * count
      invariant 0 <= start + i * count < base + count
      decreases base + count - (start + i * count)
    {
      i := i + 1;
      assert i * count == (i - 1) * count + count;
    }
    r := start + i * count;
    ResidueFound(base, slot, count, i);
  }

  /** The first number of the arithmetic progression that is not below base. */
  lemma ResidueFound(base: nat, slot: nat, count: nat, i: nat)
    requires slot < count
    requires var r := (slot + 1) % count + i * count; base <= r < base + count
    ensures (slot + 1) % count + i * count == NextFor(base, slot, count)
  {
    hide NextFor;
    var start := (slot + 1) % count;
    var r, n := start + i * count, NextFor(base, slot, count);
    NextForSpec(base, slot, count);
    ShiftMod(start, i, count);
    DivUnique(start, count, 0, start);
    if r <= n {
      SameResidue(r, n, count);
    } else {
      SameResidue(n, r, count);
    }
  }

  // ----- the search in 32 bits -------------------------------------------------------

  /** The i-th number tried. */
  function Tried(slot: nat, count: nat, i: nat): u32
    requires slot < count
  {
    ((slot + 1) % count + i * count) % U32
  }

  /** The first number tried from the i-th on that is not below base; None if there is none, ever. */
  function SearchFrom(base: u32, slot: nat, count: nat, i: nat): (r: Option<u32>)
    requires slot < count
    ensures r.Some? ==> base <= r.value && exists j :: i <= j < U32 && r.value == Tried(slot, count, j)
    ensures r.None? ==> forall j :: i <= j < U32 ==> Tried(slot, count, j) < base
    decreases U32 - i
  {
    if i >= U32 then None
    else if base <= Tried(slot, count, i) then Some(Tried(slot, count, i))
    else SearchFrom(base, slot, count, i + 1)
  }

  /** The numbers tried repeat after 2^32 rounds. */
  lemma TriedRepeats(slot: nat, count: nat, i: nat)
    requires slot < count
    ensures Tried(slot, count, i) == Tried(slot, count, i % U32)
  {
    var q, r := i / U32, i % U32;
    assert i == q * U32 + r;
    assert i * count == r * count + (q * count) * U32 by {
      Distribute(q, U32, r, count);
    }
    ShiftMod((slot + 1) % count + r * count, q * count, U32);
  }

  lemma Distribute(q: int, u: int, r: int, n: int)
    ensures (q * u + r) * n == r * n + (q * n) * u
  {
  }

  /** So a search that has not ended within them never ends. */
  lemma NeverEnds(base: u32, slot: nat, count: nat)
    requires slot < count
    ensures SearchFrom(base, slot, count, 0) == None <==> forall i: nat :: Tried(slot, count, i) < base
  {
    hide Tried;
    if SearchFrom(base, slot, count, 0) == None {
      forall i: nat ensures Tried(slot, count, i) < base {
        TriedRepeats(slot, count, i);
      }
    }
  }

  /** The search as the device does it; it returns None where the device never comes back. */
  method FindNext32(base: u32, slot: nat, count: nat) returns (r: Option<u32>)
    requires slot < count
    ensures r == SearchFrom(base, slot, count, 0)
  {
    hide Tried;
    var i := 0;
    while i < U32 && base > Tried(slot, count, i)
      invariant i <= U32
      invariant SearchFrom(base, slot, count, i) == SearchFrom(base, slot, count, 0)
    {
      i := i + 1;
    }
    r := if i < U32 then Some(Tried(slot, count, i)) else None;
  }

  /** Where the next number fits 32 bits, the search finds it. */
  lemma {:induction false} SearchFits(base: u32, slot: nat, count: nat, i: nat)
    requires slot < count && NextFor(base, slot, count) < U32
    requires (slot + 1) % count + i * count <= NextFor(base, slot, count)
    ensures SearchFrom(base, slot, count, i) == Some(NextFor(base, slot, count))
    decreases U32 - i
  {
    hide NextFor, SearchFrom, Tried;
    var x := (slot + 1) % count + i * count;
    NextRound(base, slot, count, i);
    OneRound(base, slot, count, i);
    if base > x {
      SearchFits(base, slot, count, i + 1);
    }
  }

  /** As long as the numbers tried are below base, the next one does not skip the one wanted. */
  lemma NextRound(base: u32, slot: nat, count: nat, i: nat)
    requires slot < count && NextFor(base, slot, count) < U32
    requires (slot + 1) % count + i * count <= NextFor(base, slot, count)
    ensures i < U32 && Tried(slot, count, i) == (slot + 1) % count + i * count
    ensures base <= Tried(slot, count, i) ==> Tried(slot, count, i) == NextFor(base, slot, count)
    ensures base > Tried(slot, count, i) ==> (slot + 1) % count + (i + 1) * count <= NextFor(base, slot, count)
  {
    hide NextFor, Tried;
    TriedFits(slot, count, i);
    ProgressionResidue(slot, count, i);
    NextForSpec(base, slot, count);
    var x, next := (slot + 1) % count + i * count, NextFor(base, slot, count);
    if base <= x {
      ResidueFound(base, slot, count, i);
    } else {
      assert (i + 1) * count == i * count + count;
      NotSkipped(x, next, count);
    }
  }

  lemma TriedFits(slot: nat, count: nat, i: nat)
    requires slot < count && (slot + 1) % count + i * count < U32
    ensures i < U32 && Tried(slot, count, i) == (slot + 1) % count + i * count
  {
    var x := (slot + 1) % count + i * count;
    DivUnique(x, U32, 0, x);
    if i > 0 {
      MulGrows(count, i);
    }
  }

  lemma ProgressionResidue(slot: nat, count: nat, i: nat)
    requires slot < count
    ensures ((slot + 1) % count + i * count) % count == (slot + 1) % count
  {
    DivUnique((slot + 1) % count + i * count, count, i, (slot + 1) % count);
  }

  lemma NotSkipped(x: int, y: int, n: int)
    requires n > 0 && x % n == y % n && x < y
    ensures x + n <= y
  {
    if y < x + n {
      SameResidue(x, y, n);
    }
  }

  lemma OneRound(base: u32, slot: nat, count: nat, i: nat)
    requires slot < count && i < U32
    ensures SearchFrom(base, slot, count, i) ==
            if base <= Tried(slot, count, i) then Some(Tried(slot, count, i)) else SearchFrom(base, slot, count, i + 1)
  {
  }

  /** Where it does not fit, whatever the search finds stands for another slot. */
  lemma SearchOverflows(base: u32, slot: nat, count: nat)
    requires slot < count && NextFor(base, slot, count) >= U32
    ensures var r := SearchFrom(base, slot, count, 0);
            r.Some? ==> base <= r.value && r.value % count != (slot + 1) % count
    ensures base % count != (slot + 1) % count
  {
    hide NextFor;
    var r := SearchFrom(base, slot, count, 0);
    if r.Some? && r.value % count == (slot + 1) % count {
      NextForLeast(base, slot, count, r.value);
    }
    if base % count == (slot + 1) % count {
      NextForLeast(base, slot, count, base);
    }
  }

  // ----- when the search ends ---------------------------------------------------------

  /** The largest power of two that divides n. */
  function TwoPart(n: nat): (g: nat)
    requires 0 < n <= 16
    ensures g in {1, 2, 4, 8, 16} && n % g == 0 && n / g % 2 == 1
  {
    if n == 16 then 16 else if n % 8 == 0 then 8 else if n % 4 == 0 then 4 else if n % 2 == 0 then 2 else 1
  }

  /** The inverse of an odd number modulo 2^32. */
  function Inverse(m: nat): (r: nat)
    requires m < 16 && m % 2 == 1
    ensures m * r % U32 == 1
  {
    match m
    case 1 => 1
    case 3 => 0xAAAA_AAAB
    case 5 => 0xCCCC_CCCD
    case 7 => 0xB6DB_6DB7
    case 9 => 0x38E3_8E39
    case 11 => 0xBA2E_8BA3
    case 13 => 0xC4EC_4EC5
    case _ => 0xEEEE_EEEF
  }

  lemma Expand(i: int, k: int, r: int, m: int, g: int, e: int, p: int)
    requires i == k * r - p * U32 && m * r == 1 + e * U32
    ensures i * (m * g) == k * g + (k * e * g - p * m * g) * U32
  {
    assert k * r * m == k * (m * r) == k + k * e * U32;
    assert i * m == k + (k * e - p * m) * U32;
    assert i * (m * g) == (i * m) * g;
  }

  /** The multiples of count take every value modulo 2^32 that the power of two in it divides. */
  lemma Reach(d: int, count: nat) returns (i: nat, q: int)
    requires 0 < count <= 16 && d % TwoPart(count) == 0
    ensures i < U32 && i * count == d + q * U32
  {
    hide TwoPart, Inverse;
    var g := TwoPart(count);
    var m, k := count / g, d / g;
    assert m * g == count && k * g == d && m <= count;
    assert m % 2 == 1;
    var r := Inverse(m);
    var e, p := m * r / U32, k * r / U32;
    i := k * r % U32;
    Expand(i, k, r, m, g, e, p);
    q := k * e * g - p * m * g;
  }

  /** Every number tried is the one wanted modulo the power of two in the count, and they all come up. */
  lemma TriedAre(slot: nat, count: nat, v: u32)
    requires slot < count <= 16
    ensures (exists i :: 0 <= i < U32 && Tried(slot, count, i) == v) <==>
            v % TwoPart(count) == (slot + 1) % TwoPart(count)
  {
    hide TwoPart, Tried;
    var g := TwoPart(count);
    var start := (slot + 1) % count;
    StartResidue(slot, count, g);
    if v % g == start % g {
      Congruent(v, start, g);
      var i, q := Reach(v - start, count);
      TriedIs(slot, count, i, v, q);
    }
    forall i | 0 <= i < U32 ensures Tried(slot, count, i) % g == (slot + 1) % g {
      TriedResidue(slot, count, g, i);
    }
  }

  lemma TriedIs(slot: nat, count: nat, i: nat, v: u32, q: int)
    requires slot < count && (slot + 1) % count + i * count == v + q * U32
    ensures Tried(slot, count, i) == v
  {
    DivUnique(v + q * U32, U32, q, v);
  }

  lemma Congruent(x: int, y: int, g: int)
    requires g > 0 && x % g == y % g
    ensures (x - y) % g == 0
  {
    var qx, qy := x / g, y / g;
    assert x == qx * g + x % g && y == qy * g + y % g;
    assert (qx - qy) * g == qx * g - qy * g;
    DivUnique(x - y, g, qx - qy, 0);
  }

  lemma StartResidue(slot: nat, count: nat, g: nat)
    requires slot < count && 0 < g && count % g == 0
    ensures (slot + 1) % count % g == (slot + 1) % g
  {
    var q, m, start := (slot + 1) / count, count / g, (slot + 1) % count;
    assert slot + 1 == q * count + start && count == m * g;
    assert q * count == (q * m) * g by {
      assert q * (m * g) == (q * m) * g;
    }
    ShiftMod(start, q * m, g);
  }

  lemma TriedResidue(slot: nat, count: nat, g: nat, i: nat)
    requires slot < count && 0 < g && count % g == 0 && U32 % g == 0
    ensures Tried(slot, count, i) % g == (slot + 1) % g
  {
    var start, m := (slot + 1) % count, count / g;
    var x := start + i * count;
    StartResidue(slot, count, g);
    assert count == m * g;
    assert i * count == (i * m) * g by {
      assert i * (m * g) == (i * m) * g;
    }
    ShiftMod(start, i * m, g);
    var q, k := x / U32, U32 / g;
    assert x == q * U32 + x % U32 && U32 == k * g;
    assert q * U32 == (q * k) * g by {
      assert q * (k * g) == (q * k) * g;
    }
    ShiftMod(x % U32, q * k, g);
  }

  /** No number below 2^32, from base on, has the residue that the numbers tried have; never so for odd counts. */
  predicate Hanging(base: u32, slot: nat, count: nat)
    requires slot < count <= 16
  {
    base + (slot + 1 - base) % TwoPart(count) >= U32
  }

  /** That is exactly when the search never ends. */
  lemma SearchHangs(base: u32, slot: nat, count: nat)
    requires slot < count <= 16
    ensures SearchFrom(base, slot, count, 0) == None <==> Hanging(base, slot, count)
  {
    hide Tried, TwoPart;
    var g := TwoPart(count);
    var v := base + (slot + 1 - base) % g;
    AddResidue(base, slot + 1, g);
    if v < U32 {
      TriedAre(slot, count, v);
      var i :| 0 <= i < U32 && Tried(slot, count, i) == v;
    }
    var r := SearchFrom(base, slot, count, 0);
    if r.Some? {
      TriedAre(slot, count, r.value);
      LeastResidue(base, slot + 1, r.value, g);
    }
  }

  lemma LeastResidue(base: int, target: int, v: int, g: int)
    requires g > 0 && base <= v && v % g == target % g
    ensures base + (target - base) % g <= v
  {
    AddResidue(base, target, g);
    var r := base + (target - base) % g;
    if v < r {
      SameResidue(v, r, g);
    }
  }

  // ----- the two copies in flash ----------------------------------------------------

  datatype Err = Ok | InvalidArg | ValidateFailed | RollbackFailed | Fail | PowerCut | Hangs

  /** `subtype & 0x0F`: the slot number, and zero for the test partition. */
  function SubTypeId(p: Partition): nat {
    match p
    case Ota(k) => k % 16
    case Test => 0
    case Factory => 0
  }

  /** The number the copies take part with: the active one's, if any. */
  function BaseSeq(dev: Device, two: seq<Entry>): nat
    requires |two| == 2
  {
    if Active(dev, two) == -1 then 0 else two[Active(dev, two)].otaSeq
  }

  /** The number that should be written for a slot, in unbounded arithmetic. */
  function TargetSeq(dev: Device, two: seq<Entry>, slot: nat): nat
    requires |two| == 2 && slot < AppCount(dev)
  {
    if Active(dev, two) == -1 then slot + 1
    else NextFor(two[Active(dev, two)].otaSeq, slot, AppCount(dev))
  }

  /** The number the device does write, if its search ends. */
  function SetSeq(dev: Device, two: seq<Entry>, slot: nat): Option<u32>
    requires |two| == 2 && WellFormed(dev) && slot < AppCount(dev)
  {
    if Active(dev, two) == -1 then Some(slot + 1)
    else SearchFrom(two[Active(dev, two)].otaSeq, slot, AppCount(dev), 0)
  }

  /** The device gets stuck looking for it. */
  predicate Stuck(dev: Device, two: seq<Entry>, slot: nat)
    requires |two| == 2 && WellFormed(dev) && slot < AppCount(dev)
  {
    Active(dev, two) != -1 && Hanging(two[Active(dev, two)].otaSeq, slot, AppCount(dev))
  }

  lemma SetSeqStuck(dev: Device, two: seq<Entry>, slot: nat)
    requires |two| == 2 && WellFormed(dev) && slot < AppCount(dev)
    ensures SetSeq(dev, two, slot) == None <==> Stuck(dev, two, slot)
  {
    hide SearchFrom, Hanging;
    if Active(dev, two) != -1 {
      SearchHangs(two[Active(dev, two)].otaSeq, slot, AppCount(dev));
    }
  }

  /** It is the right one as long as that fits 32 bits. */
  lemma SetSeqFits(dev: Device, two: seq<Entry>, slot: nat)
    requires |two| == 2 && WellFormed(dev) && slot < AppCount(dev) && TargetSeq(dev, two, slot) < U32
    ensures SetSeq(dev, two, slot) == Some(TargetSeq(dev, two, slot))
  {
    hide NextFor, SearchFrom;
    var a, n := Active(dev, two), AppCount(dev);
    if a != -1 {
      var base := two[a].otaSeq;
      NextForSpec(base, slot, n);
      StartBelow(base, slot, n);
      SearchFits(base, slot, n, 0);
    }
  }

  lemma StartBelow(base: nat, slot: nat, count: nat)
    requires slot < count
    ensures (slot + 1) % count <= NextFor(base, slot, count)
  {
    hide NextFor;
    NextForSpec(base, slot, count);
    var r := NextFor(base, slot, count);
    assert r == r / count * count + r % count;
  }

  /** The copy written for it: never the active one. */
  function TargetCopy(dev: Device, two: seq<Entry>): (c: nat)
    requires |two| == 2
    ensures c < 2 && c != Active(dev, two)
  {
    if Active(dev, two) == 0 then 1 else 0
  }

  /**
   * The caller can tell beforehand whether a slot will be booted once it has been set: the number
   * to be written must be below the one that marks an empty copy, and it may be zero only where the
   * 32-bit wrap does no harm.
   */
  predicate Settable(dev: Device, two: seq<Entry>, slot: nat)
    requires |two| == 2 && slot < AppCount(dev)
  {
    var r := TargetSeq(dev, two, slot);
    r < UINT32_MAX && (r == 0 ==> U32 % AppCount(dev) == 0)
  }

  /** The copies after a number has been set, with the state new images get. */
  function Written(dev: Device, two: seq<Entry>, num: u32): (r: seq<Entry>)
    requires |two| == 2
    ensures |r| == 2
  {
    two[TargetCopy(dev, two) := Entry(num, if dev.rollbackEnabled then New else Undefined, dev.crc(num))]
  }

  lemma SlotResidue(r: u32, slot: nat, n: nat)
    requires slot < n && r > 0 && SlotOf(r, n) == slot
    ensures r % n == (slot + 1) % n
  {
    var q := (r - 1) / n;
    assert r - 1 == q * n + slot;
    ShiftMod(slot + 1, q, n);
  }

  /** After setting a slot it is the one booted, exactly if the slot is settable. */
  lemma BootAfterSet(dev: Device, two: seq<Entry>, slot: nat, num: u32)
    requires |two| == 2 && WellFormed(dev) && slot < AppCount(dev) && SetSeq(dev, two, slot) == Some(num)
    ensures Settable(dev, two, slot) <==> BootPartition(dev, Written(dev, two, num)) == Some(Ota(slot))
  {
    hide NextFor, SlotOf, SearchFrom;
    var a, count := Active(dev, two), AppCount(dev);
    if TargetSeq(dev, two, slot) < U32 {
      SetSeqFits(dev, two, slot);
      if a != -1 {
        NextForSpec(two[a].otaSeq, slot, count);
      }
      SlotOfNext(num, slot, count);
    } else if a != -1 {
      NextForSpec(two[a].otaSeq, slot, count);
      SearchOverflows(two[a].otaSeq, slot, count);
      if num > 0 && SlotOf(num, count) == slot {
        SlotResidue(num, slot, count);
      }
    }
    BootsHigher(dev, two, num);
    if a != -1 && num == UINT32_MAX && two[a].otaSeq > 0 && SlotOf(two[a].otaSeq, count) == slot {
      SlotResidue(two[a].otaSeq, slot, count);
      NextForLeast(two[a].otaSeq, slot, count, two[a].otaSeq);
    }
  }

  /** A number not below the active one decides, unless it marks an empty copy. */
  lemma BootsHigher(dev: Device, two: seq<Entry>, num: u32)
    requires |two| == 2 && AppCount(dev) > 0 && BaseSeq(dev, two) <= num
    ensures BootPartition(dev, Written(dev, two, num)) ==
            if num != UINT32_MAX then Some(Ota(SlotOf(num, AppCount(dev))))
            else if Active(dev, two) != -1 then Some(Ota(SlotOf(two[Active(dev, two)].otaSeq, AppCount(dev))))
            else DefaultBoot(dev)
  {
    hide SlotOf;
    var a, c, w := Active(dev, two), TargetCopy(dev, two), Written(dev, two, num);
    assert w[1 - c] == two[1 - c];
    if a == -1 {
      assert !SelectValid(dev, w[1 - c]);
    } else {
      assert SelectValid(dev, w[1 - c]);
    }
  }

  /** With valid numbers from 1 on, a slot is settable unless its number marks an empty copy. */
  lemma PositiveIsSettable(dev: Device, two: seq<Entry>, slot: nat)
    requires |two| == 2 && slot < AppCount(dev) && Positive(dev, two)
    ensures TargetSeq(dev, two, slot) >= 1
    ensures Settable(dev, two, slot) <==> TargetSeq(dev, two, slot) < UINT32_MAX
  {
  }

  /** Every valid number is at least 1. */
  predicate Positive(dev: Device, two: seq<Entry>)
    requires |two| == 2
  {
    forall i :: 0 <= i < 2 && SelectValid(dev, two[i]) ==> two[i].otaSeq >= 1
  }

  /** The failing case exists: three slots, a valid copy numbered 0, and slot 2 is set. */
  lemma ZeroSeqExample(dev: Device)
    requires dev.slots == {0, 1, 2}
    ensures var two := [Entry(0, Undefined, dev.crc(0)), BLANK];
            && AppCount(dev) == 3 && TargetSeq(dev, two, 2) == 0
            && BootPartition(dev, Written(dev, two, 0)) == Some(Ota(0))
  {
    assert AppCount(dev) == 3 by {
      var n := AppCount(dev);
      assert n !in {0, 1, 2} && 3 !in dev.slots;
    }
    var two := [Entry(0, Undefined, dev.crc(0)), BLANK];
    var after := Written(dev, two, 0);
    assert after[1] == Entry(0, if dev.rollbackEnabled then New else Undefined, dev.crc(0));
    assert SelectValid(dev, after[0]) && SelectValid(dev, after[1]);
  }

  /** With the copy to be rewritten erased and not yet written, the old choice stands. */
  lemma ErasedKeepsBoot(dev: Device, two: seq<Entry>)
    requires |two| == 2
    ensures BootPartition(dev, two[TargetCopy(dev, two) := BLANK]) == BootPartition(dev, two)
  {
  }

  /** A rollback has somewhere to go. */
  predicate RollbackPossible(dev: Device, two: seq<Entry>)
    requires |two| == 2
  {
    var a := Active(dev, two);
    AppCount(dev) != 0 && a != -1 &&
    var last := 1 - a;
    if SelectValid(dev, two[last]) then
      var p := Ota(SlotOf(two[last].otaSeq, AppCount(dev)));
      Has(dev, p) && dev.imageOk(p)
    else
      dev.factory && dev.imageOk(Factory)
  }

  /** The copies once the running application has been given up. */
  function GivenUp(dev: Device, two: seq<Entry>): (r: seq<Entry>)
    requires |two| == 2 && Active(dev, two) != -1
    ensures |r| == 2
  {
    var a := Active(dev, two);
    two[a := Entry(two[a].otaSeq, Invalid, dev.crc(two[a].otaSeq))]
  }

  predicate GoodPart(dev: Device, p: Option<Partition>) { p.Some? && Has(dev, p.value) && dev.imageOk(p.value) }

  /** Where giving up would lead is good, and it is the other copy's slot or the factory partition. */
  predicate SomewhereToGo(dev: Device, two: seq<Entry>)
    requires |two| == 2
  {
    && Active(dev, two) != -1 && AppCount(dev) > 0
    && (SelectValid(dev, two[1 - Active(dev, two)]) || dev.factory)
    && GoodPart(dev, BootPartition(dev, GivenUp(dev, two)))
  }

  /** The program finds a rollback possible exactly then. */
  lemma RollbackIff(dev: Device, two: seq<Entry>)
    requires |two| == 2
    ensures RollbackPossible(dev, two) <==> SomewhereToGo(dev, two)
  {
    hide SlotOf, FirstSlot;
    var a := Active(dev, two);
    if a != -1 {
      var after := GivenUp(dev, two);
      assert !SelectValid(dev, after[a]) && after[1 - a] == two[1 - a];
    }
  }

  /** A possible rollback ends in a partition that exists and holds a good image. */
  lemma RollbackBoots(dev: Device, two: seq<Entry>)
    requires |two| == 2 && RollbackPossible(dev, two)
    ensures var p := BootPartition(dev, GivenUp(dev, two));
            p.Some? && Has(dev, p.value) && dev.imageOk(p.value)
  {
    hide SlotOf;
    var a := Active(dev, two);
    var after := GivenUp(dev, two);
    assert !SelectValid(dev, after[a]) && after[1 - a] == two[1 - a];
  }

  /**
   * Giving up leads back to the same application exactly if the other copy is valid and names its
   * slot as well, or is not valid and the slot is 0, on a device without factory partition.
   */
  predicate SameAgain(dev: Device, two: seq<Entry>)
    requires |two| == 2 && Active(dev, two) != -1 && AppCount(dev) > 0
  {
    var a, n := Active(dev, two), AppCount(dev);
    if SelectValid(dev, two[1 - a]) then SlotOf(two[1 - a].otaSeq, n) == SlotOf(two[a].otaSeq, n)
    else !dev.factory && SlotOf(two[a].otaSeq, n) == 0
  }

  lemma RollbackLeaves(dev: Device, two: seq<Entry>)
    requires |two| == 2 && Active(dev, two) != -1 && AppCount(dev) > 0
    ensures BootPartition(dev, GivenUp(dev, two)) == BootPartition(dev, two) <==> SameAgain(dev, two)
    ensures RollbackPossible(dev, two) && !SelectValid(dev, two[1 - Active(dev, two)]) ==> !SameAgain(dev, two)
  {
    hide SlotOf, FirstSlot;
    var a := Active(dev, two);
    var after := GivenUp(dev, two);
    assert !SelectValid(dev, after[a]) && after[1 - a] == two[1 - a];
    assert 0 in dev.slots;
  }

  /** It can return to the same one: two slots, the copies numbered 1 and 3. */
  lemma SameSlotExample(dev: Device)
    requires dev.slots == {0, 1} && dev.imageOk(Ota(0))
    ensures var two := [Entry(1, ImgState.Valid, dev.crc(1)), Entry(3, ImgState.Valid, dev.crc(3))];
            && RollbackPossible(dev, two)
            && BootPartition(dev, two) == BootPartition(dev, GivenUp(dev, two)) == Some(Ota(0))
  {
    assert AppCount(dev) == 2 by {
      var n := AppCount(dev);
      assert n !in {0, 1} && 2 !in dev.slots;
    }
  }

  /**
   * Choosing the factory partition erases both copies, one sector after the other.  A power cut in
   * between leads to a partition that is neither the old nor the default choice exactly if the first
   * copy was the active one and the second is valid and names such a partition.
   */
  lemma FactoryCut(dev: Device, two: seq<Entry>)
    requires |two| == 2
    ensures var p := BootPartition(dev, [BLANK, two[1]]);
            p != BootPartition(dev, two) && p != DefaultBoot(dev) <==>
            && AppCount(dev) > 0 && Active(dev, two) == 0 && SelectValid(dev, two[1])
            && SlotOf(two[1].otaSeq, AppCount(dev)) != SlotOf(two[0].otaSeq, AppCount(dev))
            && Some(Ota(SlotOf(two[1].otaSeq, AppCount(dev)))) != DefaultBoot(dev)
  {
    hide SlotOf, DefaultBoot;
    var after := [BLANK, two[1]];
    assert !SelectValid(dev, after[0]);
  }

  /** Two slots with slot 1 in use and slot 0 before it: a cut on the way to the factory boots slot 0. */
  lemma FactoryCutExample(dev: Device)
    requires dev.slots == {0, 1} && dev.factory
    ensures var two := [Entry(2, ImgState.Valid, dev.crc(2)), Entry(1, ImgState.Valid, dev.crc(1))];
            BootPartition(dev, two) == Some(Ota(1)) && BootPartition(dev, [BLANK, two[1]]) == Some(Ota(0))
  {
    assert AppCount(dev) == 2 by {
      var n := AppCount(dev);
      assert n !in {0, 1} && 2 !in dev.slots;
    }
  }

  /** Four slots, the active copy numbered 2^32 - 2: setting the last slot never returns. */
  lemma HangExample(dev: Device)
    requires WellFormed(dev) && dev.slots == {0, 1, 2, 3}
    ensures AppCount(dev) == 4
    ensures SetSeq(dev, [Entry(0xFFFF_FFFE, ImgState.Valid, dev.crc(0xFFFF_FFFE)), BLANK], 3) == None
    ensures Hanging(0xFFFF_FFFE, 3, 12)  // twelve slots hang as well
  {
    hide SearchFrom, SlotOf;
    assert AppCount(dev) == 4 by {
      var n := AppCount(dev);
      assert n !in {0, 1, 2, 3} && 4 !in dev.slots;
    }
    assert (3 + 1 - 0xFFFF_FFFE) % TwoPart(4) == 2 && TwoPart(12) == 4;
    SearchHangs(0xFFFF_FFFE, 3, 4);
  }

  class OtaData {
    var two: seq<Entry>

    /**
     * Rewrites one copy; `cut` says that power is lost between the erase and the write.  A cut on the
     * copy not in use keeps the choice; on the copy in use it has the effect of giving it up.
     */
    method RewriteSeq(dev: Device, num: u32, id: nat, state: ImgState, cut: bool) returns (r: Err)
      requires |two| == 2 && id < 2
      modifies this
      ensures |two| == 2 && two[1 - id] == old(two[1 - id])
      ensures r == if cut then PowerCut else Ok
      ensures two[id] == if cut then BLANK else Entry(num, state, dev.crc(num))
      ensures SelectValid(dev, two[id]) <==> !cut && num != UINT32_MAX && state !in {Invalid, Aborted}
      ensures cut && id != old(Active(dev, two)) ==> BootPartition(dev, two) == old(BootPartition(dev, two))
      ensures cut && id == old(Active(dev, two)) ==>
                BootPartition(dev, two) == BootPartition(dev, GivenUp(dev, old(two)))
    {
      hide SlotOf, DefaultBoot;
      two := two[id := BLANK];
      if cut {
        return PowerCut;
      }
      two := two[id := Entry(num, state, dev.crc(num))];
      return Ok;
    }

    /**
     * Makes p the partition to boot.  For a slot this works exactly if the slot is settable; a
     * power cut on the way leaves the old choice.  The test partition counts as slot 0.  For the
     * factory partition `FactoryCut` says what a power cut can do.
     */
    method SetBootPartition(dev: Device, p: Partition, cut: bool) returns (r: Err)
      requires |two| == 2 && WellFormed(dev)
      modifies this
      ensures |two| == 2
      ensures r == ValidateFailed <==> !dev.imageOk(p)
      ensures r == InvalidArg <==> dev.imageOk(p) && p != Factory && SubTypeId(p) >= AppCount(dev)
      ensures r == Hangs <==> && dev.imageOk(p) && p != Factory && SubTypeId(p) < AppCount(dev)
                              && Stuck(dev, old(two), SubTypeId(p))
      ensures r in {ValidateFailed, InvalidArg, Hangs} ==> two == old(two)
      ensures r !in {ValidateFailed, InvalidArg, Hangs} ==> r == if cut then PowerCut else Ok
      ensures r == PowerCut && p == Factory ==> two == [BLANK, old(two[1])]
      ensures r == PowerCut && p != Factory ==>
                && two == old(two)[TargetCopy(dev, old(two)) := BLANK]
                && BootPartition(dev, two) == old(BootPartition(dev, two))
      ensures r == Ok && p == Factory ==> two == [BLANK, BLANK] && BootPartition(dev, two) == DefaultBoot(dev)
      ensures r == Ok && p != Factory ==>
                && SetSeq(dev, old(two), SubTypeId(p)).Some?
                && two == Written(dev, old(two), SetSeq(dev, old(two), SubTypeId(p)).value)
                && (Settable(dev, old(two), SubTypeId(p)) <==>
                    BootPartition(dev, two) == Some(Ota(SubTypeId(p))))
    {
      hide NextFor, SlotOf, SearchFrom, BootPartition, Settable, Stuck;
      if !dev.imageOk(p) {
        return ValidateFailed;
      }
      if p == Factory {
        two := two[0 := BLANK];
        if cut {
          return PowerCut;
        }
        two := two[1 := BLANK];
        BlankBoots(dev, two);
        return Ok;
      }
      var count := GetAppPartitionCount(dev);
      var slot := SubTypeId(p);
      if slot >= count {
        return InvalidArg;
      }
      var state := if dev.rollbackEnabled then New else Undefined;
      var a := Active(dev, two);
      var num := Some(slot + 1);
      if a != -1 {
        num := FindNext32(two[a].otaSeq, slot, count);
      }
      SetSeqStuck(dev, two, slot);
      if num == None {
        return Hangs;
      }
      BootAfterSet(dev, two, slot, num.value);
      ghost var was := two;
      r := RewriteSeq(dev, num.value, if a == -1 then 0 else 1 - a, state, cut);
      assert !cut ==> two == Written(dev, was, num.value);
      assert cut ==> two == was[TargetCopy(dev, was) := BLANK];
    }

    /**
     * Marks the running application as working, or gives it up and arranges a rollback.  A power
     * cut on the way has the effect of giving it up in either case, and `SameAgain` says exactly when
     * that makes no difference.
     */
    method CurrentIsWorkable(dev: Device, valid: bool, cut: bool) returns (r: Err)
      requires |two| == 2
      modifies this
      ensures |two| == 2
      ensures r == Fail <==> old(Active(dev, two) == -1) || AppCount(dev) == 0
      ensures r == Fail || r == RollbackFailed ==> two == old(two)
      ensures r == RollbackFailed <==> r != Fail && !valid && !old(SomewhereToGo(dev, two))
      ensures r == PowerCut <==> cut && r != Fail && r != RollbackFailed &&
                                 !(valid && old(two[Active(dev, two)].state) == ImgState.Valid)
      ensures r in {Fail, RollbackFailed, PowerCut, Ok}
      ensures r == PowerCut ==>
                && two == old(two)[old(Active(dev, two)) := BLANK]
                && BootPartition(dev, two) == BootPartition(dev, GivenUp(dev, old(two)))
                && (BootPartition(dev, two) == old(BootPartition(dev, two)) <==> SameAgain(dev, old(two)))
      ensures valid && r != PowerCut ==> BootPartition(dev, two) == old(BootPartition(dev, two))
      ensures valid && r == Ok ==>
                var a := old(Active(dev, two));
                && two[1 - a] == old(two[1 - a])
                && two[a] == Entry(old(two[a].otaSeq), ImgState.Valid, dev.crc(old(two[a].otaSeq)))
      ensures !valid && r == Ok ==> two == GivenUp(dev, old(two))
      ensures !valid && (r == Ok || r == PowerCut) ==>
                && BootPartition(dev, two).Some?
                && Has(dev, BootPartition(dev, two).value) && dev.imageOk(BootPartition(dev, two).value)
    {
      hide SlotOf, DefaultBoot, SameAgain, SomewhereToGo;
      var a := Active(dev, two);
      var count := GetAppPartitionCount(dev);
      if a == -1 || count == 0 {
        return Fail;
      }
      ghost var was := two;
      RollbackLeaves(dev, two);
      RollbackIff(dev, two);
      if valid && two[a].state != ImgState.Valid {
        r := RewriteSeq(dev, two[a].otaSeq, a, ImgState.Valid, cut);
        assert cut ==> two == was[a := BLANK];
        return;
      } else if !valid {
        if !RollbackPossible(dev, two) {
          return RollbackFailed;
        }
        RollbackBoots(dev, two);
        r := RewriteSeq(dev, two[a].otaSeq, a, Invalid, cut);
        assert !cut ==> two == GivenUp(dev, was);
        assert cut ==> two == was[a := BLANK];
        return;
      }
      return Ok;
    }
  }

  lemma BlankBoots(dev: Device, two: seq<Entry>)
    requires two == [BLANK, BLANK]
    ensures BootPartition(dev, two) == DefaultBoot(dev)
  {
  }

  /** A number that fits 32 bits is always found. */
  lemma FitsNotStuck(dev: Device, two: seq<Entry>, slot: nat)
    requires |two| == 2 && WellFormed(dev) && slot < AppCount(dev) && TargetSeq(dev, two, slot) < U32
    ensures !Stuck(dev, two, slot) && SetSeq(dev, two, slot) == Some(TargetSeq(dev, two, slot))
  {
    hide SetSeq, Stuck;
    SetSeqFits(dev, two, slot);
    SetSeqStuck(dev, two, slot);
  }

  /**
   * Setting partitions one after another: `took` says of each call whether its slot could be set.
   * After one that took, its slot is the one booted; and with numbers from 1 on, all calls for
   * existing slots with good images take until the numbers get near the empty marker.
   */
  method SetSlots(d: OtaData, dev: Device, ks: seq<nat>) returns (took: seq<bool>)
    requires |d.two| == 2 && WellFormed(dev)
    modifies d
    ensures |d.two| == 2 && |took| == |ks|
    ensures ks == [] ==> d.two == old(d.two)
    ensures ks != [] && took[|ks| - 1] ==> BootPartition(dev, d.two) == Some(Ota(ks[|ks| - 1]))
    ensures old(Positive(dev, d.two)) && old(BaseSeq(dev, d.two)) + 16 * (|ks| + 1) < UINT32_MAX ==>
              forall i :: 0 <= i < |ks| && ks[i] < AppCount(dev) && dev.imageOk(Ota(ks[i])) ==> took[i]
  {
    hide NextFor, SlotOf, SearchFrom, BootPartition, Settable, Written, Positive, BaseSeq, TargetSeq, SetSeq, Stuck;
    took := [];
    ghost var room := Positive(dev, d.two) && BaseSeq(dev, d.two) + 16 * (|ks| + 1) < UINT32_MAX;
    for i := 0 to |ks|
      invariant |d.two| == 2 && |took| == i
      invariant i == 0 ==> d.two == old(d.two)
      invariant i > 0 && took[i - 1] ==> BootPartition(dev, d.two) == Some(Ota(ks[i - 1]))
      invariant room ==>
                  && Positive(dev, d.two)
                  && BaseSeq(dev, d.two) + 16 * (|ks| - i + 1) < UINT32_MAX
                  && forall j :: 0 <= j < i && ks[j] < AppCount(dev) && dev.imageOk(Ota(ks[j])) ==> took[j]
    {
      var fits := ks[i] < AppCount(dev) && Settable(dev, d.two, ks[i]);
      ghost var slot := SubTypeId(Ota(ks[i]));
      if room && slot < AppCount(dev) {
        SetKeepsPositive(dev, d.two, slot);
        PositiveIsSettable(dev, d.two, slot);
        FitsNotStuck(dev, d.two, slot);
      }
      var r := d.SetBootPartition(dev, Ota(ks[i]), false);
      took := took + [r == Ok && fits];
    }
  }

  lemma SetKeepsPositive(dev: Device, two: seq<Entry>, slot: nat)
    requires |two| == 2 && WellFormed(dev) && Positive(dev, two) && slot < AppCount(dev)
    requires BaseSeq(dev, two) + 16 < UINT32_MAX
    ensures TargetSeq(dev, two, slot) <= BaseSeq(dev, two) + 16
    ensures Positive(dev, Written(dev, two, TargetSeq(dev, two, slot)))
    ensures BaseSeq(dev, Written(dev, two, TargetSeq(dev, two, slot))) <= BaseSeq(dev, two) + 16
  {
    hide NextFor;
    var a := Active(dev, two);
    if a != -1 {
      NextForSpec(two[a].otaSeq, slot, AppCount(dev));
    }
  }
}
