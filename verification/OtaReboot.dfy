/**
 * The bootloader's side of an update with rollback enabled, over any number of
 * reboots: a new application is booted once on trial; it is kept if it confirms
 * itself and abandoned at the next boot if it does not.
 */
module OtaReboot {
  import opened Arith
  import opened Common
  import opened OtaBoot

  datatype Choice = BootFactory | BootSlot(slot: nat)

  /**
   * The bootloader's number of slots: all that are in the table, where the application counts only
   * those without a gap from slot 0 on.
   */
  function SlotCount(dev: Device): nat { |dev.slots| }

  predicate GapFree(dev: Device) { SlotCount(dev) == AppCount(dev) }

  function UpTo(n: nat): (s: set<nat>)
    ensures |s| == n && forall k :: k in s <==> 0 <= k < n
  {
    if n == 0 then {} else UpTo(n - 1) + {n - 1}
  }

  /** The bootloader never counts fewer, and as many exactly if the slots are 0, 1, 2, ... */
  lemma CountsAgree(dev: Device)
    ensures AppCount(dev) <= SlotCount(dev)
    ensures GapFree(dev) <==> dev.slots == UpTo(AppCount(dev))
  {
    hide UpTo, AppCount;
    var front := UpTo(AppCount(dev));
    assert dev.slots == front + (dev.slots - front);
    assert |dev.slots| == |front| + |dev.slots - front|;
    assert |dev.slots - front| == 0 ==> dev.slots - front == {};
  }

  /** A trial that was never confirmed is over. */
  function AbortPending(e: Entry): Entry {
    if e.state == PendingVerify then e.(state := Aborted) else e
  }

  /** Selecting the partition at reset, with the select entries as they are left in flash. */
  function Select(dev: Device, two: seq<Entry>): (r: (Choice, seq<Entry>))
    requires |two| == 2
    ensures |r.1| == 2
  {
    var t := if dev.rollbackEnabled then [AbortPending(two[0]), AbortPending(two[1])] else two;
    if (SelectInvalid(t[0]) && SelectInvalid(t[1])) || SlotCount(dev) == 0 then
      (if dev.factory then BootFactory else BootSlot(0), t)
    else
      var a := Active(dev, t);
      if a == -1 then (BootFactory, t)
      else
        (BootSlot(SlotOf(t[a].otaSeq, SlotCount(dev))),
         if dev.rollbackEnabled && t[a].state == New then t[a := t[a].(state := PendingVerify)] else t)
  }

  /** The same with the writes in place, sector by sector, as the bootloader makes them. */
  method SelectInPlace(dev: Device, two: array<Entry>) returns (choice: Choice)
    requires two.Length == 2
    modifies two
    ensures (choice, two[..]) == Select(dev, old(two[..]))
  {
    hide SlotOf, SlotCount, Active;
    ghost var was := two[..];
    if dev.rollbackEnabled {
      for i := 0 to 2
        invariant forall j :: 0 <= j < 2 ==> two[j] == if j < i then AbortPending(was[j]) else was[j]
      {
        if two[i].state == PendingVerify {
          two[i] := two[i].(state := Aborted);
        }
      }
      assert two[..] == [AbortPending(was[0]), AbortPending(was[1])];
    }
    ghost var mid := two[..];
    if (SelectInvalid(two[0]) && SelectInvalid(two[1])) || SlotCount(dev) == 0 {
      choice := if dev.factory then BootFactory else BootSlot(0);
    } else {
      var a := Active(dev, two[..]);
      if a == -1 {
        choice := BootFactory;
      } else {
        choice := BootSlot(SlotOf(two[a].otaSeq, SlotCount(dev)));
        if dev.rollbackEnabled && two[a].state == New {
          two[a] := two[a].(state := PendingVerify);
          assert two[..] == mid[a := mid[a].(state := PendingVerify)];
        }
      }
    }
  }

  /** The choice made at the n-th reset from now on. */
  function NthBoot(dev: Device, two: seq<Entry>, n: nat): Choice
    requires |two| == 2
    decreases n
  {
    if n == 0 then Select(dev, two).0 else NthBoot(dev, Select(dev, two).1, n - 1)
  }

  /** Entries that a reset leaves alone decide every reset to come. */
  lemma {:induction false} Stable(dev: Device, two: seq<Entry>, n: nat)
    requires |two| == 2 && Select(dev, two).1 == two
    ensures NthBoot(dev, two, n) == Select(dev, two).0
  {
    hide Select;
    if n > 0 {
      Stable(dev, two, n - 1);
    }
  }

  /**
   * The application in use before the update is not itself on trial.  Without an active copy, as on
   * a device fresh from the factory, only the copy that the update leaves alone matters.
   */
  predicate Confirmed(dev: Device, two: seq<Entry>)
    requires |two| == 2
  {
    var a := Active(dev, two);
    if a == -1 then two[1].state != PendingVerify
    else two[a].state != New && two[a].state != PendingVerify
  }

  /** What the update leaves behind: the old copy, and the new one on trial. */
  function OnTrial(dev: Device, two: seq<Entry>, slot: nat): (r: seq<Entry>)
    requires |two| == 2 && slot < AppCount(dev) && TargetSeq(dev, two, slot) < U32
    ensures |r| == 2
  {
    var c := TargetCopy(dev, two);
    var num := TargetSeq(dev, two, slot);
    two[c := Entry(num, PendingVerify, dev.crc(num))]
  }

  /** A different slot gets a higher number. */
  lemma HigherNumber(dev: Device, two: seq<Entry>, slot: nat)
    requires |two| == 2 && WellFormed(dev) && slot < AppCount(dev) && Positive(dev, two)
    requires var a := Active(dev, two); a != -1 && SlotOf(two[a].otaSeq, AppCount(dev)) != slot
    ensures TargetSeq(dev, two, slot) > two[Active(dev, two)].otaSeq
  {
    hide NextFor, SlotOf;
    var a := Active(dev, two);
    NextForSpec(two[a].otaSeq, slot, AppCount(dev));
    if TargetSeq(dev, two, slot) == two[a].otaSeq {
      SlotOfNext(two[a].otaSeq, slot, AppCount(dev));
    }
  }

  /** The update's premises: another slot than the one in use, and a number that can be written. */
  predicate Update(dev: Device, two: seq<Entry>, slot: nat)
    requires |two| == 2
  {
    && WellFormed(dev) && dev.rollbackEnabled
    && slot < AppCount(dev)
    && Positive(dev, two)
    && Confirmed(dev, two)
    && (Active(dev, two) != -1 ==> SlotOf(two[Active(dev, two)].otaSeq, AppCount(dev)) != slot)
    && TargetSeq(dev, two, slot) < UINT32_MAX
  }

  /** What the bootloader takes the update's number for. */
  function Booted(dev: Device, two: seq<Entry>, slot: nat): nat
    requires |two| == 2 && Update(dev, two, slot)
  {
    CountsAgree(dev);
    SlotOf(TargetSeq(dev, two, slot), SlotCount(dev))
  }

  /** It is the slot updated if the table has no gaps, or if the number is small. */
  lemma BootedSlot(dev: Device, two: seq<Entry>, slot: nat)
    requires |two| == 2 && Update(dev, two, slot)
    ensures GapFree(dev) || TargetSeq(dev, two, slot) <= AppCount(dev) ==> Booted(dev, two, slot) == slot
  {
    hide NextFor, SlotOf, AppCount, SlotCount;
    var num := TargetSeq(dev, two, slot);
    CountsAgree(dev);
    NewDecides(dev, two, slot, New);
    PositiveIsSettable(dev, two, slot);
    if num <= AppCount(dev) {
      SmallNumber(num, AppCount(dev));
      SmallNumber(num, SlotCount(dev));
    }
  }

  lemma SmallNumber(num: u32, count: nat)
    requires 1 <= num <= count
    ensures SlotOf(num, count) == num - 1
  {
    DivUnique(num - 1, count, 0, num - 1);
  }

  /**
   * The first reset after the update boots the slot that the bootloader reads from the number, on
   * trial; without gaps in the table it is the slot updated.
   */
  lemma FirstBoot(dev: Device, two: seq<Entry>, slot: nat)
    requires |two| == 2 && Update(dev, two, slot)
    ensures Select(dev, Written(dev, two, TargetSeq(dev, two, slot))) ==
            (BootSlot(Booted(dev, two, slot)), OnTrial(dev, two, slot))
    ensures GapFree(dev) ==> Booted(dev, two, slot) == slot
  {
    hide NextFor, SlotOf, AppCount, SlotCount;
    var c, num := TargetCopy(dev, two), TargetSeq(dev, two, slot);
    NewDecides(dev, two, slot, New);
    BootedSlot(dev, two, slot);
    CountsAgree(dev);
    var w := Written(dev, two, num);
    assert [AbortPending(w[0]), AbortPending(w[1])] == w;
    assert w[c := w[c].(state := PendingVerify)] == OnTrial(dev, two, slot);
  }

  /** The copy written decides, whatever good state it is in, and the other one is not on trial. */
  lemma NewDecides(dev: Device, two: seq<Entry>, slot: nat, state: ImgState)
    requires |two| == 2 && Update(dev, two, slot) && !BadState(state)
    ensures var c, num := TargetCopy(dev, two), TargetSeq(dev, two, slot);
            && AbortPending(two[1 - c]) == two[1 - c]
            && num < UINT32_MAX && SlotOf(num, AppCount(dev)) == slot
            && Active(dev, two[c := Entry(num, state, dev.crc(num))]) == c
  {
    hide NextFor, SlotOf, AppCount;
    var a, c, num := Active(dev, two), TargetCopy(dev, two), TargetSeq(dev, two, slot);
    if a != -1 {
      HigherNumber(dev, two, slot);
      NextForSpec(two[a].otaSeq, slot, AppCount(dev));
    }
    SlotOfNext(num, slot, AppCount(dev));
    var w := two[c := Entry(num, state, dev.crc(num))];
    assert w[1 - c] == two[1 - c] && SelectValid(dev, w[c]);
  }

  /** An application that confirms itself is what every reset boots from then on. */
  lemma ConfirmedStays(dev: Device, two: seq<Entry>, slot: nat, n: nat)
    requires |two| == 2 && Update(dev, two, slot)
    ensures var c := TargetCopy(dev, two);
            var t := OnTrial(dev, two, slot);
            && Active(dev, t) == c
            && NthBoot(dev, t[c := t[c].(state := Valid)], n) == BootSlot(Booted(dev, two, slot))
    ensures GapFree(dev) ==> Booted(dev, two, slot) == slot
  {
    hide NextFor, SlotOf, AppCount, SlotCount;
    BootedSlot(dev, two, slot);
    CountsAgree(dev);
    var c := TargetCopy(dev, two);
    var t := OnTrial(dev, two, slot);
    var v := t[c := t[c].(state := Valid)];
    NewDecides(dev, two, slot, PendingVerify);
    NewDecides(dev, two, slot, Valid);
    assert v == two[c := Entry(t[c].otaSeq, Valid, t[c].crc)];
    assert [AbortPending(v[0]), AbortPending(v[1])] == v;
    Stable(dev, v, n);
  }

  /**
   * One that does not is abandoned: every later reset makes the choice that was made before the
   * update.  The exception is a device without active copy and factory partition whose first copy
   * had a bad checksum while the second was empty or given up.
   */
  lemma UnconfirmedRollsBack(dev: Device, two: seq<Entry>, slot: nat, n: nat)
    requires |two| == 2 && Update(dev, two, slot)
    ensures NthBoot(dev, OnTrial(dev, two, slot), n) == Select(dev, two).0 <==>
            Active(dev, two) != -1 || dev.factory || SelectInvalid(AbortPending(two[0])) || !SelectInvalid(two[1])
    ensures Active(dev, two) != -1 ==>
              && SlotCount(dev) > 0
              && NthBoot(dev, OnTrial(dev, two, slot), n) ==
                 BootSlot(SlotOf(two[Active(dev, two)].otaSeq, SlotCount(dev)))
  {
    hide NextFor, SlotOf, AppCount, SlotCount;
    CountsAgree(dev);
    var c := TargetCopy(dev, two);
    var t := OnTrial(dev, two, slot);
    var u := t[c := t[c].(state := Aborted)];
    assert u[1 - c] == two[1 - c] && AbortPending(u[1 - c]) == u[1 - c];
    assert [AbortPending(t[0]), AbortPending(t[1])] == u;
    assert [AbortPending(u[0]), AbortPending(u[1])] == u;
    assert Select(dev, t) == Select(dev, u) && Select(dev, u).1 == u;
    Stable(dev, u, n);
    SameFirst(dev, t, u, n);
    AbortedChoice(dev, two, u);
  }

  /** With the copy written aborted, the choice is the one before the update, but for one case. */
  lemma AbortedChoice(dev: Device, two: seq<Entry>, u: seq<Entry>)
    requires |two| == |u| == 2 && dev.rollbackEnabled && SlotCount(dev) > 0 && Confirmed(dev, two)
    requires var c := TargetCopy(dev, two); BadState(u[c].state) && u[1 - c] == two[1 - c]
    ensures Select(dev, u).0 == Select(dev, two).0 <==>
            Active(dev, two) != -1 || dev.factory || SelectInvalid(AbortPending(two[0])) || !SelectInvalid(two[1])
    ensures Active(dev, two) != -1 ==>
              Select(dev, two).0 == BootSlot(SlotOf(two[Active(dev, two)].otaSeq, SlotCount(dev)))
  {
    hide SlotOf, SlotCount;
    var c := TargetCopy(dev, two);
    var t := [AbortPending(two[0]), AbortPending(two[1])];
    assert t[1 - c] == two[1 - c];
    assert [AbortPending(u[0]), AbortPending(u[1])] == u;
  }

  lemma SameFirst(dev: Device, t: seq<Entry>, u: seq<Entry>, n: nat)
    requires |t| == 2 && |u| == 2 && Select(dev, t) == Select(dev, u)
    ensures NthBoot(dev, t, n) == NthBoot(dev, u, n)
  {
    hide Select;
  }

  function Chosen(c: Choice): Partition {
    match c
    case BootFactory => Factory
    case BootSlot(k) => Ota(k)
  }

  /**
   * The application asks for the boot partition after a reset and is told what the bootloader chose,
   * exactly in these cases.  With a valid copy: its number names the same slot under either count,
   * or the application, finding no slot 0, takes a default that happens to be it.  Without one:
   * there is a factory partition, or a slot 0 and empty copies.
   */
  predicate Agreeing(dev: Device, left: seq<Entry>)
    requires |left| == 2
  {
    var n, a := AppCount(dev), Active(dev, left);
    if a != -1 && SlotCount(dev) > 0 then
      var booted := SlotOf(left[a].otaSeq, SlotCount(dev));
      if n > 0 then SlotOf(left[a].otaSeq, n) == booted else DefaultBoot(dev) == Some(Ota(booted))
    else
      dev.factory || (n > 0 && SelectInvalid(left[0]) && SelectInvalid(left[1]))
  }

  lemma AgreesWithApp(dev: Device, two: seq<Entry>)
    requires |two| == 2
    ensures var (choice, left) := Select(dev, two);
            BootPartition(dev, left) == Some(Chosen(choice)) <==> Agreeing(dev, left)
    ensures GapFree(dev) ==> var left := Select(dev, two).1;
              Agreeing(dev, left) <==>
              || dev.factory
              || (AppCount(dev) > 0 && ((SelectInvalid(left[0]) && SelectInvalid(left[1])) || Active(dev, left) != -1))
  {
    hide SlotOf, DefaultBoot, SlotCount, AppCount, Select, Active;
    SelectAsLeft(dev, two);
    CountsAgree(dev);
    DefaultIsSlot0(dev);
  }

  /** The choice can be read off the entries as they are left. */
  lemma SelectAsLeft(dev: Device, two: seq<Entry>)
    requires |two| == 2
    ensures var (choice, left) := Select(dev, two);
            choice ==
            if (SelectInvalid(left[0]) && SelectInvalid(left[1])) || SlotCount(dev) == 0 then
              if dev.factory then BootFactory else BootSlot(0)
            else if Active(dev, left) == -1 then BootFactory
            else BootSlot(SlotOf(left[Active(dev, left)].otaSeq, SlotCount(dev)))
    ensures var left := Select(dev, two).1;
            SelectInvalid(left[0]) && SelectInvalid(left[1]) ==> Active(dev, left) == -1
  {
    hide SlotOf, SlotCount;
    var t := if dev.rollbackEnabled then [AbortPending(two[0]), AbortPending(two[1])] else two;
    var left := Select(dev, two).1;
    assert forall i :: 0 <= i < 2 ==> left[i].otaSeq == t[i].otaSeq && left[i].crc == t[i].crc
                                      && (BadState(left[i].state) <==> BadState(t[i].state));
    assert Active(dev, left) == Active(dev, t);
  }

  lemma DefaultIsSlot0(dev: Device)
    ensures AppCount(dev) > 0 && !dev.factory ==> DefaultBoot(dev) == Some(Ota(0))
    ensures AppCount(dev) == 0 ==> DefaultBoot(dev) != Some(Ota(0))
    ensures DefaultBoot(dev) == Some(Factory) <==> dev.factory
  {
    assert AppCount(dev) > 0 <==> 0 in dev.slots;
  }

  /**
   * A table with a gap, slots 0, 1 and 3, and slot 1 in use.  The update of slot 0 writes number 3;
   * the bootloader reads from it slot 2, which is not in the table, and the application slot 0.
   */
  lemma GapExample(dev: Device)
    requires dev.slots == {0, 1, 3} && dev.rollbackEnabled
    ensures var two := [Entry(1, Valid, dev.crc(1)), Entry(2, Valid, dev.crc(2))];
            && WellFormed(dev) && AppCount(dev) == 2 && SlotCount(dev) == 3
            && Update(dev, two, 0) && TargetSeq(dev, two, 0) == 3
            && Select(dev, Written(dev, two, 3)).0 == BootSlot(2)
            && BootPartition(dev, Select(dev, Written(dev, two, 3)).1) == Some(Ota(0))
  {
    var two := [Entry(1, Valid, dev.crc(1)), Entry(2, Valid, dev.crc(2))];
    assert AppCount(dev) == 2 by {
      var n := AppCount(dev);
      assert n !in {0, 1, 3} && 2 !in dev.slots;
    }
    FirstBoot(dev, two, 0);
    assert Active(dev, OnTrial(dev, two, 0)) == 0;
  }

  /** A bad checksum and no factory partition: the bootloader looks for one, the application names slot 0. */
  lemma DisagreeExample(dev: Device, bad: u32)
    requires dev.slots == {0} && !dev.factory && bad != dev.crc(1)
    ensures var two := [Entry(1, Valid, bad), BLANK];
            Select(dev, two) == (BootFactory, two) && BootPartition(dev, two) == Some(Ota(0))
  {
    var two := [Entry(1, Valid, bad), BLANK];
    assert [AbortPending(two[0]), AbortPending(two[1])] == two;
    assert AppCount(dev) == 1 by {
      var n := AppCount(dev);
      assert n !in {0} && 1 !in dev.slots;
    }
  }

  /** The exception to the rollback: the bootloader looked for a factory partition and now takes slot 0. */
  lemma RollsElsewhereExample(dev: Device, bad: u32, n: nat)
    requires dev.slots == {0, 1} && !dev.factory && dev.rollbackEnabled && bad != dev.crc(1)
    ensures var two := [Entry(1, Valid, bad), BLANK];
            && WellFormed(dev) && AppCount(dev) == 2 && Update(dev, two, 0)
            && NthBoot(dev, OnTrial(dev, two, 0), n) != Select(dev, two).0
  {
    var two := [Entry(1, Valid, bad), BLANK];
    assert AppCount(dev) == 2 by {
      var n := AppCount(dev);
      assert n !in {0, 1} && 2 !in dev.slots;
    }
    UnconfirmedRollsBack(dev, two, 0, n);
  }
}
