/**
 * The host-side tool that switches the boot slot by patching an image of the
 * select entries, compared with what the device does.
 */
module OtaTool {
  import opened Common
  import opened OtaBoot

  /** The tool looks at number and checksum only, never at the image state. */
  predicate InfoValid(dev: Device, e: Entry) {
    e.otaSeq < UINT32_MAX && e.crc == dev.crc(e.otaSeq)
  }

  /** The copy the tool starts from, or -1. */
  function ComputeBase(dev: Device, two: seq<Entry>): (b: int)
    requires |two| == 2
    ensures -1 <= b < 2
    ensures b >= 0 ==> InfoValid(dev, two[b])
  {
    var v0, v1 := InfoValid(dev, two[0]), InfoValid(dev, two[1]);
    if v0 && v1 then if two[0].otaSeq >= two[1].otaSeq then 0 else 1
    else if v0 then 0
    else if v1 then 1
    else -1
  }

  function ToolSeq(dev: Device, two: seq<Entry>, slot: nat, count: nat): nat
    requires |two| == 2 && slot < count
  {
    var b := ComputeBase(dev, two);
    if b == -1 then slot + 1 else NextFor(two[b].otaSeq, slot, count)
  }

  function ToolCopy(dev: Device, two: seq<Entry>): nat
    requires |two| == 2
  {
    if ComputeBase(dev, two) == 0 then 1 else 0
  }

  /** The same search, in unbounded arithmetic; the packed number must fit 32 bits, or the tool raises an error. */
  method SwitchOtaPartition(dev: Device, two: seq<Entry>, slot: nat) returns (r: Option<seq<Entry>>)
    requires |two| == 2 && slot < AppCount(dev)
    ensures r.Some? <==> ToolSeq(dev, two, slot, AppCount(dev)) < U32
    ensures r.Some? ==> r.value == Patched(dev, two, ToolSeq(dev, two, slot, AppCount(dev)))
  {
    hide NextFor;
    var count := GetAppPartitionCount(dev);
    var base := ComputeBase(dev, two);
    var num := slot + 1;
    if base != -1 {
      num := FindNext(two[base].otaSeq, slot, count);
    }
    if num >= U32 {
      return None;
    }
    var c := if base == 0 then 1 else 0;
    return Some(two[c := Entry(num, two[c].state, dev.crc(num))]);
  }

  /** Two sets of copies that differ in the image states only. */
  predicate SameButStates(two: seq<Entry>, other: seq<Entry>) {
    && |two| == |other| == 2
    && forall i :: 0 <= i < 2 ==> two[i].otaSeq == other[i].otaSeq && two[i].crc == other[i].crc
  }

  /** The image states do not influence what the tool does. */
  lemma StatesIgnored(dev: Device, two: seq<Entry>, other: seq<Entry>, slot: nat, count: nat)
    requires SameButStates(two, other) && slot < count
    ensures ComputeBase(dev, two) == ComputeBase(dev, other) && ToolCopy(dev, two) == ToolCopy(dev, other)
    ensures ToolSeq(dev, two, slot, count) == ToolSeq(dev, other, slot, count)
  {
    hide NextFor;
  }

  /** The tool starts from the copy in use exactly if its own choice is not marked invalid or aborted. */
  lemma BaseIsActive(dev: Device, two: seq<Entry>)
    requires |two| == 2
    ensures var b := ComputeBase(dev, two);
            b == Active(dev, two) <==> b == -1 || !BadState(two[b].state)
  {
  }

  /** Then tool and device agree on the number and on the copy they overwrite. */
  lemma SameAsDevice(dev: Device, two: seq<Entry>, slot: nat)
    requires |two| == 2 && slot < AppCount(dev)
    requires var b := ComputeBase(dev, two); b == -1 || !BadState(two[b].state)
    ensures ToolSeq(dev, two, slot, AppCount(dev)) == TargetSeq(dev, two, slot)
    ensures ToolCopy(dev, two) == TargetCopy(dev, two)
  {
    hide NextFor;
    BaseIsActive(dev, two);
  }

  /** The copies as the tool leaves them. */
  function Patched(dev: Device, two: seq<Entry>, num: u32): (r: seq<Entry>)
    requires |two| == 2
    ensures |r| == 2
  {
    var c := ToolCopy(dev, two);
    two[c := Entry(num, two[c].state, dev.crc(num))]
  }

  /**
   * Whether the device follows the tool, for all copies.  With a good state on the patched copy it
   * does, up to the two numbers the device reads differently; with a bad one the copy is ignored,
   * and what the device boots anyway has to be the slot by chance: the base if that is good, or else
   * slot 0 for want of a factory partition.
   */
  lemma DeviceFollows(dev: Device, two: seq<Entry>, slot: nat)
    requires |two| == 2 && slot < AppCount(dev)
    requires ToolSeq(dev, two, slot, AppCount(dev)) < U32
    ensures var b, c, n := ComputeBase(dev, two), ToolCopy(dev, two), AppCount(dev);
            var num := ToolSeq(dev, two, slot, n);
            BootPartition(dev, Patched(dev, two, num)) == Some(Ota(slot)) <==>
            if !BadState(two[c].state) && num != UINT32_MAX then num == 0 ==> U32 % n == 0
            else if b != -1 && !BadState(two[b].state) then SlotOf(two[b].otaSeq, n) == slot
            else !dev.factory && slot == 0
  {
    hide NextFor, SlotOf, DefaultBoot, FirstSlot;
    var b, c, n := ComputeBase(dev, two), ToolCopy(dev, two), AppCount(dev);
    var num := ToolSeq(dev, two, slot, n);
    if b != -1 {
      NextForSpec(two[b].otaSeq, slot, n);
    }
    SlotOfNext(num, slot, n);
    FirstOfSlots(dev);
    PatchedBoots(dev, two, num);
  }

  /** What the device boots after a number not below the base's has been patched in. */
  lemma PatchedBoots(dev: Device, two: seq<Entry>, num: u32)
    requires |two| == 2 && AppCount(dev) > 0
    requires var b := ComputeBase(dev, two); b != -1 ==> two[b].otaSeq <= num
    ensures var b, c, n := ComputeBase(dev, two), ToolCopy(dev, two), AppCount(dev);
            BootPartition(dev, Patched(dev, two, num)) ==
            if !BadState(two[c].state) && num != UINT32_MAX then Some(Ota(SlotOf(num, n)))
            else if b != -1 && !BadState(two[b].state) then Some(Ota(SlotOf(two[b].otaSeq, n)))
            else DefaultBoot(dev)
  {
    hide SlotOf, DefaultBoot;
    var b, c, after := ComputeBase(dev, two), ToolCopy(dev, two), Patched(dev, two, num);
    assert after[1 - c] == two[1 - c];
    assert SelectValid(dev, after[c]) <==> !BadState(two[c].state) && num != UINT32_MAX;
    assert SelectValid(dev, after[1 - c]) <==> b != -1 && !BadState(two[b].state);
  }

  lemma FirstOfSlots(dev: Device)
    requires AppCount(dev) > 0
    ensures DefaultBoot(dev) == if dev.factory then Some(Factory) else Some(Ota(0))
  {
    assert 0 in dev.slots;
  }

  /**
   * The device can ignore the tool: of two slots, the copy numbered 1 was aborted and the one
   * numbered 2 is in use.  Asked for slot 0, the tool numbers the aborted copy 3, and slot 1 stays.
   */
  lemma IgnoredExample(dev: Device)
    requires dev.slots == {0, 1}
    ensures var two := [Entry(1, Aborted, dev.crc(1)), Entry(2, Valid, dev.crc(2))];
            && AppCount(dev) == 2 && ToolSeq(dev, two, 0, 2) == 3 && ToolCopy(dev, two) == 0
            && BootPartition(dev, Patched(dev, two, 3)) == Some(Ota(1))
  {
    assert AppCount(dev) == 2 by {
      var n := AppCount(dev);
      assert n !in {0, 1} && 2 !in dev.slots;
    }
    var two := [Entry(1, Aborted, dev.crc(1)), Entry(2, Valid, dev.crc(2))];
    PatchedBoots(dev, two, 3);
  }
}
