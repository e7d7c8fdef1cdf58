/**
 * Whole histories of the two select entries: partitions are set, applications
 * confirm themselves or give up, the device is reset, and power may be lost
 * between the erase and the write of any entry.
 */
module OtaRuns {
  import opened Common
  import opened OtaBoot
  import opened OtaReboot

  datatype Op =
    | Set(p: Partition, cut: bool)          // the application chooses a partition
    | Workable(valid: bool, cut: bool)      // it confirms itself or gives up
    | Reset                                 // the bootloader runs
    | ResetCut(at: nat)                     // power is lost at its write number `at`

  /** The copies after an operation. */
  function Next(dev: Device, two: seq<Entry>, op: Op): (r: seq<Entry>)
    requires |two| == 2 && WellFormed(dev)
    ensures |r| == 2
  {
    match op
    case Set(p, cut) => AfterSet(dev, two, p, cut)
    case Workable(valid, cut) => AfterWorkable(dev, two, valid, cut)
    case Reset => Select(dev, two).1
    case ResetCut(at) => AfterResetCut(dev, two, at)
  }

  function AfterSet(dev: Device, two: seq<Entry>, p: Partition, cut: bool): (r: seq<Entry>)
    requires |two| == 2 && WellFormed(dev)
    ensures |r| == 2
  {
    if !dev.imageOk(p) then two
    else if p == Factory then [BLANK, if cut then two[1] else BLANK]
    else if SubTypeId(p) >= AppCount(dev) || SetSeq(dev, two, SubTypeId(p)) == None then two
    else if cut then two[TargetCopy(dev, two) := BLANK]
    else Written(dev, two, SetSeq(dev, two, SubTypeId(p)).value)
  }

  function AfterWorkable(dev: Device, two: seq<Entry>, valid: bool, cut: bool): (r: seq<Entry>)
    requires |two| == 2
    ensures |r| == 2
  {
    var a := Active(dev, two);
    if a == -1 || AppCount(dev) == 0 then two
    else if (if valid then two[a].state == ImgState.Valid else !RollbackPossible(dev, two)) then two
    else if cut then two[a := BLANK]
    else two[a := Entry(two[a].otaSeq, if valid then ImgState.Valid else Invalid, dev.crc(two[a].otaSeq))]
  }

  /**
   * The bootloader's writes are: 0 and 1, ending the trial of a copy, and 2, starting one.  A write
   * that is not made cannot be cut.
   */
  function AfterResetCut(dev: Device, two: seq<Entry>, at: nat): (r: seq<Entry>)
    requires |two| == 2
    ensures |r| == 2
  {
    var first := [AbortPending(two[0]), two[1]];
    var t := [AbortPending(two[0]), AbortPending(two[1])];
    if !dev.rollbackEnabled then two
    else if at == 0 && two[0].state == PendingVerify then two[0 := BLANK]
    else if at == 1 && two[1].state == PendingVerify then first[1 := BLANK]
    else if at == 2 && Select(dev, two).1 != t then t[Active(dev, t) := BLANK]
    else Select(dev, two).1
  }

  /** The copies after a whole history. */
  function Run(dev: Device, two: seq<Entry>, ops: seq<Op>): (r: seq<Entry>)
    requires |two| == 2 && WellFormed(dev)
    ensures |r| == 2
  {
    if ops == [] then two else Next(dev, Run(dev, two, ops[..|ops| - 1]), ops[|ops| - 1])
  }

  /** The calls in the order of a history, on the copies in flash. */
  method Perform(d: OtaData, dev: Device, ops: seq<Op>)
    requires |d.two| == 2 && WellFormed(dev)
    modifies d
    ensures d.two == Run(dev, old(d.two), ops)
  {
    hide Next;
    for i := 0 to |ops|
      invariant d.two == Run(dev, old(d.two), ops[..i])
    {
      assert ops[..i + 1][..i] == ops[..i];
      PerformOne(d, dev, ops[i]);
    }
    assert ops[..|ops|] == ops;
  }

  method PerformOne(d: OtaData, dev: Device, op: Op)
    requires |d.two| == 2 && WellFormed(dev)
    modifies d
    ensures d.two == Next(dev, old(d.two), op)
  {
    hide SlotOf, BootPartition, Active, Stuck, SetSeq, Settable, SameAgain, RollbackPossible, SomewhereToGo, Select;
    match op {
      case Set(p, cut) =>
        if SubTypeId(p) < AppCount(dev) {
          SetSeqStuck(dev, d.two, SubTypeId(p));
        }
        var _ := d.SetBootPartition(dev, p, cut);
      case Workable(valid, cut) =>
        ghost var was := d.two;
        RollbackIff(dev, d.two);
        var r := d.CurrentIsWorkable(dev, valid, cut);
        assert d.two == AfterWorkable(dev, was, valid, cut);
      case Reset =>
        var sectors := new Entry[2](_ => BLANK);
        sectors[0], sectors[1] := d.two[0], d.two[1];
        assert sectors[..] == d.two;
        var _ := SelectInPlace(dev, sectors);
        d.two := sectors[..];
      case ResetCut(at) =>
        d.two := AfterResetCut(dev, d.two, at);
    }
  }

  // ----- the exact choice after each operation ------------------------------------------

  /** The choice when only copy i can be in use. */
  function WithCopy(dev: Device, two: seq<Entry>, i: nat): Option<Partition>
    requires |two| == 2 && i < 2
  {
    if AppCount(dev) > 0 && SelectValid(dev, two[i]) then Some(Ota(SlotOf(two[i].otaSeq, AppCount(dev))))
    else DefaultBoot(dev)
  }

  /** Without the active copy the other one decides. */
  function Fallback(dev: Device, two: seq<Entry>): Option<Partition>
    requires |two| == 2
  {
    if Active(dev, two) == -1 then DefaultBoot(dev) else WithCopy(dev, two, 1 - Active(dev, two))
  }

  /** The copies once trials that were under way are over. */
  function Ended(dev: Device, two: seq<Entry>): (r: seq<Entry>)
    requires |two| == 2
    ensures |r| == 2
  {
    if dev.rollbackEnabled then [AbortPending(two[0]), AbortPending(two[1])] else two
  }

  /** The active application is on trial. */
  predicate OnTrialNow(dev: Device, two: seq<Entry>)
    requires |two| == 2
  {
    dev.rollbackEnabled && Active(dev, two) != -1 && two[Active(dev, two)].state == PendingVerify
  }

  /** Trials end: the active copy may be out, and then the other one counts unless it is out as well. */
  function AfterTrials(dev: Device, two: seq<Entry>): Option<Partition>
    requires |two| == 2
  {
    if !OnTrialNow(dev, two) then BootPartition(dev, two)
    else if two[1 - Active(dev, two)].state == PendingVerify then DefaultBoot(dev)
    else Fallback(dev, two)
  }

  /** A reset puts an application on trial. */
  predicate StartsTrial(dev: Device, two: seq<Entry>)
    requires |two| == 2
  {
    var t := Ended(dev, two);
    dev.rollbackEnabled && SlotCount(dev) > 0 && Active(dev, t) != -1 && t[Active(dev, t)].state == New
  }

  /**
   * What the application is told after an operation: a partition that was set, the default after the
   * factory was, the other copy's slot after giving up or losing the active copy, and otherwise what
   * it was told before.
   */
  function Choice(dev: Device, two: seq<Entry>, op: Op): Option<Partition>
    requires |two| == 2 && WellFormed(dev)
  {
    var a := Active(dev, two);
    match op
    case Set(p, cut) =>
      if TakesEffect(dev, two, op) then Some(Ota(SubTypeId(p)))
      else if p == Factory && dev.imageOk(p) then if cut then WithCopy(dev, two, 1) else DefaultBoot(dev)
      else BootPartition(dev, two)
    case Workable(valid, cut) =>
      if a != -1 && (if valid then cut && two[a].state != ImgState.Valid else SomewhereToGo(dev, two))
      then Fallback(dev, two) else BootPartition(dev, two)
    case Reset => AfterTrials(dev, two)
    case ResetCut(at) =>
      if at == 0 && dev.rollbackEnabled && two[0].state == PendingVerify then
        if a == 0 then Fallback(dev, two) else BootPartition(dev, two)
      else if at == 2 && StartsTrial(dev, two) then Fallback(dev, Ended(dev, two))
      else AfterTrials(dev, two)
  }

  /** A slot is set: the image is good, the slot exists, and the search for its number ends. */
  predicate TakesEffect(dev: Device, two: seq<Entry>, op: Op)
    requires |two| == 2 && WellFormed(dev)
  {
    && op.Set? && !op.cut && dev.imageOk(op.p) && op.p != Factory
    && SubTypeId(op.p) < AppCount(dev) && !Stuck(dev, two, SubTypeId(op.p))
  }

  lemma OneCopy(dev: Device, two: seq<Entry>, i: nat)
    requires |two| == 2 && i < 2 && !SelectValid(dev, two[1 - i])
    ensures BootPartition(dev, two) == WithCopy(dev, two, i)
  {
    hide SlotOf, DefaultBoot;
  }

  /** A change of state that keeps a copy good or bad does not change the choice. */
  lemma SameNumbers(dev: Device, two: seq<Entry>, t: seq<Entry>)
    requires |two| == |t| == 2
    requires forall i :: 0 <= i < 2 ==> t[i].otaSeq == two[i].otaSeq && t[i].crc == two[i].crc
                                        && (BadState(t[i].state) <==> BadState(two[i].state))
    ensures Active(dev, t) == Active(dev, two) && BootPartition(dev, t) == BootPartition(dev, two)
  {
    hide SlotOf, DefaultBoot;
  }

  lemma TrialsEnd(dev: Device, two: seq<Entry>)
    requires |two| == 2
    ensures BootPartition(dev, Ended(dev, two)) == AfterTrials(dev, two)
  {
    hide SlotOf, DefaultBoot;
  }

  lemma ResetChoice(dev: Device, two: seq<Entry>)
    requires |two| == 2
    ensures Select(dev, two).1 ==
            if StartsTrial(dev, two)
            then Ended(dev, two)[Active(dev, Ended(dev, two)) :=
                                   Ended(dev, two)[Active(dev, Ended(dev, two))].(state := PendingVerify)]
            else Ended(dev, two)
    ensures BootPartition(dev, Select(dev, two).1) == AfterTrials(dev, two)
  {
    hide SlotOf, BootPartition, AfterTrials, SlotCount;
    TrialsEnd(dev, two);
    SameNumbers(dev, Ended(dev, two), Select(dev, two).1);
  }

  lemma ResetCutChoice(dev: Device, two: seq<Entry>, at: nat)
    requires |two| == 2 && WellFormed(dev)
    ensures BootPartition(dev, AfterResetCut(dev, two, at)) == Choice(dev, two, ResetCut(at))
  {
    hide SlotOf, Select, DefaultBoot, SlotCount;
    ResetChoice(dev, two);
    var t := Ended(dev, two);
    if dev.rollbackEnabled {
      if at == 0 && two[0].state == PendingVerify {
        assert AfterResetCut(dev, two, at) == [BLANK, two[1]];
      } else if at == 1 && two[1].state == PendingVerify {
        assert AfterResetCut(dev, two, at) == [AbortPending(two[0]), BLANK];
      } else if at == 2 && StartsTrial(dev, two) {
        assert AfterResetCut(dev, two, at) == t[Active(dev, t) := BLANK];
        OneCopy(dev, t[Active(dev, t) := BLANK], 1 - Active(dev, t));
      }
    }
  }

  lemma WorkableChoice(dev: Device, two: seq<Entry>, valid: bool, cut: bool)
    requires |two| == 2 && WellFormed(dev)
    ensures BootPartition(dev, AfterWorkable(dev, two, valid, cut)) == Choice(dev, two, Workable(valid, cut))
  {
    hide SlotOf, DefaultBoot, RollbackPossible, SomewhereToGo;
    RollbackIff(dev, two);
    var a, t := Active(dev, two), AfterWorkable(dev, two, valid, cut);
    if a != -1 && !SelectValid(dev, t[a]) {
      assert t[1 - a] == two[1 - a];
    }
  }

  lemma SetChoice(dev: Device, two: seq<Entry>, p: Partition, cut: bool)
    requires |two| == 2 && WellFormed(dev)
    ensures BootPartition(dev, AfterSet(dev, two, p, cut)) == Choice(dev, two, Set(p, cut)) <==>
            (TakesEffect(dev, two, Set(p, cut)) ==> Settable(dev, two, SubTypeId(p)))
  {
    hide SlotOf, DefaultBoot, SetSeq, Stuck, Settable;
    if dev.imageOk(p) {
      if p == Factory {
        OneCopy(dev, [BLANK, if cut then two[1] else BLANK], 1);
      } else if SubTypeId(p) < AppCount(dev) {
        SetSeqStuck(dev, two, SubTypeId(p));
        ErasedKeepsBoot(dev, two);
        var num := SetSeq(dev, two, SubTypeId(p));
        if num.Some? {
          BootAfterSet(dev, two, SubTypeId(p), num.value);
        }
      }
    }
  }

  /** After every operation the choice is the one predicted, except where a slot set is not settable. */
  lemma ChoiceAfter(dev: Device, two: seq<Entry>, op: Op)
    requires |two| == 2 && WellFormed(dev)
    ensures BootPartition(dev, Next(dev, two, op)) == Choice(dev, two, op) <==>
            (TakesEffect(dev, two, op) ==> Settable(dev, two, SubTypeId(op.p)))
  {
    hide BootPartition, AfterSet, AfterWorkable, AfterResetCut, Select, Settable, AfterTrials, Fallback, WithCopy, Stuck;
    match op
    case Set(p, cut) => SetChoice(dev, two, p, cut);
    case Workable(valid, cut) => WorkableChoice(dev, two, valid, cut);
    case Reset => ResetChoice(dev, two);
    case ResetCut(at) => ResetCutChoice(dev, two, at);
  }

  // ----- nothing bad is ever booted --------------------------------------------------------

  /**
   * The application is told a partition that exists and holds a good image, and the bootloader would
   * choose such a one as well, at least from a table without gaps.
   */
  predicate BootsGood(dev: Device, two: seq<Entry>)
    requires |two| == 2
  {
    && GoodPart(dev, BootPartition(dev, two))
    && (GapFree(dev) ==> GoodPart(dev, Some(Chosen(Select(dev, two).0))))
  }

  /**
   * A copy is out of use, or intact and names a slot with a good image; its number leaves room for
   * as many more sets.
   */
  predicate Fine(dev: Device, e: Entry, room: nat) {
    || SelectInvalid(e)
    || (&& e.crc == dev.crc(e.otaSeq)
        && 1 <= e.otaSeq && e.otaSeq + 16 * (room + 1) < UINT32_MAX
        && (AppCount(dev) > 0 ==> dev.imageOk(Ota(SlotOf(e.otaSeq, AppCount(dev))))))
  }

  predicate Fit(dev: Device, two: seq<Entry>, room: nat)
    requires |two| == 2
  {
    16 * (room + 2) < UINT32_MAX && Fine(dev, two[0], room) && Fine(dev, two[1], room)
  }

  /** The partition to fall back on, the factory's or slot 0, is good. */
  predicate DefaultGood(dev: Device) {
    WellFormed(dev) && GoodPart(dev, Some(if dev.factory then Factory else Ota(0)))
  }

  /** Partitions are chosen from the table. */
  predicate FromTable(dev: Device, op: Op) { op.Set? ==> Has(dev, op.p) }

  /** The test partition is set, which looks at its image and then boots slot 0, whatever that holds. */
  predicate Harmful(dev: Device, op: Op) {
    op == Set(Test, false) && dev.imageOk(Test) && AppCount(dev) > 0 && !dev.imageOk(Ota(0))
  }

  /** Good copies and a good default are worth that. */
  lemma FitBootsGood(dev: Device, two: seq<Entry>, room: nat)
    requires |two| == 2 && DefaultGood(dev) && Fit(dev, two, room)
    ensures BootsGood(dev, two)
  {
    hide SlotOf, AppCount, SlotCount, DefaultBoot, Select, Active;
    var left := Select(dev, two).1;
    CountsAgree(dev);
    DefaultIsSlot0(dev);
    SlotsExist(dev);
    FitReset(dev, two, room);
    SelectAsLeft(dev, two);
    FitActive(dev, two, room);
    FitActive(dev, left, room);
  }

  lemma SlotsExist(dev: Device)
    ensures forall k: nat :: k < AppCount(dev) ==> k in dev.slots
    ensures 0 in dev.slots ==> AppCount(dev) > 0
  {
  }

  /** Intact copies that count are valid. */
  lemma FitActive(dev: Device, two: seq<Entry>, room: nat)
    requires |two| == 2 && Fit(dev, two, room)
    ensures Active(dev, two) == -1 <==> SelectInvalid(two[0]) && SelectInvalid(two[1])
    ensures Active(dev, two) != -1 && AppCount(dev) > 0 ==>
              dev.imageOk(Ota(SlotOf(two[Active(dev, two)].otaSeq, AppCount(dev))))
  {
    hide SlotOf, AppCount;
  }

  /** A copy that stays as it is, or changes its state at most to a bad one, stays fine. */
  lemma FitReset(dev: Device, two: seq<Entry>, room: nat)
    requires |two| == 2 && Fit(dev, two, room)
    ensures Fit(dev, Select(dev, two).1, room) && Fit(dev, Ended(dev, two), room)
  {
    hide SlotOf, AppCount, Select;
    ResetChoice(dev, two);
  }

  lemma LessRoom(dev: Device, e: Entry, room: nat)
    requires Fine(dev, e, room + 1)
    ensures Fine(dev, e, room)
  {
  }

  /** A slot that exists can be set, and gets a number that leaves room for more. */
  lemma RoomForSet(dev: Device, two: seq<Entry>, slot: nat, room: nat)
    requires |two| == 2 && WellFormed(dev) && Fit(dev, two, room + 1) && slot < AppCount(dev)
    ensures var num := TargetSeq(dev, two, slot);
            && 1 <= num && num + 16 * (room + 1) < UINT32_MAX && SlotOf(num, AppCount(dev)) == slot
            && SetSeq(dev, two, slot) == Some(num) && !Stuck(dev, two, slot) && Settable(dev, two, slot)
  {
    hide SlotOf, SetSeq, Stuck, NextFor, AppCount;
    FitActive(dev, two, room + 1);
    SetKeepsPositive(dev, two, slot);
    PositiveIsSettable(dev, two, slot);
    FitsNotStuck(dev, two, slot);
    if Active(dev, two) != -1 {
      NextForSpec(two[Active(dev, two)].otaSeq, slot, AppCount(dev));
    }
    SlotOfNext(TargetSeq(dev, two, slot), slot, AppCount(dev));
  }

  /** A slot that is set has a good image, unless the set is harmful. */
  lemma FitSet(dev: Device, two: seq<Entry>, op: Op, room: nat)
    requires |two| == 2 && DefaultGood(dev) && Fit(dev, two, room + 1) && FromTable(dev, op)
    requires op.Set? && op.p != Factory && dev.imageOk(op.p) && SubTypeId(op.p) < AppCount(dev)
    ensures var slot := SubTypeId(op.p);
            var num := TargetSeq(dev, two, slot);
            && num < UINT32_MAX && SetSeq(dev, two, slot) == Some(num) && !Stuck(dev, two, slot)
            && Settable(dev, two, slot)
            && (!(op.p == Test && !dev.imageOk(Ota(0))) ==> Fit(dev, Written(dev, two, num), room))
  {
    hide SlotOf, SetSeq, Stuck, TargetSeq, AppCount, Settable, TargetCopy;
    RoomForSet(dev, two, SubTypeId(op.p), room);
    LessRoom(dev, two[0], room);
    LessRoom(dev, two[1], room);
    assert op.p.Ota? ==> op.p.slot < 16;
  }

  /** Every operation that is not harmful keeps the copies fine. */
  lemma FitNext(dev: Device, two: seq<Entry>, op: Op, room: nat)
    requires |two| == 2 && DefaultGood(dev) && Fit(dev, two, room + 1) && FromTable(dev, op)
    ensures !Harmful(dev, op) ==> Fit(dev, Next(dev, two, op), room)
  {
    hide SlotOf, SetSeq, TargetSeq, Stuck, AppCount, Select, RollbackPossible, Settable;
    LessRoom(dev, two[0], room);
    LessRoom(dev, two[1], room);
    FitReset(dev, two, room);
    match op
    case Set(p, cut) =>
      if p != Factory && dev.imageOk(p) && SubTypeId(p) < AppCount(dev) {
        FitSet(dev, two, op, room);
      }
    case Workable(valid, cut) =>
    case Reset =>
    case ResetCut(at) =>
  }

  /** A harmful one does harm at once. */
  lemma HarmfulBreaks(dev: Device, two: seq<Entry>, op: Op, room: nat)
    requires |two| == 2 && DefaultGood(dev) && Fit(dev, two, room + 1) && FromTable(dev, op) && Harmful(dev, op)
    ensures !BootsGood(dev, Next(dev, two, op))
  {
    hide SetSeq, Stuck, AppCount, Settable, BootPartition, Next, Fit;
    FitSet(dev, two, op, room);
    ChoiceAfter(dev, two, op);
  }

  lemma {:induction false} RunFit(dev: Device, two: seq<Entry>, ops: seq<Op>, room: nat)
    requires |two| == 2 && DefaultGood(dev) && Fit(dev, two, |ops| + room)
    requires forall k :: 0 <= k < |ops| ==> FromTable(dev, ops[k]) && !Harmful(dev, ops[k])
    ensures Fit(dev, Run(dev, two, ops), room)
  {
    hide Fit, Next, GoodPart, FromTable, Harmful;
    if ops != [] {
      RunFit(dev, two, ops[..|ops| - 1], room + 1);
      FitNext(dev, Run(dev, two, ops[..|ops| - 1]), ops[|ops| - 1], room);
    }
  }

  /**
   * Whatever is set, confirmed or given up, and wherever power is lost or the device reset: at every
   * point of the history there is a good application to boot, for application and bootloader alike,
   * exactly if nobody sets the test partition while slot 0 holds no good image.
   */
  lemma AlwaysBootsGood(dev: Device, two: seq<Entry>, ops: seq<Op>)
    requires |two| == 2 && DefaultGood(dev) && Fit(dev, two, |ops|)
    requires forall k :: 0 <= k < |ops| ==> FromTable(dev, ops[k])
    ensures (forall k :: 0 <= k <= |ops| ==> BootsGood(dev, Run(dev, two, ops[..k]))) <==>
            (forall k :: 0 <= k < |ops| ==> !Harmful(dev, ops[k]))
  {
    hide Fit, Next, GoodPart, FromTable, Harmful, BootsGood, Run;
    if k :| 0 <= k < |ops| && Harmful(dev, ops[k]) {
      var f := FirstHarmful(dev, ops, k);
      RunFit(dev, two, ops[..f], |ops| - f);
      RunOneMore(dev, two, ops, f);
      HarmfulBreaks(dev, Run(dev, two, ops[..f]), ops[f], |ops| - f - 1);
    } else {
      forall k | 0 <= k <= |ops| ensures BootsGood(dev, Run(dev, two, ops[..k])) {
        RunFit(dev, two, ops[..k], |ops| - k);
        FitBootsGood(dev, Run(dev, two, ops[..k]), |ops| - k);
      }
    }
  }

  /** All through such a history, the choice after each operation is the one predicted. */
  lemma RunChoice(dev: Device, two: seq<Entry>, ops: seq<Op>, k: nat)
    requires |two| == 2 && DefaultGood(dev) && Fit(dev, two, |ops|) && k < |ops|
    requires forall j :: 0 <= j < |ops| ==> FromTable(dev, ops[j])
    requires forall j :: 0 <= j < k ==> !Harmful(dev, ops[j])
    ensures BootPartition(dev, Run(dev, two, ops[..k + 1])) == Choice(dev, Run(dev, two, ops[..k]), ops[k])
  {
    hide Fit, Next, GoodPart, FromTable, Harmful, Choice, Run, BootPartition, Settable, Stuck, SetSeq, TargetSeq;
    var t := Run(dev, two, ops[..k]);
    RunFit(dev, two, ops[..k], |ops| - k);
    RunOneMore(dev, two, ops, k);
    ChoiceAfter(dev, t, ops[k]);
    if TakesEffect(dev, t, ops[k]) {
      FitSet(dev, t, ops[k], |ops| - k - 1);
    }
  }

  lemma RunOneMore(dev: Device, two: seq<Entry>, ops: seq<Op>, k: nat)
    requires |two| == 2 && WellFormed(dev) && k < |ops|
    ensures Run(dev, two, ops[..k + 1]) == Next(dev, Run(dev, two, ops[..k]), ops[k])
  {
    hide Next;
    assert ops[..k + 1][..k] == ops[..k];
  }

  lemma FirstHarmful(dev: Device, ops: seq<Op>, k: nat) returns (f: nat)
    requires k < |ops| && Harmful(dev, ops[k])
    ensures f <= k && Harmful(dev, ops[f]) && forall j :: 0 <= j < f ==> !Harmful(dev, ops[j])
  {
    hide Harmful;
    f := 0;
    while !Harmful(dev, ops[f])
      invariant f <= k && forall j :: 0 <= j < f ==> !Harmful(dev, ops[j])
      decreases k - f
    {
      f := f + 1;
    }
  }

  /** The one way out: on a device fresh from the factory the test partition is set. */
  lemma HarmfulExample(dev: Device)
    requires dev.slots == {0, 1} && dev.factory && dev.test
    requires dev.imageOk(Factory) && dev.imageOk(Test) && !dev.imageOk(Ota(0))
    ensures var two := [BLANK, BLANK];
            && DefaultGood(dev) && Fit(dev, two, 1) && FromTable(dev, Set(Test, false))
            && BootPartition(dev, Next(dev, two, Set(Test, false))) == Some(Ota(0))
  {
    var two := [BLANK, BLANK];
    assert AppCount(dev) == 2 by {
      var n := AppCount(dev);
      assert n !in {0, 1} && 2 !in dev.slots;
    }
    FitSet(dev, two, Set(Test, false), 0);
    ChoiceAfter(dev, two, Set(Test, false));
  }
}
