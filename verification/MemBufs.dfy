/**
 * The double-buffered trace transport: two memory blocks that alternate between
 * the target and the host, a ring of pending packets for when the current block
 * is full and the host refuses a swap, and a ring for data coming from the host.
 *
 * Getting a trace buffer, filling it and putting it back is one step here, and the
 * hardware's answers to `swap_start` are inputs.  A build without a pending buffer
 * is the case of a pending ring of capacity zero, which never grants anything.
 */
module MemBufs {
  import opened Arith
  import opened Common
  import opened AppTraceRing
  import opened TraceRecords

  /** The hardware's answer to one swap request, with the data the host left in the block. */
  datatype Answer = Refuse | Accept(fromHost: seq<byte>)

  predicate AnyAccepted(answers: seq<Answer>) {
    exists i :: 0 <= i < |answers| && answers[i].Accept?
  }

  /** What the host left in the block for the first request it accepts. */
  function FirstData(answers: seq<Answer>): seq<byte> {
    if answers == [] then [] else if answers[0].Accept? then answers[0].fromHost else FirstData(answers[1..])
  }

  class Proto {
    const sysView: bool
    const blocks: seq<array<byte>>
    const pend: Ring
    const down: Ring
    var markers: seq<nat>
    var inBlock: nat
    /** Every byte exposed to the host so far, in order. */
    ghost var host: seq<byte>
    /** Every packet granted so far, in order. */
    ghost var granted: seq<Packet>
    /** The bytes accepted from the host, and those of them already handed to the reader. */
    ghost var received: seq<byte>
    ghost var consumed: seq<byte>

    ghost predicate Shape() {
      && |blocks| == 2
      && blocks[0] != blocks[1]
      && blocks[0].Length == blocks[1].Length
      && pend != down
      && pend.data != down.data
      && pend.data !in blocks && down.data !in blocks
      && (sysView || 4 <= blocks[0].Length < 0x1_0000)
    }

    function BlockSize(): nat
      requires |blocks| == 2
    {
      blocks[0].Length
    }

    function MaxPayload(): int
      requires |blocks| == 2
    {
      if sysView then 255 else BlockSize() - HeaderSize(sysView)
    }

    /** Every packet that is let through fits a block of its own. */
    predicate Roomy()
      requires |blocks| == 2
    {
      MaxPayload() + HeaderSize(sysView) <= BlockSize()
    }

    /** The part of the current block that is in use. */
    ghost function InBlock(): (s: seq<byte>)
      requires Bounded()
      reads this, blocks[inBlock % 2]
      ensures |s| == Marker()
    {
      blocks[inBlock % 2][..markers[inBlock % 2]]
    }

    function Marker(): nat
      requires Bounded()
      reads this
    {
      markers[inBlock % 2]
    }

    ghost predicate Bounded()
      reads this
    {
      Shape() && |markers| == 2 && markers[inBlock % 2] <= BlockSize()
    }

    /** The state without the claim about the stream. */
    ghost predicate Sound()
      reads this, pend, down
    {
      && Bounded()
      && pend.Valid()
      && down.Valid()
      && down.curSize == down.data.Length
    }

    ghost predicate Valid()
      reads this, pend, pend.data, down, down.data, blocks
    {
      && Sound()
      && consumed + down.Contents() == received
      && (Roomy() && pend.Contents() != [] ==> Marker() > 0)
      && Within(granted, MaxPayload())
      && host + InBlock() + pend.Contents() == EncodeAll(sysView, granted)
    }

    /** What validity says about the two streams. */
    lemma Meaning()
      requires Valid()
      ensures Bounded() && pend.Valid() && down.Valid()
      ensures host + InBlock() + pend.Contents() == EncodeAll(sysView, granted)
      ensures consumed + down.Contents() == received
    {
      hide EncodeAll, Ring.Valid, Ring.Contents;
    }

    constructor (sysView: bool, blockSize: nat, pendSize: nat, downSize: nat)
      requires sysView || 4 <= blockSize < 0x1_0000
      ensures Valid() && host == [] && granted == []
      ensures this.sysView == sysView && BlockSize() == blockSize && pend.data.Length == pendSize && down.data.Length == downSize
      ensures received == [] && consumed == [] && InBlock() == [] && pend.At() == Pos(pendSize, pendSize, 0, 0)
      ensures fresh(blocks[0]) && fresh(blocks[1]) && fresh(pend) && fresh(pend.data) && fresh(down) && fresh(down.data)
    {
      this.sysView := sysView;
      var b0 := new byte[blockSize];
      var b1 := new byte[blockSize];
      blocks := [b0, b1];
      pend := new Ring(pendSize);
      down := new Ring(downSize);
      markers := [0, 0];
      inBlock := 0;
      host := [];
      granted := [];
      received, consumed := [], [];
    }

    /** Bytes written at the marker of the current block. */
    method Append(src: seq<byte>)
      requires Sound() && Marker() + |src| <= BlockSize()
      modifies `markers, blocks[inBlock % 2]
      ensures Sound()
      ensures InBlock() == old(InBlock()) + src
    {
      hide Ring.Contents, Ring.Valid;
      var b := blocks[inBlock % 2];
      var m := Marker();
      forall i | 0 <= i < |src| {
        b[m + i] := src[i];
      }
      markers := markers[inBlock % 2 := m + |src|];
      assert b[..m] == old(b[..m]);
      assert b[m..m + |src|] == src;
    }

    /** One round of the pump loop. */
    method PumpSome(n: nat)
      requires Sound() && n <= pend.ReadSize() && Marker() + n <= BlockSize()
      modifies `markers, pend, blocks[inBlock % 2]
      ensures Sound() && Marker() == old(Marker()) + n
      ensures InBlock() + pend.Contents() == old(InBlock()) + old(pend.Contents())
    {
      hide Ring.Contents, Ring.Valid;
      ghost var b, q := InBlock(), pend.Contents();
      var bytes := pend.Take(n);
      Append(bytes);
      SplitAt(q, n);
      Assoc(b, q[..n], q[n..]);
    }

    /**
     * Moves pending bytes into an empty current block.  Nothing is lost or reordered,
     * even when a packet is cut in two, and afterwards the ring is empty or the block full.
     */
    method Pump()
      requires Sound() && Marker() == 0
      modifies `markers, pend, blocks[inBlock % 2]
      ensures Sound()
      ensures InBlock() + pend.Contents() == old(pend.Contents())
      ensures pend.Contents() == [] || Marker() == BlockSize()
    {
      hide Ring.Contents, Ring.Valid;
      ghost var all := pend.Contents();
      assert InBlock() + pend.Contents() == all;
      while Marker() < BlockSize()
        invariant Sound()
        invariant InBlock() + pend.Contents() == all
        decreases BlockSize() - Marker()
      {
        var n := pend.ReadSize();
        if n == 0 {
          break;
        }
        if n > BlockSize() - Marker() {
          n := BlockSize() - Marker();
        }
        PumpSome(n);
      }
    }

    /** The bookkeeping of an accepted swap: the other block becomes current and empty. */
    method Switch()
      requires Sound()
      modifies `markers, `inBlock, `host
      ensures Sound() && Marker() == 0
      ensures host == old(host) + old(InBlock())
    {
      hide Ring.Contents, Ring.Valid;
      var prev := inBlock % 2;
      var next := if prev != 0 then 0 else 1;
      host := host + blocks[prev][..markers[prev]];
      markers := markers[next := 0];
      inBlock := inBlock + 1;
    }

    /** An accepted swap: expose the block, take in the host's data, refill the other block. */
    method Exchange(fromHost: seq<byte>)
      requires Sound()
      modifies `markers, `inBlock, `host, `received, pend, down, down.data, blocks[0], blocks[1]
      ensures Sound()
      ensures host == old(host) + old(InBlock())
      ensures InBlock() + pend.Contents() == old(pend.Contents())
      ensures pend.Contents() == [] || Marker() == BlockSize()
      ensures down.Contents() == old(down.Contents()) + fromHost[..old(Accepted(down, |fromHost|))]
      ensures received == old(received) + fromHost[..old(Accepted(down, |fromHost|))]
    {
      hide Ring.Contents, Ring.Valid;
      received := received + fromHost[..Accepted(down, |fromHost|)];
      Switch();
      if fromHost != [] {
        var _, _ := DownBufferWrite(down, fromHost);
      }
      Pump();
    }

    /**
     * One swap request.  A refusal changes nothing.  An accepted swap hands the used part of
     * the block to the host and keeps the byte stream as it is.
     */
    method Swap(a: Answer) returns (ok: bool)
      requires Valid()
      modifies `markers, `inBlock, `host, `received, pend, down, down.data, blocks[0], blocks[1]
      ensures Valid()
      ensures ok <==> a.Accept?
      ensures !ok ==>
                && host == old(host) && InBlock() == old(InBlock())
                && pend.Contents() == old(pend.Contents()) && received == old(received)
                && pend.At() == old(pend.At()) && down.At() == old(down.At())
      ensures ok ==>
                && host == old(host) + old(InBlock())
                && InBlock() + pend.Contents() == old(pend.Contents())
                && (pend.Contents() == [] || Marker() == BlockSize())
                && received == old(received) + a.fromHost[..old(Accepted(down, |a.fromHost|))]
    {
      hide Ring.Contents, Ring.Valid, Encode, EncodeAll;
      if a.Refuse? {
        return false;
      }
      ghost var h, b := host, InBlock();
      Exchange(a.fromHost);
      Assoc(h + b, InBlock(), pend.Contents());
      return true;
    }

    /** Swap requests until one is accepted or, after the last answer, the timer has run out. */
    method SwapWait(answers: seq<Answer>) returns (ok: bool)
      requires Valid() && answers != []
      modifies `markers, `inBlock, `host, `received, pend, down, down.data, blocks[0], blocks[1]
      ensures Valid()
      ensures ok <==> AnyAccepted(answers)
      ensures !ok ==> FirstData(answers) == []
      ensures !ok ==>
                && host == old(host) && InBlock() == old(InBlock())
                && pend.Contents() == old(pend.Contents()) && received == old(received)
                && pend.At() == old(pend.At()) && down.At() == old(down.At())
      ensures ok ==>
                && host == old(host) + old(InBlock())
                && InBlock() + pend.Contents() == old(pend.Contents())
                && (pend.Contents() == [] || Marker() == BlockSize())
                && received == old(received) + FirstData(answers)[..old(Accepted(down, |FirstData(answers)|))]
    {
      hide Ring.Contents, Ring.Valid, Encode, EncodeAll;
      assert answers[0..] == answers;
      for i := 0 to |answers|
        invariant Valid()
        invariant forall j :: 0 <= j < i ==> answers[j].Refuse?
        invariant host == old(host) && InBlock() == old(InBlock())
        invariant pend.Contents() == old(pend.Contents()) && received == old(received)
        invariant pend.At() == old(pend.At()) && down.At() == old(down.At())
        invariant FirstData(answers) == FirstData(answers[i..])
      {
        assert answers[i..][1..] == answers[i + 1..];
        ok := Swap(answers[i]);
        if ok {
          return;
        }
      }
      ok := false;
      assert answers[|answers|..] == [];
    }

    /** The bytes in the block and pending, and what the host has, are as they were. */
    twostate predicate AsBefore()
      requires old(Sound()) && Sound()
      reads this, pend, pend.data, down, blocks
    {
      && host == old(host) && InBlock() == old(InBlock())
      && pend.Contents() == old(pend.Contents())
    }

    /** The packet has been put into the block the host will get next. */
    twostate predicate PutBehind(p: Packet)
      requires old(Sound()) && Sound()
      reads this, pend, pend.data, down, blocks
    {
      && host == old(host) && InBlock() == old(InBlock()) + Encode(sysView, p)
      && pend.Contents() == old(pend.Contents())
    }

    /** It has been put behind the pending bytes. */
    twostate predicate Pended(p: Packet)
      requires old(Sound()) && Sound()
      reads this, pend, pend.data, down, blocks
    {
      && host == old(host) && InBlock() == old(InBlock())
      && pend.Contents() == old(pend.Contents()) + Encode(sysView, p)
    }

    /** The host got the block, and the other one holds what was pending, and the packet. */
    twostate predicate PutAfterSwap(p: Packet)
      requires old(Sound()) && Sound()
      reads this, pend, pend.data, down, blocks
    {
      && host == old(host) + old(InBlock()) && InBlock() == old(pend.Contents()) + Encode(sysView, p)
      && pend.Contents() == []
    }

    /** The packet is granted in the current block, behind everything granted before. */
    method PutInBlock(p: Packet)
      requires Valid() && pend.Contents() == [] && |p.payload| <= MaxPayload()
      requires Marker() + |Encode(sysView, p)| <= BlockSize()
      modifies `markers, `granted, blocks[inBlock % 2]
      ensures Valid()
      ensures granted == old(granted) + [p] && PutBehind(p)
    {
      hide Ring.Contents, Ring.Valid, Encode, EncodeAll;
      ghost var h, b := host, InBlock();
      Append(Encode(sysView, p));
      EncodeAllAppend(sysView, granted, p);
      granted := granted + [p];
      Assoc(h, b, Encode(sysView, p));
    }

    /** The packet is granted in the pending ring, if a region for it can be had there. */
    method PutPending(p: Packet) returns (ok: bool)
      requires Valid() && (Roomy() ==> Marker() > 0) && |p.payload| <= MaxPayload()
      modifies `granted, pend, pend.data
      ensures Valid()
      ensures ok <==> old(pend.At()).HasRoom(|Encode(sysView, p)|)
      ensures granted == if ok then old(granted) + [p] else old(granted)
      ensures if ok then Pended(p) else AsBefore()
      ensures !ok ==> pend.At() == old(pend.At())
    {
      hide Ring.Contents, Ring.Valid, Encode, EncodeAll;
      ghost var s, q := host + InBlock(), pend.Contents();
      ok := pend.Put(Encode(sysView, p));
      if ok {
        EncodeAllAppend(sysView, granted, p);
        granted := granted + [p];
        Assoc(s, q, Encode(sysView, p));
      }
    }

    /** Waits for a block, then grants the packet in it or in the pending ring. */
    method WaitForBuffer(p: Packet, answers: seq<Answer>) returns (ok: bool)
      requires Valid() && answers != [] && |p.payload| <= MaxPayload()
      requires !pend.At().HasRoom(|Encode(sysView, p)|)
      modifies `markers, `inBlock, `host, `received, `granted
      modifies pend, pend.data, down, down.data, blocks[0], blocks[1]
      ensures Valid()
      ensures granted == if ok then old(granted) + [p] else old(granted)
      ensures !ok ==> !pend.At().HasRoom(|Encode(sysView, p)|)
      ensures !AnyAccepted(answers) ==> !ok && AsBefore()
      ensures AnyAccepted(answers) && |old(pend.Contents())| + |Encode(sysView, p)| <= BlockSize() ==>
                ok && PutAfterSwap(p)
    {
      hide Ring.Contents, Ring.Valid, Encode, EncodeAll;
      ok := SwapWait(answers);
      if !ok {
        return;
      }
      var size := |Encode(sysView, p)| % 0x1_0000;  // the request travels in a 16-bit parameter
      if pend.ReadSize() > 0 {
        ok := PutPending(p);
      } else if Marker() + size > BlockSize() {
        ok := PutPending(p);
      } else {
        PutInBlock(p);
      }
    }

    /**
     * Gets a trace buffer for the packet, fills it and puts it back.  `first` answers the swap
     * tried when packets are pending, `answers` those made while waiting for a block.  The packet
     * is appended to the stream or nothing is granted at all; it is turned down only if it is too
     * large or the pending ring has no room for it.  Where it goes is stated case by case; open is
     * only what happens when pending bytes and packet together exceed a block that has been swapped.
     */
    method UpBufferWrite(p: Packet, first: Answer, answers: seq<Answer>) returns (ok: bool)
      requires Valid() && answers != []
      modifies `markers, `inBlock, `host, `received, `granted
      modifies pend, pend.data, down, down.data, blocks[0], blocks[1]
      ensures Valid()
      ensures granted == if ok then old(granted) + [p] else old(granted)
      ensures ok ==> |p.payload| <= MaxPayload()
      ensures
        var size, pended := |Encode(sysView, p)|, |old(pend.Contents())|;
        var refused := pended == 0 || first.Refuse?;
        if |p.payload| > MaxPayload() then !ok && AsBefore()
        else if pended == 0 && old(Marker()) + size <= BlockSize() then ok && PutBehind(p)
        else if refused && old(pend.At()).HasRoom(size) then ok && Pended(p)
        else if refused && !AnyAccepted(answers) then !ok && AsBefore()
        else pended + size <= BlockSize() ==> ok && PutAfterSwap(p)
    {
      hide Ring.Contents, Ring.Valid, Encode, EncodeAll, Within, AnyAccepted, Pos.HasRoom;
      if |p.payload| > MaxPayload() {
        return false;
      }
      SwapIfPending(first);
      ok := Place(p, answers);
    }

    /** With bytes pending a swap is tried once. */
    method SwapIfPending(first: Answer)
      requires Valid()
      modifies `markers, `inBlock, `host, `received, pend, down, down.data, blocks[0], blocks[1]
      ensures Valid()
      ensures old(pend.Contents()) == [] || first.Refuse? ==> AsBefore() && pend.At() == old(pend.At())
      ensures first.Accept? && 0 < |old(pend.Contents())| <= BlockSize() ==>
                host == old(host) + old(InBlock()) && InBlock() == old(pend.Contents()) && pend.Contents() == []
    {
      hide Ring.Contents, Ring.Valid, Encode, EncodeAll;
      if pend.ReadSize() > 0 {
        ghost var q := pend.Contents();
        var _ := Swap(first);
        assert pend.Contents() == [] ==> InBlock() + pend.Contents() == InBlock();
      }
    }

    /** The packet goes into the block if nothing is pending and it fits, and is pended otherwise. */
    method Place(p: Packet, answers: seq<Answer>) returns (ok: bool)
      requires Valid() && answers != [] && |p.payload| <= MaxPayload()
      modifies `markers, `inBlock, `host, `received, `granted
      modifies pend, pend.data, down, down.data, blocks[0], blocks[1]
      ensures Valid()
      ensures granted == if ok then old(granted) + [p] else old(granted)
      ensures !ok ==> !pend.At().HasRoom(|Encode(sysView, p)|)
      ensures
        var size, pended := |Encode(sysView, p)|, |old(pend.Contents())|;
        if pended == 0 && old(Marker()) + size <= BlockSize() then ok && PutBehind(p)
        else if old(pend.At()).HasRoom(size) then ok && Pended(p)
        else if !AnyAccepted(answers) then !ok && AsBefore()
        else pended + size <= BlockSize() ==> ok && PutAfterSwap(p)
    {
      hide Ring.Contents, Ring.Valid, Encode, EncodeAll;
      if pend.ReadSize() > 0 {
        ok := PutPending(p);
        if !ok {
          ok := WaitForBuffer(p, answers);
        }
      } else if Marker() + |Encode(sysView, p)| > BlockSize() {
        ok := PutPending(p);
        if !ok {
          ok := WaitForBuffer(p, answers);
        }
      } else {
        PutInBlock(p);
        ok := true;
      }
    }

    /**
     * Swaps until the current block holds no more than `minSize` bytes.  Every accepted swap
     * strictly shrinks what is in the block and the pending ring together, so the loop ends.  A
     * complete flush empties the block, and with it the pending ring unless that was filled past an
     * empty block, for a packet larger than the block; the host then decodes exactly the granted
     * packets if, and only if, none is longer than the header can tell.  With a SystemView build or a
     * block of at most 0x8003 bytes none is.
     */
    method Flush(minSize: nat, answers: nat -> seq<Answer>) returns (ok: bool)
      requires Valid() && forall k :: answers(k) != []
      modifies `markers, `inBlock, `host, `received, pend, down, down.data, blocks[0], blocks[1]
      ensures Valid()
      ensures ok ==> Marker() <= minSize
      ensures !ok ==> exists k: nat :: !AnyAccepted(answers(k))
      ensures old(Marker()) <= minSize ==>
                && ok && host == old(host) && InBlock() == old(InBlock())
                && pend.Contents() == old(pend.Contents())
      ensures granted == old(granted)
      ensures ok && old(Marker()) > minSize ==>
                && pend.Contents() == []
                && Marker() == FlushLeaves(|old(pend.Contents())|, BlockSize(), minSize)
      ensures ok && minSize == 0 ==>
                && InBlock() == []
                && (pend.Contents() == [] <==> old(Marker() > 0 || pend.Contents() == []))
                && (Roomy() ==> pend.Contents() == [])
                && (pend.Contents() == [] ==> host == EncodeAll(sysView, granted))
      ensures ok && minSize == 0 && pend.Contents() == [] ==>
                (DecodeAll(sysView, host) == Some(AsRead(sysView, granted)) <==> Within(granted, MaxSize(sysView)))
      ensures sysView || BlockSize() <= 0x8003 ==> Within(granted, MaxSize(sysView))
    {
      hide Ring.Contents, Ring.Valid, Encode, EncodeAll, FlushLeaves;
      HostReads(sysView, granted);
      if Marker() < minSize {
        return true;
      }
      ok := Drain(minSize, answers);
    }

    /** The loop of the flush. */
    method Drain(minSize: nat, answers: nat -> seq<Answer>) returns (ok: bool)
      requires Valid() && forall k :: answers(k) != []
      modifies `markers, `inBlock, `host, `received, pend, down, down.data, blocks[0], blocks[1]
      ensures Valid()
      ensures ok ==> Marker() <= minSize
      ensures !ok ==> exists k: nat :: !AnyAccepted(answers(k))
      ensures old(Marker()) <= minSize ==> ok && AsBefore()
      ensures ok && old(Marker()) > minSize ==>
                && pend.Contents() == []
                && Marker() == FlushLeaves(|old(pend.Contents())|, BlockSize(), minSize)
    {
      hide Ring.Contents, Ring.Valid, Encode, EncodeAll, FlushOn, FlushLeaves, FirstData, AnyAccepted, Within;
      ok := true;
      var k := 0;
      while Marker() > minSize
        invariant Valid() && ok
        invariant k == 0 ==> AsBefore()
        invariant k > 0 ==> old(Marker()) > minSize && BlockSize() > minSize
        invariant k > 0 ==> FlushOn(|old(pend.Contents())|, BlockSize(), minSize, Marker(), |pend.Contents()|)
        invariant k > 0 && Marker() <= minSize ==>
                    pend.Contents() == [] && Marker() == FlushLeaves(|old(pend.Contents())|, BlockSize(), minSize)
        decreases Marker() + |pend.Contents()|
      {
        ghost var m, q := Marker(), |pend.Contents()|;
        ok := SwapWait(answers(k));
        if !ok {
          return;
        }
        assert Marker() + |pend.Contents()| == q;
        FlushRound(|old(pend.Contents())|, BlockSize(), minSize, k == 0, m, q, Marker(), |pend.Contents()|);
        k := k + 1;
      }
    }

    /**
     * Takes up to `size` bytes the host sent.  Each poll finds either host data pending, which
     * forces a swap, or nothing; after the last poll the timer has run out.
     */
    method DownBufferGet(size: nat, polls: seq<Option<seq<Answer>>>) returns (bytes: Option<seq<byte>>)
      requires Valid() && forall i :: 0 <= i < |polls| && polls[i].Some? ==> polls[i].value != []
      modifies `markers, `inBlock, `host, `received, `consumed, pend, down, down.data, blocks[0], blocks[1]
      ensures Valid()
      ensures bytes.Some? ==> consumed == old(consumed) + bytes.value && |bytes.value| <= size
      ensures bytes.Some? && size > 0 ==> bytes.value != []
      ensures bytes.None? ==> consumed == old(consumed) == received
      ensures bytes.None? <==> old(down.Stored()) == 0 && forall i :: 0 <= i < |polls| ==> !Brings(polls[i])
      ensures old(down.Stored()) > 0 ==>
                && AsBefore() && received == old(received)
                && bytes == Some(old(down.Contents())[..Min(size, old(down.ReadSize()))])
      ensures bytes.Some? && |bytes.value| < size ==> down.Stored() == 0 || down.rd == 0
    {
      hide Ring.Contents, Ring.Valid, Encode, EncodeAll, Brings, FirstData;
      var i := 0;
      while true
        invariant Valid() && i <= |polls|
        invariant consumed == old(consumed)
        invariant down.Stored() == 0 <==> old(down.Stored()) == 0 && forall j :: 0 <= j < i ==> !Brings(polls[j])
        invariant i > 0 ==> old(down.Stored()) == 0
        invariant i == 0 ==> AsBefore() && received == old(received) && down.At() == old(down.At())
                             && down.Contents() == old(down.Contents())
        decreases |polls| - i
      {
        if down.ReadSize() != 0 {
          var got := Fetch(size);
          return Some(got);
        }
        if i == |polls| {
          return None;
        }
        Poll(polls[i]);
        i := i + 1;
      }
    }

    /** What is readable in one piece, up to `size`, goes to the reader. */
    method Fetch(size: nat) returns (got: seq<byte>)
      requires Valid() && down.ReadSize() > 0
      modifies `consumed, down
      ensures Valid()
      ensures got == old(down.Contents())[..Min(size, old(down.ReadSize()))] && consumed == old(consumed) + got
      ensures |got| == Min(size, old(down.ReadSize()))
      ensures |got| < size ==> down.Stored() == 0 || down.rd == 0
      ensures AsBefore()
    {
      hide Ring.Contents, Ring.Valid, Encode, EncodeAll;
      var n := Min(size, down.ReadSize());
      ghost var q := down.Contents();
      got := down.Take(n);
      SplitAt(q, n);
      Assoc(consumed, got, down.Contents());
      consumed := consumed + got;
    }

    /** With nothing stored: data the host has pending is taken in by a swap. */
    method Poll(poll: Option<seq<Answer>>)
      requires Valid() && down.Stored() == 0 && (poll.Some? ==> poll.value != [])
      modifies `markers, `inBlock, `host, `received, pend, down, down.data, blocks[0], blocks[1]
      ensures Valid()
      ensures down.Stored() == 0 <==> !Brings(poll)
    {
      hide Ring.Contents, Ring.Valid, Encode, EncodeAll, FirstData;
      if poll.Some? {
        assert |consumed + down.Contents()| == |received|;
        var _ := SwapWait(poll.value);
        assert |consumed + down.Contents()| == |received|;
      }
    }

    /** A poll brings bytes: the host accepts a swap, has left some, and the ring can hold any. */
    predicate Brings(poll: Option<seq<Answer>>) {
      poll.Some? && FirstData(poll.value) != [] && down.data.Length > 1
    }
  }

  /**
   * What a flush leaves in the block, with `pended` bytes pending at first: whole blocks go to the
   * host, and the rest does unless it is small enough.
   */
  function FlushLeaves(pended: nat, block: nat, minSize: nat): nat
    requires block > 0
  {
    if pended % block <= minSize then pended % block else 0
  }

  /** After some swaps: what is left has lost whole blocks, or nothing is left of a rest too large. */
  ghost predicate FlushOn(pended: nat, block: nat, minSize: nat, marker: nat, q: nat) {
    && block > minSize
    && marker <= block && (q == 0 || marker == block)
    && ((marker + q) % block == pended % block || (marker + q == 0 && pended % block > minSize))
  }

  lemma FlushRound(pended: nat, block: nat, minSize: nat, first: bool, m: nat, q: nat, m': nat, q': nat)
    requires block > minSize && m > minSize && m' + q' == q && m' <= block && (q' == 0 || m' == block)
    requires if first then q == pended else FlushOn(pended, block, minSize, m, q)
    ensures FlushOn(pended, block, minSize, m', q')
    ensures m' <= minSize ==> q' == 0 && m' == FlushLeaves(pended, block, minSize)
  {
    if !first {
      if m == block {
        ModStep(m + q, block);
      } else {
        ModStep(m, block);
      }
    }
    ModStep(m', block);
  }

  /** The limit on payloads is the largest packet that fits an empty block, or that the header can tell. */
  lemma MaxPayloadMeaning(proto: Proto, p: Packet)
    requires |proto.blocks| == 2
    ensures |p.payload| <= proto.MaxPayload() <==>
            if proto.sysView then |p.payload| <= MaxSize(true) else |Encode(false, p)| <= proto.BlockSize()
  {
  }

  /** How many of n bytes the host-to-target ring can take. */
  ghost function Accepted(down: Ring, n: nat): nat
    requires down.Valid() && down.curSize == down.data.Length
    reads down
  {
    if down.data.Length == 0 then 0 else Min(n, down.data.Length - 1 - down.Stored())
  }

  lemma Extend(start: seq<byte>, src: seq<byte>, k: nat, n: nat)
    requires k + n <= |src|
    ensures start + src[..k] + src[k..k + n] == start + src[..k + n]
  {
    assert src[..k] + src[k..k + n] == src[..k + n];
  }

  /** One round of the loop below. */
  method DownPut(down: Ring, src: seq<byte>)
    requires down.Valid() && down.curSize == down.data.Length > 0 && |src| <= down.WriteSize()
    modifies down, down.data
    ensures down.Valid() && down.curSize == down.data.Length
    ensures down.Contents() == old(down.Contents()) + src
    ensures |src| == old(down.WriteSize()) ==>
              down.Stored() == down.data.Length - 1 || (down.wr < down.rd && old(down.rd <= down.wr))
  {
    var ok := down.Put(src);
  }

  /**
   * Stores data from the host: exactly as much as fits, as a prefix and in order, without an
   * early wrap and in at most two rounds of the loop.
   */
  method DownBufferWrite(down: Ring, src: seq<byte>) returns (total: nat, ghost rounds: nat)
    requires down.Valid() && down.curSize == down.data.Length
    modifies down, down.data
    ensures down.Valid() && down.curSize == down.data.Length
    ensures total == old(Accepted(down, |src|))
    ensures down.Contents() == old(down.Contents()) + src[..total]
    ensures rounds <= 2
  {
    hide Ring.Contents;
    total, rounds := 0, 0;
    ghost var start := down.Contents();
    assert start + src[..0] == start;
    while total < |src|
      invariant total <= |src|
      invariant down.Valid() && down.curSize == down.data.Length
      invariant down.Contents() == start + src[..total]
      invariant rounds == 0 || 0 < down.data.Length
      invariant rounds == 1 ==> total == |src| || down.Stored() == down.data.Length - 1 || down.wr < down.rd
      invariant rounds == 2 ==> total == |src| || down.Stored() == down.data.Length - 1
      invariant rounds <= 2
    {
      var n := down.WriteSize();
      if n == 0 {
        break;
      }
      if n > |src| - total {
        n := |src| - total;
      }
      DownPut(down, src[total..total + n]);
      Extend(start, src, total, n);
      total := total + n;
      rounds := rounds + 1;
    }
  }

  /** What the rest of the system asks of the transport, with the hardware's answers. */
  datatype Request =
    | Trace(p: Packet, first: Answer, answers: seq<Answer>)
    | FlushTo(minSize: nat, waits: nat -> seq<Answer>)
    | Fetch(size: nat, polls: seq<Option<seq<Answer>>>)

  ghost predicate Answered(r: Request) {
    match r
    case Trace(_, _, answers) => answers != []
    case FlushTo(_, waits) => forall k :: waits(k) != []
    case Fetch(_, polls) => forall i :: 0 <= i < |polls| && polls[i].Some? ==> polls[i].value != []
  }

  /**
   * Every run of the transport: what the host has got, the used part of the current block and the
   * pending bytes are, one after the other, the packets granted in the order of granting; what the
   * reader has got and what is stored for it are the bytes accepted from the host.
   */
  method Serve(proto: Proto, reqs: seq<Request>) returns (packets: seq<Packet>)
    requires |proto.blocks| == 2 && proto.Valid() && proto.granted == []
    requires forall i :: 0 <= i < |reqs| ==> Answered(reqs[i])
    modifies proto, proto.pend, proto.pend.data, proto.down, proto.down.data, proto.blocks[0], proto.blocks[1]
    ensures proto.Valid() && proto.Marker() <= proto.BlockSize()
    ensures proto.host + proto.InBlock() + proto.pend.Contents() == EncodeAll(proto.sysView, packets)
    ensures proto.consumed + proto.down.Contents() == proto.received
  {
    hide Proto.Valid, EncodeAll;
    packets := [];
    for i := 0 to |reqs|
      invariant proto.Valid() && proto.granted == packets
    {
      assert Answered(reqs[i]);
      match reqs[i] {
        case Trace(p, first, answers) =>
          var ok := proto.UpBufferWrite(p, first, answers);
          if ok {
            packets := packets + [p];
          }
        case FlushTo(minSize, waits) =>
          var _ := proto.Flush(minSize, waits);
        case Fetch(size, polls) =>
          var _ := proto.DownBufferGet(size, polls);
      }
    }
    proto.Meaning();
  }

  /**
   * A flush can leave packets behind: in the SystemView build a packet of 20 bytes does not fit a
   * block of 16 and stays pending behind the empty block, which the flush takes for nothing to do.
   */
  method SmallBlockRun(answers: nat -> seq<Answer>) returns (proto: Proto, ok: bool)
    requires forall k :: answers(k) != []
    ensures |proto.blocks| == 2 && proto.Valid() && ok && |proto.granted| == 1
    ensures proto.host == [] && proto.pend.Contents() != []
  {
    hide Proto.Valid, Encode, EncodeAll, Ring.Contents, Ring.Valid;
    proto := new Proto(true, 16, 64, 0);
    var p := Packet(0, seq(20, _ => 0));
    ok := proto.UpBufferWrite(p, Refuse, [Refuse]);
    proto.Meaning();
    assert EncodeAll(true, [p]) != [] by {
      EncodeAllAppend(true, [], p);
      assert [] + [p] == [p];
    }
    ok := proto.Flush(0, answers);
  }

  /**
   * Nor does the host always get what a flush sends: any block of more than 0x8003 bytes takes a
   * packet whose size the header's core bit swallows.
   */
  method LargePacketRun(proto: Proto, p: Packet) returns (ok: bool)
    requires |proto.blocks| == 2 && proto.Valid() && proto.granted == [] && !proto.sysView
    requires proto.Marker() == 0 && proto.pend.Contents() == [] && 0x8000 <= |p.payload| <= proto.MaxPayload()
    modifies proto, proto.pend, proto.pend.data, proto.down, proto.down.data, proto.blocks[0], proto.blocks[1]
    ensures proto.Valid() && ok && proto.granted == [p]
    ensures DecodeAll(false, proto.host) != Some([p])
  {
    hide Proto.Valid, Encode, EncodeAll, DecodeAll, Ring.Contents, Ring.Valid;
    ok := proto.UpBufferWrite(p, Refuse, [Refuse]);
    var answers: nat -> seq<Answer> := _ => [Accept([])];
    assert AnyAccepted([Accept([])]) by {
      assert [Accept([])][0].Accept?;
    }
    assert forall k: nat :: AnyAccepted(answers(k));
    ok := proto.Flush(0, answers);
    assert AsRead(false, [p]) == [p];
    assert !Within([p], MaxSize(false)) by {
      assert |[p][0].payload| > MaxSize(false);
    }
  }
}
