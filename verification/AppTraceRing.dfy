/**
 * The application-trace ring buffer.
 *
 * The ring hands out contiguous regions only.  A request that does not fit in
 * front of the end of the storage wraps early: the current size is shrunk to
 * the write position and is restored when the reader wraps.  Everything here is
 * stated against one abstract value, the byte queue `Contents()`.
 */
module AppTraceRing {
  import opened Common

  /** The positions of a ring over `size` cells. */
  datatype Pos = Pos(size: nat, cur: nat, rd: nat, wr: nat) {

    /** Unread cells are [rd, wr), or [rd, cur) followed by [0, wr). */
    predicate Valid() {
      if rd <= wr then cur == size && (wr < size || wr == 0)
      else rd < cur <= size
    }

    function Stored(): nat
      requires Valid()
    {
      if rd <= wr then wr - rd else cur - rd + wr
    }

    /** Cell i holds an unread byte. */
    predicate Unread(i: nat) {
      if rd <= wr then rd <= i < wr else rd <= i < cur || i < wr
    }

    /**
     * A region of n cells can be granted without the writer catching up with the
     * reader: directly behind the newest byte, or at the start of the storage.
     */
    predicate HasRoom(n: nat) {
      if rd <= wr then
        || wr + n < size
        || (rd != 0 && wr + n == size)
        || n < rd
      else
        wr + n < rd
    }

    /**
     * The n cells from off on could be written without touching an unread byte, without running over
     * the reader's position, and without stopping right at it, where a full ring would look empty.
     */
    predicate Usable(off: nat, n: nat) {
      && off + n <= cur
      && (forall i :: off <= i < off + n ==> !Unread(i) && (i == rd ==> i == off))
      && rd != if off + n == size then 0 else off + n
    }

    /** The newest n bytes are the cells from off on. */
    predicate NewestAt(off: nat, n: nat) {
      || (rd <= wr && rd <= off && off + n == wr)
      || (rd > wr && off + n == wr)
      || (rd > wr == 0 && rd <= off && off + n == cur)
    }
  }

  /** The unread bytes of a storage, oldest first. */
  function Queue(mem: seq<byte>, p: Pos): (q: seq<byte>)
    requires p.Valid() && |mem| == p.size
    ensures |q| == p.Stored()
  {
    if p.rd <= p.wr then mem[p.rd..p.wr] else mem[p.rd..p.cur] + mem[..p.wr]
  }

  /** There is room exactly if some cells, wherever they are, could be written. */
  lemma RoomIff(p: Pos, n: nat)
    requires p.Valid()
    ensures n > 0 ==> (p.HasRoom(n) <==> exists off: nat :: p.Usable(off, n))
    ensures p.HasRoom(0) <==> p.size > 0
  {
    if n > 0 {
      if p.HasRoom(n) {
        assert p.Usable(if p.rd <= p.wr && (p.wr + n > p.size || (p.wr + n == p.size && p.rd == 0)) then 0 else p.wr, n);
      }
      forall off: nat | p.Usable(off, n) ensures p.HasRoom(n) {
        UsableRoom(p, off, n);
      }
    }
  }

  lemma UsableRoom(p: Pos, off: nat, n: nat)
    requires p.Valid() && n > 0 && p.Usable(off, n)
    ensures p.HasRoom(n)
  {
    assert p.Unread(p.rd) <==> p.rd != p.wr;
    assert !p.Unread(off) && !p.Unread(off + n - 1);
  }

  lemma NothingUsable(p: Pos, n: nat)
    requires p.Valid()
    ensures n > 0 && !p.HasRoom(n) ==> forall off: nat :: !p.Usable(off, n)
  {
    hide Pos.Usable, Pos.HasRoom;
    RoomIff(p, n);
  }

  /** Newly granted cells extend the queue: in place, by an exact wrap or by an early wrap. */
  lemma Granted(mem: seq<byte>, p: Pos, p': Pos, off: nat, n: nat)
    requires p.Valid() && p'.Valid() && |mem| == p.size == p'.size && off + n <= p.size
    requires || (p' == p.(wr := p.wr + n) && off == p.wr && (p.rd > p.wr ==> p.wr + n < p.rd))
             || (p' == p.(wr := 0) && off == p.wr && 0 < p.rd <= p.wr && p.wr + n == p.size)
             || (p.rd < p.wr && p' == p.(cur := p.wr, wr := n) && off == 0)
             || (p.rd == p.wr && p' == Pos(p.size, p.size, 0, n) && off == 0)
    ensures Queue(mem, p') == Queue(mem, p) + mem[off..off + n]
  {
    if p' == p.(wr := p.wr + n) && off == p.wr {
      if p.rd > p.wr {
        assert mem[..p'.wr] == mem[..p.wr] + mem[off..off + n];
        Assoc(mem[p.rd..p.cur], mem[..p.wr], mem[off..off + n]);
      }
    } else if p' == p.(wr := 0) && off == p.wr {
      assert mem[p.rd..p.cur] == mem[p.rd..p.wr] + mem[off..off + n];
    }
  }

  /** Released cells are the front of the queue. */
  lemma Released(mem: seq<byte>, p: Pos, p': Pos, n: nat)
    requires p.Valid() && p'.Valid() && |mem| == p.size == p'.size && p.rd + n <= p.size
    requires || (p' == p.(rd := p.rd + n) && (p.rd <= p.wr ==> p.rd + n <= p.wr))
             || (p.rd > p.wr && p.rd + n == p.cur && p' == p.(cur := p.size, rd := 0))
    ensures n <= |Queue(mem, p)|
    ensures mem[p.rd..p.rd + n] == Queue(mem, p)[..n]
    ensures Queue(mem, p') == Queue(mem, p)[n..]
  {
    if p.rd > p.wr {
      var a, b := mem[p.rd..p.cur], mem[..p.wr];
      assert (a + b)[..n] == a[..n];
      assert (a + b)[n..] == a[n..] + b;
    }
  }

  /** Writing the newest cells changes the back of the queue only. */
  lemma Filled(mem: seq<byte>, mem': seq<byte>, p: Pos, off: nat, src: seq<byte>)
    requires p.Valid() && |mem| == |mem'| == p.size && off + |src| <= p.size && p.NewestAt(off, |src|)
    requires mem' == mem[..off] + src + mem[off + |src|..]
    ensures |src| <= |Queue(mem, p)|
    ensures Queue(mem', p) == Queue(mem, p)[..|Queue(mem, p)| - |src|] + src
  {
    assert mem'[..off] == mem[..off] && mem'[off..off + |src|] == src;
    if p.rd <= p.wr {
      assert mem'[p.rd..p.wr] == mem[p.rd..off] + src;
      assert mem[p.rd..p.wr][..off - p.rd] == mem[p.rd..off];
    } else if off + |src| == p.wr {
      assert mem'[p.rd..p.cur] == mem[p.rd..p.cur];
      assert mem'[..p.wr] == mem[..off] + src;
      Assoc(mem[p.rd..p.cur], mem[..off], src);
      assert Queue(mem, p)[..p.cur - p.rd + off] == mem[p.rd..p.cur] + mem[..off];
    } else {
      assert mem'[p.rd..p.cur] == mem[p.rd..off] + src;
      assert Queue(mem, p)[..off - p.rd] == mem[p.rd..off];
    }
  }

  class Ring {
    const data: array<byte>
    var curSize: nat
    var rd: nat
    var wr: nat

    ghost function At(): Pos
      reads this
    {
      Pos(data.Length, curSize, rd, wr)
    }

    ghost predicate Valid()
      reads this
    {
      At().Valid()
    }

    /** The queue of unread bytes, oldest first. */
    ghost function Contents(): (s: seq<byte>)
      requires Valid()
      reads this, data
      ensures |s| == Stored()
    {
      Queue(data[..], At())
    }

    ghost function Stored(): nat
      requires Valid()
      reads this
    {
      At().Stored()
    }

    constructor (size: nat)
      ensures Valid() && fresh(data) && data.Length == size
      ensures Contents() == [] && At() == Pos(size, size, 0, 0)
    {
      data := new byte[size];
      curSize := size;
      rd := 0;
      wr := 0;
    }

    /** Only the write position moved, by n and around the end of the storage: no early wrap. */
    twostate predicate Advanced(n: nat)
      reads this
    {
      && curSize == old(curSize)
      && rd == old(rd)
      && wr == if old(wr) + n == data.Length then 0 else old(wr) + n
    }

    /**
     * Grants n contiguous bytes.  The granted cells held no unread byte, and with
     * whatever they hold they become the newest part of the queue; nothing of the
     * older part is lost, duplicated or reordered by an early wrap.  A refusal means that no n cells
     * in a row are usable.
     */
    method Produce(n: nat) returns (r: Option<nat>)
      requires Valid()
      modifies this
      ensures Valid()
      ensures r.Some? <==> old(At()).HasRoom(n)
      ensures r.None? ==> At() == old(At())
      ensures r.None? && n > 0 ==> forall off: nat :: !At().Usable(off, n)
      ensures r.Some? ==>
                && r.value + n <= data.Length
                && At().NewestAt(r.value, n)
                && (forall i :: r.value <= i < r.value + n ==> !old(At()).Unread(i))
                && Contents() == old(Contents()) + data[..][r.value..r.value + n]
      ensures n <= old(WriteSize()) && 0 < data.Length ==> r.Some? && Advanced(n)
    {
      hide Queue, Pos.Usable;
      NothingUsable(At(), n);
      var ptr := wr;
      if rd <= wr {
        if wr + n >= data.Length {
          if rd == 0 {
            return None;
          }
          if wr + n == data.Length {
            wr := 0;
          } else {
            if n > rd - 1 {
              return None;
            }
            curSize := wr;
            wr := 0;
            ptr := 0;
            if rd == curSize {
              rd := 0;
              if curSize < data.Length {
                curSize := data.Length;
              }
            }
            wr := wr + n;
          }
        } else {
          wr := wr + n;
        }
      } else {
        if n > rd - wr - 1 {
          return None;
        }
        wr := wr + n;
      }
      Granted(data[..], old(At()), At(), ptr, n);
      return Some(ptr);
    }

    /** Releases the n oldest bytes and says where they are stored. */
    method Consume(n: nat) returns (r: Option<nat>)
      requires Valid()
      modifies this
      ensures Valid()
      ensures r.Some? <==> n <= old(ReadSize())
      ensures r.None? ==> At() == old(At())
      ensures r.Some? ==>
                && r.value + n <= data.Length
                && n <= |old(Contents())|
                && data[..][r.value..r.value + n] == old(Contents())[..n]
                && Contents() == old(Contents())[n..]
      ensures n == old(ReadSize()) ==> Stored() == 0 || rd == 0
      ensures old(curSize) == data.Length ==> curSize == data.Length
    {
      hide Queue;
      var ptr := rd;
      if rd <= wr {
        if rd + n > wr {
          return None;
        }
        rd := rd + n;
      } else {
        if rd + n > curSize {
          return None;
        } else if rd + n == curSize {
          if curSize < data.Length {
            curSize := data.Length;
          }
          rd := 0;
        } else {
          rd := rd + n;
        }
      }
      Released(data[..], old(At()), At(), n);
      return Some(ptr);
    }

    /** Bytes readable in one piece: never zero while the queue is not empty. */
    function ReadSize(): (n: nat)
      requires Valid()
      reads this
      ensures n <= Stored()
      ensures n == 0 <==> Stored() == 0
      ensures forall i :: rd <= i < rd + n ==> At().Unread(i)
      ensures rd + n == curSize || !At().Unread(rd + n)
    {
      if rd <= wr then wr - rd else curSize - rd
    }

    /** Bytes that can be granted in one piece without an early wrap. */
    function WriteSize(): (n: nat)
      requires Valid()
      reads this
      ensures 0 < data.Length ==> At().HasRoom(n)
      ensures curSize == data.Length > 0 ==>
                && n <= data.Length - 1 - Stored()
                && (n == 0 <==> Stored() == data.Length - 1)
    {
      if rd <= wr then
        var size := data.Length - wr;
        if size != 0 && rd == 0 then size - 1 else size
      else
        rd - wr - 1
    }

    /** It is the most that can be written from the write position on. */
    lemma WriteSizeIsMost(m: nat)
      requires Valid() && m > 0
      ensures m <= WriteSize() <==> At().Usable(wr, m)
    {
      var p := At();
      if p.Usable(wr, m) && rd > wr {
        assert !p.Unread(if wr + m <= rd then wr else rd);
      }
    }

    /** A granted region filled with the given bytes. */
    method Fill(off: nat, src: seq<byte>)
      requires Valid() && off + |src| <= data.Length && At().NewestAt(off, |src|)
      modifies data
      ensures |src| <= |old(Contents())|
      ensures Contents() == old(Contents())[..|old(Contents())| - |src|] + src
    {
      hide Queue;
      ghost var mem := data[..];
      forall i | 0 <= i < |src| {
        data[off + i] := src[i];
      }
      assert data[..] == mem[..off] + src + mem[off + |src|..];
      Filled(mem, data[..], At(), off, src);
    }

    /** Grant and fill as one step: the bytes are appended to the queue. */
    method Put(src: seq<byte>) returns (ok: bool)
      requires Valid()
      modifies this, data
      ensures Valid()
      ensures ok <==> old(At()).HasRoom(|src|)
      ensures Contents() == if ok then old(Contents()) + src else old(Contents())
      ensures !ok ==> At() == old(At())
      ensures |src| <= old(WriteSize()) && 0 < data.Length ==> ok && Advanced(|src|)
    {
      hide Queue;
      var r := Produce(|src|);
      match r
      case None => ok := false;
      case Some(off) =>
        assert Contents()[..|Contents()| - |src|] == old(Contents());
        Fill(off, src);
        ok := true;
    }

    /** Release and copy out as one step: the oldest bytes leave the queue. */
    method Take(n: nat) returns (bytes: seq<byte>)
      requires Valid() && n <= ReadSize()
      modifies this
      ensures Valid()
      ensures n <= |old(Contents())|
      ensures bytes == old(Contents())[..n] && Contents() == old(Contents())[n..]
      ensures n == old(ReadSize()) ==> Stored() == 0 || rd == 0
      ensures old(curSize) == data.Length ==> curSize == data.Length
    {
      hide Queue;
      var r := Consume(n);
      bytes := data[..][r.value..r.value + n];
    }
  }

  datatype Op = Write(bytes: seq<byte>) | Read(max: nat)

  /** One operation of a run, with the writes accepted and the bytes taken so far. */
  method Step(ring: Ring, op: Op, ghost start: seq<byte>, accepted: seq<seq<byte>>, taken: seq<byte>)
    returns (accepted': seq<seq<byte>>, taken': seq<byte>)
    requires ring.Valid()
    requires taken + ring.Contents() == start + Flatten(accepted)
    modifies ring, ring.data
    ensures ring.Valid()
    ensures taken' + ring.Contents() == start + Flatten(accepted')
  {
    hide Ring.Contents, Ring.Valid;
    accepted', taken' := accepted, taken;
    ghost var q := ring.Contents();
    match op {
      case Write(bytes) =>
        var ok := ring.Put(bytes);
        if ok {
          FlattenAppend(accepted, bytes);
          Assoc(taken, q, bytes);
          Assoc(start, Flatten(accepted), bytes);
          accepted' := accepted + [bytes];
        }
      case Read(max) =>
        var n := Min(max, ring.ReadSize());
        var got := ring.Take(n);
        taken' := taken + got;
        SplitAt(q, n);
        Assoc(taken, q[..n], q[n..]);
    }
  }

  /**
   * Every run of writes and reads is a run of a byte queue: what was read, followed
   * by what is still stored, is what was stored at first followed by the accepted
   * writes in order, whatever early wraps happened on the way.
   */
  method Run(ring: Ring, ops: seq<Op>) returns (accepted: seq<seq<byte>>, taken: seq<byte>)
    requires ring.Valid()
    modifies ring, ring.data
    ensures ring.Valid()
    ensures taken + ring.Contents() == old(ring.Contents()) + Flatten(accepted)
  {
    hide Ring.Contents, Ring.Valid;
    accepted, taken := [], [];
    ghost var start := ring.Contents();
    for i := 0 to |ops|
      invariant ring.Valid()
      invariant taken + ring.Contents() == start + Flatten(accepted)
    {
      accepted, taken := Step(ring, ops[i], start, accepted, taken);
    }
  }
}
