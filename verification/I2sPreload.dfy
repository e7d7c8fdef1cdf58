/**
 * Preloading a transmitter before it is enabled: data goes into the DMA buffers
 * from the first one on, over any number of calls, and the buffers not yet
 * reached wait in the message queue.
 */
module I2sPreload {
  import opened Common
  import opened I2sQueue

  class Transmitter {
    const bufSize: nat
    const bufs: seq<array<byte>>
    var queue: seq<nat>
    var cur: Option<nat>
    var rwPos: nat
    /** The buffers that are full, and everything loaded so far. */
    ghost var full: seq<seq<byte>>
    ghost var loaded: seq<byte>

    ghost predicate Shape() {
      && bufSize > 0
      && |bufs| >= 2
      && (forall i :: 0 <= i < |bufs| ==> bufs[i].Length == bufSize)
      && forall i, j :: 0 <= i < j < |bufs| ==> bufs[i] != bufs[j]
    }

    /** The buffers behind buffer k wait in the queue. */
    ghost predicate QueueFrom(k: nat)
      reads this
    {
      |queue| == |bufs| - 1 - k && forall i :: 0 <= i < |queue| ==> queue[i] == k + 1 + i
    }

    ghost predicate Valid()
      reads this, bufs
    {
      && Shape()
      && (cur.None? ==> full == [] && loaded == [])
      && (cur.Some? ==>
            && |full| == cur.value < |bufs|
            && rwPos <= bufSize
            && QueueFrom(cur.value)
            && (forall i :: 0 <= i < |full| ==> bufs[i][..] == full[i])
            && loaded == Flatten(full) + bufs[cur.value][..rwPos])
    }

    /** Every buffer is full. */
    ghost predicate Exhausted()
      reads this
    {
      cur == Some(|bufs| - 1) && rwPos == bufSize
    }

    constructor (bufs: seq<array<byte>>, bufSize: nat)
      requires bufSize > 0 && |bufs| >= 2 && forall i :: 0 <= i < |bufs| ==> bufs[i].Length == bufSize
      requires forall i, j :: 0 <= i < j < |bufs| ==> bufs[i] != bufs[j]
      ensures Valid() && this.bufs == bufs && this.bufSize == bufSize && loaded == []
    {
      this.bufs := bufs;
      this.bufSize := bufSize;
      queue := [];
      cur := None;
      rwPos := 0;
      full := [];
      loaded := [];
    }

    /** First preload: all buffers but the first are queued, and the first is worked on. */
    method Start()
      requires Valid() && cur.None?
      modifies this
      ensures Valid() && cur == Some(0) && loaded == []
    {
      queue := [];
      for i := 1 to |bufs|
        invariant |queue| == i - 1 && forall k :: 0 <= k < |queue| ==> queue[k] == k + 1
        invariant cur == old(cur) && full == old(full) && loaded == old(loaded)
      {
        queue := queue + [i];
      }
      cur := Some(0);
      rwPos := 0;
      assert bufs[0][..0] == [];
    }

    /** On to the next buffer, if there is one. */
    method NextBuffer() returns (ok: bool)
      requires Valid() && cur.Some? && rwPos == bufSize
      modifies this
      ensures Valid() && loaded == old(loaded) && cur.Some?
      ensures ok <==> !old(Exhausted())
      ensures ok ==> rwPos == 0 && cur.value == old(cur).value + 1
      ensures !ok ==> Exhausted()
    {
      if queue == [] {
        return false;
      }
      ghost var done := bufs[cur.value][..];
      assert done == bufs[cur.value][..rwPos];
      FlattenAppend(full, done);
      full := full + [done];
      cur := Some(queue[0]);
      queue := queue[1..];
      rwPos := 0;
      assert bufs[cur.value][..0] == [];
      return true;
    }

    /** Bytes copied to where the current buffer goes on. */
    method CopyIn(src: seq<byte>)
      requires Valid() && cur.Some? && rwPos + |src| <= bufSize
      modifies `rwPos, `loaded, bufs[cur.value]
      ensures Valid() && rwPos == old(rwPos) + |src|
      ensures loaded == old(loaded) + src
    {
      hide Flatten;
      var b := bufs[cur.value];
      ghost var before := b[..rwPos];
      forall i | 0 <= i < |src| {
        b[rwPos + i] := src[i];
      }
      assert b[..rwPos + |src|] == before + src;
      Assoc(Flatten(full), before, src);
      rwPos := rwPos + |src|;
      loaded := loaded + src;
    }

    /**
     * One call of preload.  What it reports is loaded behind everything loaded before, in order,
     * and it stops short of the whole only when every buffer is full.
     */
    method Preload(src: seq<byte>) returns (n: nat)
      requires Valid()
      modifies this, bufs
      ensures Valid() && cur.Some?
      ensures n <= |src| && loaded == old(loaded) + src[..n]
      ensures n < |src| ==> Exhausted()
    {
      hide Flatten;
      if cur.None? {
        Start();
      }
      n := 0;
      while n < |src|
        invariant Valid() && cur.Some? && n <= |src|
        invariant loaded == old(loaded) + src[..n]
        decreases |src| - n
      {
        if rwPos == bufSize {
          var ok := NextBuffer();
          if !ok {
            break;
          }
        }
        var k := if |src| - n > bufSize - rwPos then bufSize - rwPos else |src| - n;
        CopyIn(src[n..n + k]);
        assert src[..n] + src[n..n + k] == src[..n + k];
        Assoc(old(loaded), src[..n], src[n..n + k]);
        n := n + k;
      }
    }

    /** In front of the first buffer to be sent, the queue is an arc of the ring. */
    lemma QueueIsArcBeforeStart()
      requires Valid() && cur.Some?
      ensures IsArc(queue, 0, |bufs|)
    {
    }
  }
}
