/**
 * The DAC driver's spreading of a source buffer over DMA buffers, in the plain
 * mode (a byte is a sample) and in the 16-bit mode (a byte goes into the high
 * half of a two-byte slot), with the rule that the last two pieces are averaged.
 */
module DacContinuous {
  import opened Common

  /** Bytes of DMA buffer one source byte takes. */
  function Coeff(wide: bool): (c: nat)
    ensures c == 1 || c == 2
  {
    if wide then 2 else 1
  }

  function Shifted(b: byte, offset: byte): byte { (b as int + offset as int) % 256 }

  /** The source bytes with the offset added. */
  function ShiftAll(s: seq<byte>, offset: byte): (r: seq<byte>)
    ensures |r| == |s| && forall i :: 0 <= i < |s| ==> r[i] == Shifted(s[i], offset)
  {
    seq(|s|, i requires 0 <= i < |s| => Shifted(s[i], offset))
  }

  /** The offset is added, and the sum wraps at 256. */
  lemma ShiftedMeaning(b: byte, offset: byte)
    ensures Shifted(b, offset) == if b as int + offset as int < 256 then b as int + offset as int
                                  else b as int + offset as int - 256
  {
  }

  lemma ShiftAppend(a: seq<byte>, b: seq<byte>, offset: byte)
    ensures ShiftAll(a + b, offset) == ShiftAll(a, offset) + ShiftAll(b, offset)
  {
  }

  /** What the converter plays of a DMA buffer: every byte, or the high half of every slot. */
  function Samples(buf: seq<byte>, wide: bool): (r: seq<byte>)
    ensures |r| == |buf| / Coeff(wide)
    ensures forall i :: 0 <= i < |r| ==> r[i] == if wide then buf[2 * i + 1] else buf[i]
  {
    seq(|buf| / Coeff(wide), i requires 0 <= i < |buf| / Coeff(wide) => if wide then buf[2 * i + 1] else buf[i])
  }

  /** The data goes to the high byte of each slot. */
  method LoadWide(dest: array<byte>, src: seq<byte>, offset: byte) returns (loadBytes: nat)
    requires dest.Length % 2 == 0 || |src| * 2 <= dest.Length
    modifies dest
    ensures loadBytes == Min(|src| * 2, dest.Length)
    ensures forall k :: 0 <= k < loadBytes / 2 ==> dest[2 * k + 1] == Shifted(src[k], offset)
  {
    hide Shifted;
    loadBytes := if |src| * 2 > dest.Length then dest.Length else |src| * 2;
    var i := 0;
    ghost var n := 0;
    while i < loadBytes
      invariant i == 2 * n <= loadBytes
      invariant forall k :: 0 <= k < n ==> dest[2 * k + 1] == Shifted(src[k], offset)
    {
      dest[i + 1] := Shifted(src[i / 2], offset);
      i := i + 2;
      n := n + 1;
    }
  }

  method LoadPlain(dest: array<byte>, src: seq<byte>, offset: byte) returns (loadBytes: nat)
    modifies dest
    ensures loadBytes == Min(|src|, dest.Length)
    ensures forall k :: 0 <= k < loadBytes ==> dest[k] == Shifted(src[k], offset)
  {
    hide Shifted;
    loadBytes := if |src| > dest.Length then dest.Length else |src|;
    for i := 0 to loadBytes
      invariant forall k :: 0 <= k < i ==> dest[k] == Shifted(src[k], offset)
    {
      dest[i] := Shifted(src[i], offset);
    }
  }

  /**
   * Loads as much of the source as the DMA buffer takes; it will be played as it was given.  In the
   * 16-bit mode the source has to end before an odd buffer does: the last write would be outside it.
   */
  method LoadDataIntoBuf(dest: array<byte>, src: seq<byte>, wide: bool, offset: byte) returns (loadBytes: nat)
    requires wide ==> dest.Length % 2 == 0 || |src| * 2 <= dest.Length
    modifies dest
    ensures loadBytes == Min(|src| * Coeff(wide), dest.Length)
    ensures loadBytes / Coeff(wide) <= |src|
    ensures Samples(dest[..loadBytes], wide) == ShiftAll(src[..loadBytes / Coeff(wide)], offset)
  {
    hide Shifted;
    if wide {
      loadBytes := LoadWide(dest, src, offset);
    } else {
      loadBytes := LoadPlain(dest, src, offset);
    }
  }

  // ----- synchronous writing ---------------------------------------------------------------

  /** How much one round loads, with k samples to a DMA buffer. */
  function Piece(rem: nat, flag: bool, k: nat): nat {
    Min(if rem < 2 * k && !flag then rem / 2 else rem, k)
  }

  /** What becomes of a cyclic write; without a byte to load, the program links a descriptor before the first. */
  datatype Cyclic = TooLarge | OutOfBounds | Loaded(bytes: nat)

  /** The flag after a round. */
  function NextFlag(rem: nat, flag: bool, k: nat): bool { if rem < 2 * k then !flag else flag }

  /** How much a number of rounds load. */
  function LoadedBy(rem: nat, flag: bool, k: nat, rounds: nat): (n: nat)
    ensures n <= rem
    decreases rounds
  {
    if rounds == 0 || rem == 0 then 0
    else
      var w := Piece(rem, flag, k);
      w + LoadedBy(rem - w, NextFlag(rem, flag, k), k, rounds - 1)
  }

  /**
   * The halving rule: with a clear flag, two or more buffers' worth fills one, and less is spread over two
   * pieces that take all of it and differ by one sample at most.
   */
  lemma LastTwoPieces(rem: nat, k: nat)
    requires k > 0
    ensures rem >= 2 * k ==> Piece(rem, false, k) == k
    ensures rem < 2 * k ==>
              var first := Piece(rem, false, k);
              var second := Piece(rem - first, true, k);
              first + second == rem && 0 <= second - first <= 1
  {
  }

  class Dac {
    const wide: bool
    const bufSize: nat
    const offset: byte
    const bufs: seq<array<byte>>
    /** The static flag: the first of the last two pieces has been loaded. */
    var splitFlag: bool
    /** Everything handed to the DMA so far, as it will be played. */
    ghost var played: seq<byte>

    ghost predicate Valid() {
      && bufSize > 0
      && (wide ==> bufSize % 2 == 0)
      && |bufs| >= 2
      && forall i :: 0 <= i < |bufs| ==> bufs[i].Length == bufSize
    }

    /** Samples to a DMA buffer. */
    function PerBuf(): nat { bufSize / Coeff(wide) }

    /** Takes a buffer from the pool, unless that times out, loads it and queues it for the DMA. */
    method WaitToLoad(src: seq<byte>, desc: Option<nat>) returns (ok: bool, w: nat)
      requires Valid() && src != [] && (desc.Some? ==> desc.value < |bufs|)
      modifies this, bufs
      ensures ok <==> desc.Some?
      ensures !ok ==> w == 0 && played == old(played) && splitFlag == old(splitFlag)
      ensures ok ==>
                && w == Piece(|src|, old(splitFlag), PerBuf()) <= |src|
                && splitFlag == NextFlag(|src|, old(splitFlag), PerBuf())
                && played == old(played) + ShiftAll(src[..w], offset)
    {
      hide ShiftAll, Samples, Shifted;
      assert PerBuf() > 0;
      if desc.None? {
        return false, 0;
      }
      var dma := bufs[desc.value];
      var size := |src|;
      if size * Coeff(wide) < 2 * bufSize {
        if !splitFlag {
          size := size / 2;
          splitFlag := true;
        } else {
          splitFlag := false;
        }
      }
      var loadBytes := LoadDataIntoBuf(dma, src[..size], wide, offset);
      w := loadBytes / Coeff(wide);
      played := played + Samples(dma[..loadBytes], wide);
      assert src[..size][..w] == src[..w];
      return true, w;
    }

    /**
     * Writes the source, taking DMA buffers as the pool gives them.  Whatever the flag was at first,
     * success means that every byte has been handed over once and in order; a timeout, that the bytes
     * counted have.  A round may load nothing, and still the loops end: the bytes left shrink, or the
     * flag is set.  A stopped DMA is started once all its buffers, or all bytes, are loaded (`ahead`
     * bytes).  Beginning with a clear flag, a write that succeeds leaves it clear.
     */
    method Write(src: seq<byte>, dmaStopped: bool, pool: nat -> Option<nat>)
      returns (ok: bool, loaded: nat, ahead: nat)
      requires Valid() && forall k :: pool(k).Some? ==> pool(k).value < |bufs|
      modifies this, bufs
      ensures loaded <= |src| && played == old(played) + ShiftAll(src[..loaded], offset)
      ensures ok ==> loaded == |src|
      ensures !ok ==> exists k: nat :: pool(k).None?
      ensures (forall k: nat :: pool(k).Some?) ==> ok
      ensures ok ==> ahead == if dmaStopped then LoadedBy(|src|, old(splitFlag), PerBuf(), |bufs|) else 0
      ensures ok && !old(splitFlag) ==> !splitFlag
    {
      hide Valid, ShiftAll, Piece, NextFlag, LoadedBy, SettledFlag;
      loaded, ahead := 0, 0;
      var k: nat := 0;
      assert src[..0] == [];
      StartsSettled(|src|, PerBuf());
      EmptyShift(offset);
      if dmaStopped {
        var i := 0;
        while i < |bufs| && loaded < |src|
          invariant i <= |bufs| && loaded <= |src| && played == old(played) + ShiftAll(src[..loaded], offset)
          invariant loaded + LoadedBy(|src| - loaded, splitFlag, PerBuf(), |bufs| - i) ==
                    LoadedBy(|src|, old(splitFlag), PerBuf(), |bufs|)
          invariant !old(splitFlag) ==> SettledFlag(|src| - loaded, splitFlag, PerBuf())
          decreases |bufs| - i
        {
          ghost var flag, rem := splitFlag, |src| - loaded;
          var w: nat;
          ok, w := Round(src, loaded, pool(k), old(played));
          if !ok {
            return;
          }
          StaysSettled(rem, flag, PerBuf());
          LoadedByRound(rem, flag, PerBuf(), |bufs| - i);
          i, k, loaded := i + 1, k + 1, loaded + w;
        }
        LoadedByEnd(|src| - loaded, splitFlag, PerBuf(), |bufs| - i);
        ahead := loaded;
      }
      while loaded < |src|
        invariant loaded <= |src| && played == old(played) + ShiftAll(src[..loaded], offset)
        invariant !old(splitFlag) ==> SettledFlag(|src| - loaded, splitFlag, PerBuf())
        decreases |src| - loaded, if splitFlag then 0 else 1
      {
        ghost var flag, rem := splitFlag, |src| - loaded;
        var w: nat;
        ok, w := Round(src, loaded, pool(k), old(played));
        if !ok {
          return;
        }
        StaysSettled(rem, flag, PerBuf());
        k, loaded := k + 1, loaded + w;
      }
      NotSettled(splitFlag, PerBuf());
      ok := true;
    }

    /**
     * Loads the DMA buffers once, to be played round and round.  `lens` are the lengths set in the
     * descriptors; played in order, the buffers give exactly the bytes reported as loaded.
     */
    method WriteCyclically(src: seq<byte>) returns (r: Cyclic, lens: seq<nat>, ghost chunks: seq<seq<byte>>)
      requires Valid() && forall i, j :: 0 <= i < j < |bufs| ==> bufs[i] != bufs[j]
      modifies bufs
      ensures r == TooLarge <==> |src| > bufSize * |bufs|
      ensures r == OutOfBounds <==> src == []
      ensures r.Loaded? ==>
                && r.bytes == |src| - LeftOver(|src|, |bufs|, 1, PerBuf())
                && 0 < |lens| == |chunks| <= |bufs|
                && (forall i :: 0 <= i < |lens| ==> lens[i] <= bufSize && bufs[i][..lens[i]] == chunks[i])
                && PlayedAll(chunks, wide) == ShiftAll(src[..r.bytes], offset)
    {
      hide ShiftAll, Samples, LeftOver, PlayedAll, PerBuf, CyclicSplit;
      lens, chunks := [], [];
      if |src| > bufSize * |bufs| {
        return TooLarge, lens, chunks;
      }
      var loaded, split, i := 0, 1, 0;
      assert src[..0] == [];
      EmptyShift(offset);
      NothingPlayed(wide);
      while i < |bufs| && loaded < |src|
        invariant 0 <= loaded <= |src| && (split == 1 || split == 2) && |lens| == |chunks| == i <= |bufs|
        invariant src == [] ==> i == 0
        invariant LeftOver(|src|, |bufs|, 1, PerBuf()) == LeftOver(|src| - loaded, |bufs| - i, split, PerBuf())
        invariant forall j :: 0 <= j < i ==> lens[j] <= bufSize && bufs[j][..lens[j]] == chunks[j]
        invariant PlayedAll(chunks, wide) == ShiftAll(src[..loaded], offset)
        decreases |bufs| - i
      {
        var rem := |src| - loaded;
        LeftOverNext(rem, |bufs| - i, split, CyclicSplit(rem, split), PerBuf());
        split := CyclicSplit(rem, split);
        var loadBytes, piece := LoadPiece(src, loaded, rem / split, bufs[i], chunks);
        lens, chunks := lens + [loadBytes], chunks + [piece];
        loaded := loaded + loadBytes / Coeff(wide);
        i := i + 1;
      }
      if i == 0 {
        return OutOfBounds, lens, chunks;
      }
      LeftOverDone(|src| - loaded, |bufs| - i, split, PerBuf());
      return Loaded(loaded), lens, chunks;
    }

    /** The divisor for the next piece: 2 for the first of the last two, otherwise 1. */
    function CyclicSplit(rem: nat, split: nat): (next: nat)
      requires Valid() && (split == 1 || split == 2)
      ensures next == if rem < 2 * PerBuf() then 3 - split else 1
    {
      if rem * Coeff(wide) < bufSize * 2 then 3 - split else 1
    }

    /** One more DMA buffer loaded from the source. */
    method LoadPiece(src: seq<byte>, loaded: nat, size: nat, dma: array<byte>, ghost chunks: seq<seq<byte>>)
      returns (loadBytes: nat, ghost piece: seq<byte>)
      requires Valid() && dma.Length == bufSize && loaded + size <= |src|
      requires PlayedAll(chunks, wide) == ShiftAll(src[..loaded], offset)
      modifies dma
      ensures loadBytes <= bufSize && piece == dma[..loadBytes]
      ensures loadBytes / Coeff(wide) == Min(size, PerBuf())
      ensures PlayedAll(chunks + [piece], wide) == ShiftAll(src[..loaded + loadBytes / Coeff(wide)], offset)
    {
      hide ShiftAll, Samples;
      var rest := src[loaded..];
      loadBytes := LoadDataIntoBuf(dma, rest[..size], wide, offset);
      piece := dma[..loadBytes];
      var w := loadBytes / Coeff(wide);
      assert rest[..size][..w] == rest[..w] && src[..loaded + w] == src[..loaded] + rest[..w];
      ShiftAppend(src[..loaded], rest[..w], offset);
      assert (chunks + [piece])[..|chunks|] == chunks;
    }

    /** One round of either loop. */
    method Round(src: seq<byte>, loaded: nat, desc: Option<nat>, ghost before: seq<byte>) returns (ok: bool, w: nat)
      requires Valid() && loaded < |src| && (desc.Some? ==> desc.value < |bufs|)
      requires played == before + ShiftAll(src[..loaded], offset)
      modifies this, bufs
      ensures ok <==> desc.Some?
      ensures loaded + w <= |src| && played == before + ShiftAll(src[..loaded + w], offset)
      ensures !ok ==> w == 0
      ensures ok ==> w > 0 || (!old(splitFlag) && splitFlag)
      ensures ok ==>
                && w == Piece(|src| - loaded, old(splitFlag), PerBuf())
                && splitFlag == NextFlag(|src| - loaded, old(splitFlag), PerBuf())
    {
      hide ShiftAll;
      var rest := src[loaded..];
      ok, w := WaitToLoad(rest, desc);
      assert src[..loaded + w] == src[..loaded] + rest[..w];
      ShiftAppend(src[..loaded], rest[..w], offset);
      Assoc(before, ShiftAll(src[..loaded], offset), ShiftAll(rest[..w], offset));
    }
  }

  /** The flag is set only while a last piece is to come, and that fits one buffer. */
  predicate SettledFlag(rem: nat, flag: bool, k: nat) { flag ==> 0 < rem <= k }

  lemma LoadedByRound(rem: nat, flag: bool, k: nat, rounds: nat)
    requires rem > 0 && rounds > 0
    ensures Piece(rem, flag, k) <= rem
    ensures LoadedBy(rem, flag, k, rounds) ==
            Piece(rem, flag, k) + LoadedBy(rem - Piece(rem, flag, k), NextFlag(rem, flag, k), k, rounds - 1)
  {
  }

  lemma LoadedByEnd(rem: nat, flag: bool, k: nat, rounds: nat)
    ensures rounds == 0 || rem == 0 ==> LoadedBy(rem, flag, k, rounds) == 0
  {
  }

  lemma StartsSettled(rem: nat, k: nat)
    ensures SettledFlag(rem, false, k)
  {
  }

  lemma NotSettled(flag: bool, k: nat)
    ensures SettledFlag(0, flag, k) ==> !flag
  {
  }

  lemma StaysSettled(rem: nat, flag: bool, k: nat)
    requires rem > 0
    ensures Piece(rem, flag, k) <= rem
    ensures SettledFlag(rem, flag, k) ==> SettledFlag(rem - Piece(rem, flag, k), NextFlag(rem, flag, k), k)
  {
  }

  /** What a row of loaded DMA buffers plays. */
  ghost function PlayedAll(chunks: seq<seq<byte>>, wide: bool): seq<byte> {
    if chunks == [] then []
    else PlayedAll(chunks[..|chunks| - 1], wide) + Samples(chunks[|chunks| - 1], wide)
  }

  lemma NothingPlayed(wide: bool)
    ensures PlayedAll([], wide) == []
  {
  }

  lemma LeftOverDone(rem: nat, d: nat, split: nat, k: nat)
    requires (split == 1 || split == 2) && (d == 0 || rem == 0)
    ensures LeftOver(rem, d, split, k) == rem
  {
  }

  lemma LeftOverNext(rem: nat, d: nat, split: nat, next: nat, k: nat)
    requires (split == 1 || split == 2) && d > 0 && rem > 0
    requires next == if rem < 2 * k then 3 - split else 1
    ensures Min(rem / next, k) <= rem
    ensures LeftOver(rem, d, split, k) == LeftOver(rem - Min(rem / next, k), d - 1, next, k)
  {
  }

  lemma EmptyShift(offset: byte)
    ensures ShiftAll([], offset) == []
  {
  }

  // ----- cyclic writing ------------------------------------------------------------------------

  /** What is left unloaded of `rem` samples with d buffers of k samples to go. */
  function LeftOver(rem: nat, d: nat, split: nat, k: nat): nat
    requires split == 1 || split == 2
    decreases d
  {
    if d == 0 || rem == 0 then rem
    else
      var next := if rem < 2 * k then 3 - split else 1;
      LeftOver(rem - Min(rem / next, k), d - 1, next, k)
  }

  /** The closed form: everything fits below d buffers' worth; from there on something is left. */
  function Unloaded(rem: nat, d: nat, k: nat): nat
    requires d > 0
  {
    if rem < d * k then 0
    else if rem < (d + 1) * k then
      var last := rem - (d - 1) * k;
      last - last / 2
    else rem - d * k
  }

  /** Fewer than two buffers' worth is halved, and with two buffers to go all of it is loaded. */
  lemma LastTwo(rem: nat, d: nat, k: nat)
    requires rem < 2 * k && d >= 2
    ensures LeftOver(rem, d, 1, k) == 0
  {
    var half := rem - rem / 2;
    if rem > 0 {
      assert LeftOver(rem, d, 1, k) == LeftOver(half, d - 1, 2, k);
      assert LeftOver(half, d - 1, 2, k) == LeftOver(0, d - 2, 1, k);
    }
  }

  lemma {:induction false} LeftOverClosed(rem: nat, d: nat, k: nat)
    requires d >= 2 && k > 0
    ensures LeftOver(rem, d, 1, k) == Unloaded(rem, d, k)
    decreases d
  {
    hide Unloaded;
    UnloadedStep(rem, d, k);
    if rem < 2 * k {
      LastTwo(rem, d, k);
    } else {
      assert LeftOver(rem, d, 1, k) == LeftOver(rem - k, d - 1, 1, k);
      if d > 2 {
        LeftOverClosed(rem - k, d - 1, k);
      } else {
        OneLeft(rem - k, k);
      }
    }
  }

  lemma OneLeft(rem: nat, k: nat)
    requires k > 0 && rem >= k
    ensures LeftOver(rem, 1, 1, k) == if rem < 2 * k then rem - rem / 2 else rem - k
  {
    var next := if rem < 2 * k then 2 else 1;
    assert LeftOver(rem, 1, 1, k) == LeftOver(rem - Min(rem / next, k), 0, next, k);
  }

  lemma UnloadedStep(rem: nat, d: nat, k: nat)
    requires d >= 2 && k > 0
    ensures rem < 2 * k ==> Unloaded(rem, d, k) == 0
    ensures rem >= 2 * k ==> Unloaded(rem, d, k) == Unloaded(rem - k, d - 1, k)
    ensures d == 2 && rem >= 2 * k ==>
              Unloaded(rem, d, k) == if rem < 3 * k then (rem - k) - (rem - k) / 2 else rem - 2 * k
  {
    assert d * k == (d - 1) * k + k && (d + 1) * k == d * k + k;
    assert (d - 1) * k == (d - 2) * k + k && (d - 2) * k >= 0;
  }

  /** With 8-bit loading: all of it is loaded below the full size, and at the full size not. */
  lemma CyclicFullSize(d: nat, s: nat, size: nat)
    requires d >= 2 && s > 0 && 1 <= size <= d * s
    ensures LeftOver(size, d, 1, s) == if size < d * s then 0 else s - s / 2
  {
    LeftOverClosed(size, d, s);
    assert (d + 1) * s == d * s + s && d * s == (d - 1) * s + s;
  }
}
