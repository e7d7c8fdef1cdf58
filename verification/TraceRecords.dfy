/**
 * The packets the trace transport puts into its byte stream, and the host's way
 * of taking them out again.  A packet is a header of two equal length fields
 * followed by the user's data; the fields are one byte wide in the SystemView
 * build and two bytes wide, with the core number in the top bit, otherwise.
 */
module TraceRecords {
  import opened Common

  /** There are two cores. */
  type coreId = x: nat | x < 2

  datatype Packet = Packet(core: coreId, payload: seq<byte>)

  function HeaderSize(sysView: bool): nat { if sysView then 2 else 4 }

  /** `(core << 15) | size` for a core number of one bit. */
  function BlockSz(core: coreId, size: nat): nat {
    if core == 1 && size / 0x8000 % 2 == 0 then size + 0x8000 else size
  }

  function Le16(v: nat): (s: seq<byte>)
    ensures |s| == 2
  {
    [v % 256, v / 256 % 256]
  }

  /** A packet once it has been put: both size fields carry the same value. */
  function Encode(sysView: bool, p: Packet): (s: seq<byte>)
    ensures |s| == HeaderSize(sysView) + |p.payload|
  {
    if sysView then [|p.payload| % 256, |p.payload| % 256] + p.payload
    else
      var field := Le16(BlockSz(p.core, |p.payload|));
      field + field + p.payload
  }

  function EncodeAll(sysView: bool, ps: seq<Packet>): seq<byte> {
    if ps == [] then [] else Encode(sysView, ps[0]) + EncodeAll(sysView, ps[1..])
  }

  lemma {:induction false} EncodeAllAppend(sysView: bool, ps: seq<Packet>, p: Packet)
    ensures EncodeAll(sysView, ps + [p]) == EncodeAll(sysView, ps) + Encode(sysView, p)
  {
    hide Encode;
    if ps == [] {
      assert [] + [p] == [p] && [p][1..] == [];
    } else {
      TailOfAppend(ps, p);
      EncodeAllAppend(sysView, ps[1..], p);
      Assoc(Encode(sysView, ps[0]), EncodeAll(sysView, ps[1..]), Encode(sysView, p));
    }
  }

  /** What the header fields can express: one bit of core, 15 (or 8) bits of size. */
  predicate Expressible(sysView: bool, p: Packet) {
    if sysView then p.core == 0 && |p.payload| < 256
    else |p.payload| < 0x8000
  }

  function FromLe16(lo: byte, hi: byte): nat { lo as int + 256 * (hi as int) }

  /** The size field and the core number in it. */
  function SizeIn(sysView: bool, field: nat): nat { if sysView then field else field % 0x8000 }

  function CoreIn(sysView: bool, field: nat): coreId { if sysView then 0 else field / 0x8000 % 2 }

  /** The first and the second header field of a stream. */
  function FieldAt(sysView: bool, s: seq<byte>, k: nat): nat
    requires k < 2 && HeaderSize(sysView) <= |s|
  {
    if sysView then s[k] else FromLe16(s[2 * k], s[2 * k + 1])
  }

  /** The host's reading of a byte stream; None if it ends inside a packet. */
  function DecodeAll(sysView: bool, s: seq<byte>): Option<seq<Packet>>
    decreases |s|
  {
    if s == [] then Some([])
    else if |s| < HeaderSize(sysView) then None
    else
      var field := FieldAt(sysView, s, 0);
      var end := HeaderSize(sysView) + SizeIn(sysView, field);
      if FieldAt(sysView, s, 1) != field || |s| < end then None
      else
        match DecodeAll(sysView, s[end..])
        case None => None
        case Some(rest) =>
          Some([Packet(CoreIn(sysView, field), s[HeaderSize(sysView)..end])] + rest)
  }

  /** The header fields of a packet carry its size and its core. */
  lemma HeaderRoundTrip(sysView: bool, p: Packet, tail: seq<byte>)
    requires Expressible(sysView, p)
    ensures var s := Encode(sysView, p) + tail;
            && FieldAt(sysView, s, 0) == FieldAt(sysView, s, 1)
            && SizeIn(sysView, FieldAt(sysView, s, 0)) == |p.payload|
            && CoreIn(sysView, FieldAt(sysView, s, 0)) == p.core
  {
    var s := Encode(sysView, p) + tail;
    if sysView {
      assert s[0] == s[1] == |p.payload|;
    } else {
      var v := BlockSz(p.core, |p.payload|);
      assert v == p.core * 0x8000 + |p.payload|;
      assert s[0] == s[2] == v % 256 && s[1] == s[3] == v / 256;
    }
  }

  lemma {:induction false} DecodeOne(sysView: bool, p: Packet, tail: seq<byte>)
    requires Expressible(sysView, p)
    ensures DecodeAll(sysView, Encode(sysView, p) + tail) ==
            match DecodeAll(sysView, tail)
            case None => None
            case Some(rest) => Some([p] + rest)
  {
    var s := Encode(sysView, p) + tail;
    var end := HeaderSize(sysView) + |p.payload|;
    HeaderRoundTrip(sysView, p, tail);
    assert s[HeaderSize(sysView)..end] == p.payload;
    assert s[end..] == tail;
  }

  /** Decoding what was encoded gives the packets back, in order. */
  lemma {:induction false} RoundTrip(sysView: bool, ps: seq<Packet>)
    requires forall i :: 0 <= i < |ps| ==> Expressible(sysView, ps[i])
    ensures DecodeAll(sysView, EncodeAll(sysView, ps)) == Some(ps)
  {
    if ps != [] {
      RoundTrip(sysView, ps[1..]);
      DecodeOne(sysView, ps[0], EncodeAll(sysView, ps[1..]));
      assert [ps[0]] + ps[1..] == ps;
    }
  }

  /** A single packet comes back exactly if the header can express it. */
  lemma DecodesIff(sysView: bool, p: Packet)
    ensures DecodeAll(sysView, Encode(sysView, p)) == Some([p]) <==> Expressible(sysView, p)
  {
    var s := Encode(sysView, p);
    assert s + [] == s;
    if Expressible(sysView, p) {
      DecodeOne(sysView, p, []);
      assert [p] + [] == [p];
    } else {
      hide Encode;
      var r := DecodeAll(sysView, s);
      if r.Some? {
        FirstRead(sysView, s);
        FieldBound(sysView, s);
      }
    }
  }

  lemma FirstRead(sysView: bool, s: seq<byte>)
    requires DecodeAll(sysView, s).Some? && s != []
    ensures HeaderSize(sysView) <= |s|
    ensures var r, field := DecodeAll(sysView, s).value, FieldAt(sysView, s, 0);
            r != [] && r[0].core == CoreIn(sysView, field) && |r[0].payload| == SizeIn(sysView, field)
  {
  }

  lemma FieldBound(sysView: bool, s: seq<byte>)
    requires HeaderSize(sysView) <= |s|
    ensures SizeIn(sysView, FieldAt(sysView, s, 0)) < if sysView then 256 else 0x8000
  {
  }

  /** No payload is longer than max. */
  predicate Within(ps: seq<Packet>, max: int) {
    forall i :: 0 <= i < |ps| ==> |ps[i].payload| <= max
  }

  /** The packets as the host gets them: without the core number in the SystemView build. */
  function AsRead(sysView: bool, ps: seq<Packet>): (r: seq<Packet>)
    ensures |r| == |ps|
    ensures forall i :: 0 <= i < |ps| ==>
              r[i].payload == ps[i].payload && r[i].core == if sysView then 0 else ps[i].core
  {
    seq(|ps|, i requires 0 <= i < |ps| => if sysView then ps[i].(core := 0) else ps[i])
  }

  /** The longest payload that the header's size field can tell. */
  function MaxSize(sysView: bool): nat { if sysView then 255 else 0x7FFF }

  /** The host gets all packets in order, whatever their cores, exactly if none is longer than that. */
  lemma {:induction false} HostReads(sysView: bool, ps: seq<Packet>)
    ensures DecodeAll(sysView, EncodeAll(sysView, ps)) == Some(AsRead(sysView, ps)) <==> Within(ps, MaxSize(sysView))
  {
    hide DecodeAll, AsRead;
    if ps == [] {
      assert DecodeAll(sysView, []) == Some([]) by {
        NothingReads(sysView);
      }
    } else {
      var p, tail := ps[0], EncodeAll(sysView, ps[1..]);
      HostReads(sysView, ps[1..]);
      AsReadFirst(sysView, ps);
      WithinFirst(ps, MaxSize(sysView));
      if |p.payload| <= MaxSize(sysView) {
        EncodeFirst(sysView, p);
        var q := AsRead(sysView, ps)[0];
        DecodeOne(sysView, q, tail);
        if DecodeAll(sysView, tail).Some? {
          SameTails(q, DecodeAll(sysView, tail).value, AsRead(sysView, ps[1..]));
        }
      } else {
        LongFirst(sysView, p, tail);
      }
    }
  }

  lemma SameTails(q: Packet, a: seq<Packet>, b: seq<Packet>)
    ensures [q] + a == [q] + b <==> a == b
  {
    assert ([q] + a)[1..] == a && ([q] + b)[1..] == b;
  }

  lemma NothingReads(sysView: bool)
    ensures DecodeAll(sysView, []) == Some([])
  {
  }

  lemma AsReadFirst(sysView: bool, ps: seq<Packet>)
    requires ps != []
    ensures AsRead(sysView, ps) == [AsRead(sysView, ps)[0]] + AsRead(sysView, ps[1..])
    ensures AsRead(sysView, ps)[0] == if sysView then ps[0].(core := 0) else ps[0]
  {
  }

  lemma WithinFirst(ps: seq<Packet>, max: int)
    requires ps != []
    ensures Within(ps, max) <==> |ps[0].payload| <= max && Within(ps[1..], max)
  {
    if Within(ps[1..], max) {
      forall i | 1 <= i < |ps| ensures |ps[i].payload| <= max {
        assert ps[i] == ps[1..][i - 1];
      }
    }
  }

  /** The core number does not show in a SystemView packet. */
  lemma EncodeFirst(sysView: bool, p: Packet)
    ensures sysView ==> Encode(sysView, p.(core := 0)) == Encode(sysView, p)
  {
  }

  /** Of a longer packet a shorter one is read, if any. */
  lemma LongFirst(sysView: bool, p: Packet, tail: seq<byte>)
    requires |p.payload| > MaxSize(sysView)
    ensures var r := DecodeAll(sysView, Encode(sysView, p) + tail);
            r.Some? ==> r.value != [] && |r.value[0].payload| < |p.payload|
  {
    hide Encode;
    var s := Encode(sysView, p) + tail;
    if DecodeAll(sysView, s).Some? {
      FirstRead(sysView, s);
      FieldBound(sysView, s);
    }
  }

  /** The headers on the wire: size twice, little-endian with the core on top, or in one byte each. */
  lemma WireExample()
    ensures Encode(false, Packet(1, seq(0x102, _ => 7)))[..4] == [0x02, 0x81, 0x02, 0x81]
    ensures Encode(false, Packet(0, [7, 8])) == [2, 0, 2, 0, 7, 8]
    ensures Encode(true, Packet(1, [7, 8])) == [2, 2, 7, 8]
  {
  }
}
