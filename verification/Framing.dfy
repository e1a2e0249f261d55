/** The wire format of a capture: frames of [response type unless the capture is local],
    a four-byte little-endian payload length, and the payload. */
module Framing {
  import opened RingIndex

  const RESPONSE_APC_DATA: byte := 3
  const LENGTH_BYTES := 4

  function TypeLength(local: bool): nat { if local then 0 else 1 }

  /** The low four bytes of `n`, least significant first. */
  function LittleEndian(n: nat): (s: seq<byte>)
    ensures |s| == LENGTH_BYTES
  {
    [n % 256, n / 256 % 256, n / 65536 % 256, n / 16777216 % 256]
  }

  function FromLittleEndian(s: seq<byte>): nat
    requires |s| == LENGTH_BYTES
  {
    (s[0] as int) + 256 * (s[1] as int) + 65536 * (s[2] as int) + 16777216 * (s[3] as int)
  }

  lemma LittleEndianRoundTrip(n: nat)
    requires n < 0x1_0000_0000
    ensures FromLittleEndian(LittleEndian(n)) == n
  {
    assert n / 65536 == n / 256 / 256;
    assert n / 16777216 == n / 65536 / 256;
  }

  predicate Payload(p: seq<byte>) { |p| < 0x1_0000_0000 }

  function Prefix(local: bool, n: nat): (s: seq<byte>)
    ensures |s| == TypeLength(local) + LENGTH_BYTES
  {
    (if local then [] else [RESPONSE_APC_DATA]) + LittleEndian(n)
  }

  function Frame(local: bool, payload: seq<byte>): seq<byte> {
    Prefix(local, |payload|) + payload
  }

  /** The bytes of a list of frames. */
  function Wire(local: bool, frames: seq<seq<byte>>): seq<byte> {
    if frames == [] then []
    else Wire(local, frames[..|frames| - 1]) + Frame(local, frames[|frames| - 1])
  }

  datatype Parsed = Bad | Frames(frames: seq<seq<byte>>)

  /** A reader of the capture: cut the stream into payloads. */
  function Parse(local: bool, s: seq<byte>): Parsed {
    var t := TypeLength(local);
    if s == [] then Frames([])
    else if |s| < t + LENGTH_BYTES || (!local && s[0] != RESPONSE_APC_DATA) then Bad
    else
      var n := FromLittleEndian(s[t..t + LENGTH_BYTES]);
      var start := t + LENGTH_BYTES;
      if |s| < start + n then Bad
      else
        match Parse(local, s[start + n..])
        case Bad => Bad
        case Frames(fs) => Frames([s[start..start + n]] + fs)
  }

  lemma WireSnoc(local: bool, fs: seq<seq<byte>>, f: seq<byte>)
    ensures Wire(local, fs + [f]) == Wire(local, fs) + Frame(local, f)
  {
    assert (fs + [f])[..|fs|] == fs;
  }

  lemma {:induction false} WireCons(local: bool, f: seq<byte>, fs: seq<seq<byte>>)
    ensures Wire(local, [f] + fs) == Frame(local, f) + Wire(local, fs)
  {
    hide Frame;
    if fs == [] {
      WireSnoc(local, [], f);
      assert [f] + fs == [] + [f];
    } else {
      hide Wire;
      var init, last := fs[..|fs| - 1], fs[|fs| - 1];
      WireSnoc(local, init, last);
      assert fs == init + [last];
      assert [f] + fs == ([f] + init) + [last];
      WireSnoc(local, [f] + init, last);
      WireCons(local, f, init);
    }
  }

  lemma ParseFrame(local: bool, f: seq<byte>, rest: seq<byte>)
    requires Payload(f)
    ensures Parse(local, Frame(local, f) + rest)
         == match Parse(local, rest)
            case Bad => Bad
            case Frames(fs) => Frames([f] + fs)
  {
    var s := Frame(local, f) + rest;
    var t := TypeLength(local);
    assert s[t..t + LENGTH_BYTES] == LittleEndian(|f|);
    LittleEndianRoundTrip(|f|);
    var start := t + LENGTH_BYTES;
    assert s[start..start + |f|] == f;
    assert s[start + |f|..] == rest;
  }

  /** The stream is self-delimiting: parsing it recovers exactly the payloads, in order. */
  lemma {:induction false} ParseWire(local: bool, frames: seq<seq<byte>>)
    requires forall f :: f in frames ==> Payload(f)
    ensures Parse(local, Wire(local, frames)) == Frames(frames)
  {
    if frames != [] {
      assert frames == [frames[0]] + frames[1..];
      WireCons(local, frames[0], frames[1..]);
      ParseWire(local, frames[1..]);
      ParseFrame(local, frames[0], Wire(local, frames[1..]));
    }
  }

  /** What the frames carry beyond their common header. */
  function Bodies(header: nat, frames: seq<seq<byte>>): seq<byte> {
    if frames == [] then []
    else
      var last := frames[|frames| - 1];
      Bodies(header, frames[..|frames| - 1]) + (if header <= |last| then last[header..] else [])
  }

  lemma BodiesSnoc(header: nat, fs: seq<seq<byte>>, f: seq<byte>)
    requires header <= |f|
    ensures Bodies(header, fs + [f]) == Bodies(header, fs) + f[header..]
  {
    assert (fs + [f])[..|fs|] == fs;
  }
}
