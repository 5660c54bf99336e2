// Length-prefixed frames on a plugin connection (proto/plugin/v1/frame.go).
// The JSON body is an abstract codec: encoding may fail, decoding may refuse.
module Frames {
  import opened Octets
  import opened Wrappers

  const MAX_FRAME_SIZE := 0x40_0000

  /** The limits of Go's uint32 and of a 32-bit int. */
  const MAX_UINT32 := 0xFFFF_FFFF
  const MAX_INT32 := 0x7FFF_FFFF

  datatype Codec<!F> = Codec(encode: F -> Option<Bytes>, decode: Bytes -> Option<F>)

  /** The frame survives the codec, and its encoding fits a frame. */
  predicate Sendable<F(==)>(c: Codec<F>, f: F) {
    c.encode(f).Some? && c.decode(c.encode(f).value) == Some(f) && |c.encode(f).value| <= MAX_FRAME_SIZE
  }

  predicate AllSendable<F(==)>(c: Codec<F>, frames: seq<F>) {
    forall i | 0 <= i < |frames| :: Sendable(c, frames[i])
  }

  /** The length of a body as its four header bytes, high byte first. */
  function Header(n: int): Bytes
    requires 0 <= n <= MAX_UINT32
  {
    [n / 0x100_0000, n / 0x1_0000 % 0x100, n / 0x100 % 0x100, n % 0x100]
  }

  function Length(h: Bytes): (n: int)
    requires |h| == 4
    ensures 0 <= n <= MAX_UINT32
  {
    ((h[0] as int * 0x100 + h[1] as int) * 0x100 + h[2] as int) * 0x100 + h[3] as int
  }

  lemma HeaderRoundTrip(n: int)
    requires 0 <= n <= MAX_UINT32
    ensures |Header(n)| == 4 && Length(Header(n)) == n
  {
    var n1, n2 := n / 0x100, n / 0x1_0000;
    assert n == n1 * 0x100 + n % 0x100;
    assert n1 == n2 * 0x100 + n1 % 0x100;
    assert n2 == n / 0x100_0000 * 0x100 + n2 % 0x100;
  }

  /** The header is the length as a 32-bit number, high byte first. */
  lemma HighByteFirst(n: int)
    requires 0 <= n <= MAX_UINT32
    ensures var h := Header(n);
            h[0] as int * 0x100_0000 + h[1] as int * 0x1_0000 + h[2] as int * 0x100 + h[3] as int == n
  {
    HeaderRoundTrip(n);
  }

  lemma Digits(high: nat, low: byte)
    ensures (high * 0x100 + low) / 0x100 == high && (high * 0x100 + low) % 0x100 == low
  {
  }

  lemma LengthRoundTrip(h: Bytes)
    requires |h| == 4
    ensures Header(Length(h)) == h
  {
    var a, b, c, d := h[0] as int, h[1] as int, h[2] as int, h[3] as int;
    var n := Length(h);
    Digits((a * 0x100 + b) * 0x100 + c, d);
    Digits(a * 0x100 + b, c);
    Digits(a, b);
    assert n / 0x1_0000 == n / 0x100 / 0x100 && n / 0x100_0000 == n / 0x100 / 0x100 / 0x100;
  }

  /** A body length the writer accepts; the last test can never be the one that fails. */
  function CheckedFrameSize(size: int): (r: Option<int>)
    ensures r == None <==> size < 0 || size > 4 * 1024 * 1024
    ensures r != None ==> r.value == size && 0 <= size <= MAX_UINT32
  {
    if size < 0 then None
    else if size > MAX_FRAME_SIZE then None
    else if size > MAX_UINT32 then None
    else Some(size)
  }

  /** A body length the reader accepts, whatever the width of the platform's int. */
  function CheckedFrameLen(size: int, intSize: int): (r: Option<int>)
    requires 0 <= size <= MAX_UINT32
    ensures r == if size > 4 * 1024 * 1024 then None else Some(size)
  {
    if size > MAX_FRAME_SIZE then None
    else if intSize == 32 && size > MAX_INT32 then None
    else Some(size)
  }

  // ------------------------------------------------------------------
  // Streams of frames
  // ------------------------------------------------------------------

  /** The bytes of one frame. */
  function Wire(body: Bytes): Bytes
    requires |body| <= MAX_FRAME_SIZE
  {
    Header(|body|) + body
  }

  function WireAll<F(==)>(c: Codec<F>, frames: seq<F>): Bytes
    requires AllSendable(c, frames)
  {
    if frames == [] then [] else Wire(c.encode(frames[0]).value) + WireAll(c, frames[1..])
  }

  datatype Failure = NoHeader | TooLarge | NoBody | BadBody

  /** What ReadFrame makes of the front of a stream, and how many bytes it has taken. */
  datatype Outcome<F> = Got(frame: F, taken: nat) | Failed(why: Failure, taken: nat)

  function Parse<F>(c: Codec<F>, s: Bytes): (r: Outcome<F>)
    ensures r.taken <= |s| && (r.Got? ==> r.taken >= 4)
  {
    if |s| < 4 then Failed(NoHeader, |s|)
    else
      var n := Length(s[..4]);
      if n > MAX_FRAME_SIZE then Failed(TooLarge, 4)
      else if |s| < 4 + n then Failed(NoBody, |s|)
      else
        match c.decode(s[4..4 + n])
        case None => Failed(BadBody, 4 + n)
        case Some(f) => Got(f, 4 + n)
  }

  /** The frames read until the first failure, and that failure. */
  function ParseAll<F>(c: Codec<F>, s: Bytes): (r: (seq<F>, Failure, Bytes))
    decreases |s|
  {
    match Parse(c, s)
    case Failed(why, taken) => ([], why, s)
    case Got(f, taken) =>
      var rest := ParseAll(c, s[taken..]);
      ([f] + rest.0, rest.1, rest.2)
  }

  /** A frame is read exactly when the stream starts with a wire frame whose body decodes. */
  lemma ParsesExactlyWire<F>(c: Codec<F>, s: Bytes)
    ensures Parse(c, s).Got? <==>
              exists n: nat :: 4 + n <= |s| && n <= MAX_FRAME_SIZE && s[..4] == Header(n) && c.decode(s[4..4 + n]).Some?
    ensures Parse(c, s).Got? ==> 
              var n := Parse(c, s).taken - 4;
              s[..4 + n] == Wire(s[4..4 + n]) && c.decode(s[4..4 + n]) == Some(Parse(c, s).frame)
  {
    if Parse(c, s).Got? {
      var n := Parse(c, s).taken - 4;
      LengthRoundTrip(s[..4]);
      assert s[..4] == Header(n);
      assert s[..4 + n] == s[..4] + s[4..4 + n];
    }
    if n: nat :| 4 + n <= |s| && n <= MAX_FRAME_SIZE && s[..4] == Header(n) && c.decode(s[4..4 + n]).Some? {
      HeaderRoundTrip(n);
    }
  }

  /** Which refusal a stream meets: too short for a header, too long a body, too short for the body, or undecodable. */
  lemma RefusedExactly<F>(c: Codec<F>, s: Bytes)
    ensures Parse(c, s) == Failed(NoHeader, |s|) <==> |s| < 4
    ensures |s| >= 4 ==>
              var n := s[0] as int * 0x100_0000 + s[1] as int * 0x1_0000 + s[2] as int * 0x100 + s[3] as int;
              && (Parse(c, s) == Failed(TooLarge, 4) <==> n > 4 * 1024 * 1024)
              && (Parse(c, s) == Failed(NoBody, |s|) <==> n <= 4 * 1024 * 1024 && |s| < 4 + n)
              && (Parse(c, s) == Failed(BadBody, 4 + n)
                  <==> n <= 4 * 1024 * 1024 && 4 + n <= |s| && c.decode(s[4..4 + n]).None?)
  {
  }

  lemma ParseWire<F>(c: Codec<F>, f: F, rest: Bytes)
    requires Sendable(c, f)
    ensures Parse(c, Wire(c.encode(f).value) + rest) == Got(f, 4 + |c.encode(f).value|)
  {
    var body := c.encode(f).value;
    var s := Wire(body) + rest;
    HeaderRoundTrip(|body|);
    assert s[..4] == Header(|body|);
    assert s[4..4 + |body|] == body;
  }

  /** Reading what was written gives the frames back, then whatever follows them. */
  lemma {:induction false} ReadWhatWasWritten<F>(c: Codec<F>, frames: seq<F>, rest: Bytes)
    requires AllSendable(c, frames)
    ensures var r := ParseAll(c, WireAll(c, frames) + rest);
            var r' := ParseAll(c, rest);
            r == (frames + r'.0, r'.1, r'.2)
  {
    hide Parse, Wire;
    var r' := ParseAll(c, rest);
    if frames == [] {
      assert WireAll(c, frames) + rest == rest;
      assert frames + r'.0 == r'.0;
    } else {
      var body := c.encode(frames[0]).value;
      var s, more := WireAll(c, frames) + rest, WireAll(c, frames[1..]) + rest;
      assert s == Wire(body) + more;
      ParseWire(c, frames[0], more);
      WireLength(body);
      assert s[4 + |body|..] == more;
      ReadWhatWasWritten(c, frames[1..], rest);
      assert [frames[0]] + (frames[1..] + r'.0) == frames + r'.0;
    }
  }

  lemma WireLength(body: Bytes)
    requires |body| <= MAX_FRAME_SIZE
    ensures |Wire(body)| == 4 + |body|
  {
  }

  /** Behind a whole frame the stream goes on as if it started there. */
  lemma CutBehindFrame<F>(c: Codec<F>, f: F, more: Bytes, cut: nat)
    requires Sendable(c, f) && |Wire(c.encode(f).value)| <= cut <= |Wire(c.encode(f).value)| + |more|
    ensures var w := Wire(c.encode(f).value);
            var r, rest := ParseAll(c, (w + more)[..cut]), ParseAll(c, more[..cut - |w|]);
            r.0 == [f] + rest.0 && r.1 == rest.1 && r.2 == rest.2
  {
    var w := Wire(c.encode(f).value);
    var tail := more[..cut - |w|];
    assert (w + more)[..cut] == w + tail;
    ParseWire(c, f, tail);
    hide Wire, Parse;
    assert (w + tail)[|w|..] == tail;
  }

  lemma CutInFrame<F>(c: Codec<F>, body: Bytes, more: Bytes, cut: nat)
    requires |body| <= MAX_FRAME_SIZE && cut < |Wire(body)|
    ensures var r := ParseAll(c, (Wire(body) + more)[..cut]); r.0 == [] && r.1 in {NoHeader, NoBody}
  {
    assert (Wire(body) + more)[..cut] == Wire(body)[..cut];
    CutOffFrame(c, body, Wire(body)[..cut]);
    hide Wire, Parse;
  }

  /** A stream cut off anywhere yields a prefix of the frames, never a wrong one, and then a missing header or body. */
  lemma {:induction false} CutOffStream<F>(c: Codec<F>, frames: seq<F>, cut: nat)
    requires AllSendable(c, frames) && cut <= |WireAll(c, frames)|
    ensures var r := ParseAll(c, WireAll(c, frames)[..cut]);
            && r.0 <= frames && r.1 in {NoHeader, NoBody}
            && (cut < |WireAll(c, frames)| ==> r.0 < frames)
            && (cut == |WireAll(c, frames)| ==> r.0 == frames && r.2 == [])
  {
    if frames != [] {
      var f, rest := frames[0], frames[1..];
      var w, more := Wire(c.encode(f).value), WireAll(c, rest);
      assert WireAll(c, frames) == w + more && frames == [f] + rest;
      hide Wire, Parse, ParseAll, WireAll;
      if cut < |w| {
        CutInFrame(c, c.encode(f).value, more, cut);
      } else {
        CutBehindFrame(c, f, more, cut);
        CutOffStream(c, rest, cut - |w|);
        PrefixBehind(f, ParseAll(c, more[..cut - |w|]).0, rest);
      }
    }
  }

  lemma PrefixBehind<F>(f: F, a: seq<F>, b: seq<F>)
    ensures [f] + a <= [f] + b <==> a <= b
    ensures [f] + a < [f] + b <==> a < b
    ensures [f] + a == [f] + b <==> a == b
  {
    assert ([f] + a)[1..] == a && ([f] + b)[1..] == b;
  }

  lemma CutOffFrame<F>(c: Codec<F>, body: Bytes, s: Bytes)
    requires |body| <= MAX_FRAME_SIZE && s < Wire(body)
    ensures Parse(c, s).Failed? && Parse(c, s).why in {NoHeader, NoBody}
  {
    HeaderRoundTrip(|body|);
    if |s| >= 4 {
      assert s[..4] == Wire(body)[..4] == Header(|body|);
    }
  }

  // ------------------------------------------------------------------
  // The methods
  // ------------------------------------------------------------------

  /** The sending side of a connection; a write may fail after sending a part. */
  class Writer {
    var sent: Bytes

    constructor ()
      ensures sent == []
    {
      sent := [];
    }

    method Write(p: Bytes) returns (ok: bool)
      modifies this
      ensures old(sent) <= sent <= old(sent) + p
      ensures ok ==> sent == old(sent) + p
    {
      assert 0 <= |p|;
      var n: nat :| n <= |p|;
      sent := sent + p[..n];
      ok := n == |p|;
    }
  }

  /** The receiving side: the bytes that will still arrive before the connection ends. */
  class Reader {
    var rest: Bytes

    constructor (rest: Bytes)
      ensures this.rest == rest
    {
      this.rest := rest;
    }

    /** Exactly n bytes, or the end of the stream. */
    method ReadFull(n: nat) returns (data: Bytes, ok: bool)
      modifies this
      ensures ok <==> n <= |old(rest)|
      ensures ok ==> data == old(rest)[..n] && rest == old(rest)[n..]
      ensures !ok ==> data == old(rest) && rest == []
    {
      if n <= |rest| {
        data, ok := rest[..n], true;
        rest := rest[n..];
      } else {
        data, ok := rest, false;
        rest := [];
      }
    }
  }

  /** A frame that was reported written is on the wire whole; a refused one leaves nothing there. */
  method WriteFrame<F(==)>(w: Writer, c: Codec<F>, f: F) returns (ok: bool)
    modifies w
    ensures ok ==> c.encode(f).Some? && |c.encode(f).value| <= MAX_FRAME_SIZE
    ensures ok ==> w.sent == old(w.sent) + Wire(c.encode(f).value)
    ensures c.encode(f).None? || |c.encode(f).value| > MAX_FRAME_SIZE ==> !ok && w.sent == old(w.sent)
    ensures old(w.sent) <= w.sent
  {
    var data := c.encode(f);
    if data.None? {
      return false;
    }
    var frameSize := CheckedFrameSize(|data.value|);
    if frameSize.None? {
      return false;
    }
    ok := w.Write(Header(frameSize.value));
    if !ok {
      return false;
    }
    ok := w.Write(data.value);
  }

  method ReadFrame<F>(r: Reader, c: Codec<F>, intSize: int) returns (o: Outcome<F>)
    modifies r
    ensures o == Parse(c, old(r.rest)) && r.rest == old(r.rest)[o.taken..]
  {
    ghost var was := r.rest;
    var hdr, ok := r.ReadFull(4);
    if !ok {
      return Failed(NoHeader, |hdr|);
    }
    var n := Length(hdr);
    var frameLen := CheckedFrameLen(n, intSize);
    if frameLen.None? {
      return Failed(TooLarge, 4);
    }
    var buf: Bytes;
    buf, ok := r.ReadFull(frameLen.value);
    if !ok {
      return Failed(NoBody, 4 + |buf|);
    }
    assert buf == was[4..4 + n];
    var f := c.decode(buf);
    if f.None? {
      return Failed(BadBody, 4 + n);
    }
    return Got(f.value, 4 + n);
  }
}
