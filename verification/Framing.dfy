// Length-and-type framing of ltprotocol/ltprotocol/ltprotocol.py, with length and type fields of
// any unsigned big-endian width.
module Framing {
  import Options
  import opened Bytes

  // ---- Messages --------------------------------------------------------------------------

  // The sizes of the length and type fields, neither empty, and how their bytes are read.
  datatype Format = Format(lenSize: nat, typeSize: nat, read: seq<Byte> -> nat)

  ghost predicate ValidFormat(f: Format) {
    f.lenSize > 0 && f.typeSize > 0
  }

  ghost predicate BigEndian(f: Format) {
    ValidFormat(f) && forall field {:trigger Value(field)} :: f.read(field) == Value(field)
  }

  datatype Message = Message(kind: nat, body: seq<Byte>)

  function Size(f: Format, m: Message): nat {
    f.lenSize + f.typeSize + |m.body|
  }

  // struct.pack refuses values that do not fit their fields.
  predicate Packable(f: Format, m: Message) {
    Size(f, m) < Pow256(f.lenSize) && m.kind < Pow256(f.typeSize)
  }

  // pack_with_header
  function Pack(f: Format, m: Message): Options.Option<seq<Byte>> {
    if Packable(f, m) then Options.Some(Field(Size(f, m), f.lenSize) + Field(m.kind, f.typeSize) + m.body)
    else Options.None
  }

  predicate AllPackable(f: Format, messages: seq<Message>) {
    messages != [] ==> Packable(f, messages[0]) && AllPackable(f, messages[1..])
  }

  function PackAll(f: Format, messages: seq<Message>): seq<Byte>
    requires AllPackable(f, messages)
  {
    if messages == [] then [] else Pack(f, messages[0]).value + PackAll(f, messages[1..])
  }

  // ---- What a byte stream says -----------------------------------------------------------

  // The complete frames at the front of a stream, what follows them, and whether that was cut
  // short by a frame too small to hold its own header.
  datatype Parsed = Parsed(frames: seq<Message>, rest: seq<Byte>, failed: bool)

  predicate HasFrame(f: Format, stream: seq<Byte>) {
    |stream| >= f.lenSize && |stream| >= f.read(stream[..f.lenSize])
  }

  function FrameSize(f: Format, stream: seq<Byte>): (n: nat)
    requires HasFrame(f, stream)
    ensures n <= |stream|
  {
    f.read(stream[..f.lenSize])
  }

  function FrameOf(f: Format, frame: seq<Byte>): Message
    requires |frame| >= f.lenSize + f.typeSize
  {
    Message(f.read(frame[f.lenSize..f.lenSize + f.typeSize]), frame[f.lenSize + f.typeSize..])
  }

  function Parse(f: Format, stream: seq<Byte>): Parsed
    requires ValidFormat(f)
    decreases |stream|
  {
    if !HasFrame(f, stream) then Parsed([], stream, false)
    else
      var n := FrameSize(f, stream);
      if n < f.lenSize + f.typeSize then Parsed([], stream[n..], true)
      else
        var p := Parse(f, stream[n..]);
        p.(frames := [FrameOf(f, stream[..n])] + p.frames)
  }

  function Before(frames: seq<Message>, p: Parsed): Parsed {
    p.(frames := frames + p.frames)
  }

  // A whole frame: its length field tells its size, and it holds its header.
  ghost predicate IsFrame(f: Format, frame: seq<Byte>) {
    |frame| >= f.lenSize + f.typeSize && f.read(frame[..f.lenSize]) == |frame|
  }

  lemma ParseFrame(f: Format, frame: seq<Byte>, rest: seq<Byte>)
    requires ValidFormat(f) && IsFrame(f, frame)
    ensures Parse(f, frame + rest) == Before([FrameOf(f, frame)], Parse(f, rest))
  {
    var stream := frame + rest;
    assert stream[..f.lenSize] == frame[..f.lenSize];
    assert stream[..|frame|] == frame && stream[|frame|..] == rest;
  }

  // The first frame of a stream.
  lemma FirstFrame(f: Format, stream: seq<Byte>) returns (frame: seq<Byte>, rest: seq<Byte>)
    requires ValidFormat(f) && HasFrame(f, stream) && FrameSize(f, stream) >= f.lenSize + f.typeSize
    ensures stream == frame + rest && IsFrame(f, frame) && |rest| < |stream|
    ensures frame == stream[..FrameSize(f, stream)]
  {
    var n := FrameSize(f, stream);
    frame, rest := stream[..n], stream[n..];
    assert frame[..f.lenSize] == stream[..f.lenSize];
  }

  lemma ShortFrame(f: Format, stream: seq<Byte>, more: seq<Byte>)
    requires ValidFormat(f) && HasFrame(f, stream) && FrameSize(f, stream) < f.lenSize + f.typeSize
    ensures Parse(f, stream + more).failed && Parse(f, stream + more).frames == []
  {
    assert (stream + more)[..f.lenSize] == stream[..f.lenSize];
  }

  // What parsing one stretch and then, if it did not fail, the next with what was left amounts to.
  function ParseOn(f: Format, p: Parsed, more: seq<Byte>): Parsed
    requires ValidFormat(f)
  {
    if p.failed then p else Before(p.frames, Parse(f, p.rest + more))
  }

  predicate SameOutcome(p: Parsed, q: Parsed) {
    p.frames == q.frames && p.failed == q.failed && (!p.failed ==> p.rest == q.rest)
  }

  // Bytes that arrive later never change what was parsed before.
  lemma {:induction false} ParseMore(f: Format, stream: seq<Byte>, more: seq<Byte>)
    requires ValidFormat(f)
    ensures SameOutcome(Parse(f, stream + more), ParseOn(f, Parse(f, stream), more))
    decreases |stream|
  {
    if !HasFrame(f, stream) {
      assert [] + Parse(f, stream + more).frames == Parse(f, stream + more).frames;
    } else if FrameSize(f, stream) < f.lenSize + f.typeSize {
      ShortFrame(f, stream, more);
    } else {
      var frame, rest := FirstFrame(f, stream);
      ParseMore(f, rest, more);
      FrameMore(f, frame, rest, more);
    }
  }

  lemma FrameMore(f: Format, frame: seq<Byte>, rest: seq<Byte>, more: seq<Byte>)
    requires ValidFormat(f) && IsFrame(f, frame)
    requires SameOutcome(Parse(f, rest + more), ParseOn(f, Parse(f, rest), more))
    ensures SameOutcome(Parse(f, (frame + rest) + more), ParseOn(f, Parse(f, frame + rest), more))
  {
    ParseFrame(f, frame, rest);
    ParseFrameMore(f, frame, rest, more);
    OneBefore(f, FrameOf(f, frame), Parse(f, rest), more);
  }

  lemma ParseFrameMore(f: Format, frame: seq<Byte>, rest: seq<Byte>, more: seq<Byte>)
    requires ValidFormat(f) && IsFrame(f, frame)
    ensures Parse(f, (frame + rest) + more) == Before([FrameOf(f, frame)], Parse(f, rest + more))
  {
    ParseFrame(f, frame, rest + more);
    assert (frame + rest) + more == frame + (rest + more);
  }

  lemma OneBefore(f: Format, m: Message, p: Parsed, more: seq<Byte>)
    requires ValidFormat(f)
    ensures ParseOn(f, Before([m], p), more) == Before([m], ParseOn(f, p, more))
  {
  }

  // No complete frame is left over.
  lemma {:induction false} NothingLeft(f: Format, stream: seq<Byte>)
    requires ValidFormat(f) && !Parse(f, stream).failed
    ensures !HasFrame(f, Parse(f, stream).rest)
    decreases |stream|
  {
    if HasFrame(f, stream) {
      NothingLeft(f, stream[FrameSize(f, stream)..]);
    }
  }

  lemma PackedFrame(f: Format, m: Message)
    requires BigEndian(f) && Packable(f, m)
    ensures IsFrame(f, Pack(f, m).value) && FrameOf(f, Pack(f, m).value) == m
  {
    var packed := Pack(f, m).value;
    assert packed[..f.lenSize] == Field(Size(f, m), f.lenSize);
    FieldValue(Size(f, m), f.lenSize);
    assert packed[f.lenSize..f.lenSize + f.typeSize] == Field(m.kind, f.typeSize);
    FieldValue(m.kind, f.typeSize);
  }

  // A packed message on the wire: its whole length in the first field, its type in the second, its
  // body after them; packing is refused exactly when a field cannot hold its value.
  lemma PackedLayout(f: Format, m: Message)
    ensures var size := f.lenSize + f.typeSize + |m.body|;
            match Pack(f, m)
            case None => size >= Pow256(f.lenSize) || m.kind >= Pow256(f.typeSize)
            case Some(packed) =>
              && size < Pow256(f.lenSize) && m.kind < Pow256(f.typeSize) && |packed| == size
              && Value(packed[..f.lenSize]) == size
              && Value(packed[f.lenSize..f.lenSize + f.typeSize]) == m.kind
              && packed[f.lenSize + f.typeSize..] == m.body
  {
    if Packable(f, m) {
      var packed := Pack(f, m).value;
      assert packed[..f.lenSize] == Field(Size(f, m), f.lenSize);
      FieldValue(Size(f, m), f.lenSize);
      assert packed[f.lenSize..f.lenSize + f.typeSize] == Field(m.kind, f.typeSize);
      FieldValue(m.kind, f.typeSize);
    }
  }

  lemma PackedFirst(f: Format, m: Message, packed: seq<Byte>, more: seq<Byte>, p: Parsed)
    requires BigEndian(f) && Packable(f, m) && Parse(f, packed + more) == p
    ensures Parse(f, (Pack(f, m).value + packed) + more) == Before([m], p)
  {
    var first := Pack(f, m).value;
    PackedFrame(f, m);
    ParseFrame(f, first, packed + more);
    assert (first + packed) + more == first + (packed + more);
  }

  lemma BeforeFirst(messages: seq<Message>, p: Parsed)
    requires messages != []
    ensures Before([messages[0]], Before(messages[1..], p)) == Before(messages, p)
  {
  }

  // Packing then parsing gives the messages back, whatever follows them.
  lemma {:induction false} ParsePacked(f: Format, messages: seq<Message>, more: seq<Byte>)
    requires BigEndian(f) && AllPackable(f, messages)
    ensures Parse(f, PackAll(f, messages) + more) == Before(messages, Parse(f, more))
  {
    if messages == [] {
      assert PackAll(f, messages) + more == more;
    } else {
      var p := Parse(f, more);
      ParsePacked(f, messages[1..], more);
      PackedFirst(f, messages[0], PackAll(f, messages[1..]), more, Before(messages[1..], p));
      BeforeFirst(messages, p);
    }
  }

  lemma Thirds(frame: seq<Byte>, l: nat, h: nat)
    requires l <= h <= |frame|
    ensures frame == frame[..l] + frame[l..h] + frame[h..]
  {
  }

  lemma FrameRepacks(f: Format, frame: seq<Byte>)
    requires BigEndian(f) && IsFrame(f, frame)
    ensures Pack(f, FrameOf(f, frame)) == Options.Some(frame)
  {
    var l, h := f.lenSize, f.lenSize + f.typeSize;
    ValueField(frame[..l]);
    ValueField(frame[l..h]);
    assert f.read(frame[..l]) == Value(frame[..l]) && f.read(frame[l..h]) == Value(frame[l..h]);
    Thirds(frame, l, h);
  }

  // Parsing then packing gives the bytes back: a frame has one spelling only.
  lemma {:induction false} PackParsed(f: Format, stream: seq<Byte>)
    requires BigEndian(f) && !Parse(f, stream).failed
    ensures var p := Parse(f, stream);
            && AllPackable(f, p.frames)
            && PackAll(f, p.frames) + p.rest == stream
    decreases |stream|
  {
    if HasFrame(f, stream) {
      var frame, rest := FirstFrame(f, stream);
      ParseFrame(f, frame, rest);
      PackParsed(f, rest);
      PackFirst(f, frame, rest, Parse(f, rest));
    }
  }

  lemma PackFirst(f: Format, frame: seq<Byte>, rest: seq<Byte>, p: Parsed)
    requires BigEndian(f) && IsFrame(f, frame) && AllPackable(f, p.frames) && PackAll(f, p.frames) + p.rest == rest
    ensures var q := Before([FrameOf(f, frame)], p);
            AllPackable(f, q.frames) && PackAll(f, q.frames) + q.rest == frame + rest
  {
    FrameRepacks(f, frame);
    PackMore(f, FrameOf(f, frame), p.frames);
  }

  lemma PackMore(f: Format, m: Message, messages: seq<Message>)
    requires Packable(f, m) && AllPackable(f, messages)
    ensures AllPackable(f, [m] + messages)
    ensures PackAll(f, [m] + messages) == Pack(f, m).value + PackAll(f, messages)
  {
    assert ([m] + messages)[1..] == messages;
  }

  // ---- The receiver ----------------------------------------------------------------------

  // What the callback is given: None for a message of unknown type.
  function Seen(known: set<nat>, frames: seq<Message>): (r: seq<Options.Option<Message>>)
    ensures |r| == |frames|
    ensures forall k :: 0 <= k < |r| ==>
              r[k] == if frames[k].kind in known then Options.Some(frames[k]) else Options.None
  {
    seq(|frames|, k requires 0 <= k < |frames| =>
      if frames[k].kind in known then Options.Some(frames[k]) else Options.None)
  }

  class Receiver {
    const format: Format
    const known: set<nat>
    var packet: seq<Byte>
    var plen: nat
    var received: seq<Options.Option<Message>>

    ghost predicate Valid()
      reads this
    {
      ValidFormat(format) && plen == |packet|
    }

    constructor (format: Format, known: set<nat>)
      requires ValidFormat(format)
      ensures Valid() && this.format == format && this.known == known && packet == [] && received == []
    {
      this.format, this.known := format, known;
      packet, plen, received := [], 0, [];
    }

    // dataReceived; not ok when unpacking a frame's header raises.
    method DataReceived(data: seq<Byte>) returns (ok: bool)
      requires Valid()
      modifies this
      ensures Valid()
      ensures var p := Parse(format, old(packet) + data);
              && packet == p.rest
              && received == old(received) + Seen(known, p.frames)
              && ok == !p.failed
    {
      packet := packet + data;
      plen := plen + |data|;
      ghost var stream, done := packet, [];
      while plen >= format.lenSize
        invariant Valid() && received == old(received) + Seen(known, done)
        invariant Parse(format, stream) == Before(done, Parse(format, packet))
        decreases plen
      {
        if plen < format.read(packet[..format.lenSize]) {
          break;
        }
        ghost var was := packet;
        ghost var n := FrameSize(format, was);
        ok := TakeFrame();
        if !ok {
          BadFrame(format, done, was);
          return;
        }
        ghost var message := FrameOf(format, was[..n]);
        NextFrame(format, done, was, was[..n], packet);
        SeenMore(known, done, [message]);
        done := done + [message];
      }
      NoFrame(format, done, packet);
      ok := true;
    }

    // The loop's body for a frame that is there in full.
    method TakeFrame() returns (ok: bool)
      requires Valid() && HasFrame(format, packet)
      modifies this
      ensures Valid()
      ensures var n := FrameSize(format, old(packet));
              && packet == old(packet)[n..]
              && ok == (n >= format.lenSize + format.typeSize)
              && received == old(received) + if ok then Seen(known, [FrameOf(format, old(packet)[..n])]) else []
    {
      var needed := format.read(packet[..format.lenSize]);
      var buf := packet[..needed];
      packet := packet[needed..];
      plen := plen - needed;
      if |buf| < format.lenSize + format.typeSize {
        return false;
      }
      var message := FrameOf(format, buf);
      received := received + [if message.kind in known then Options.Some(message) else Options.None];
      ok := true;
    }
  }

  lemma NoFrame(f: Format, done: seq<Message>, stream: seq<Byte>)
    requires ValidFormat(f) && !HasFrame(f, stream)
    ensures Before(done, Parse(f, stream)) == Parsed(done, stream, false)
  {
  }

  lemma BadFrame(f: Format, done: seq<Message>, stream: seq<Byte>)
    requires ValidFormat(f) && HasFrame(f, stream) && FrameSize(f, stream) < f.lenSize + f.typeSize
    ensures Before(done, Parse(f, stream)) == Parsed(done, stream[FrameSize(f, stream)..], true)
  {
  }

  lemma NextFrame(f: Format, done: seq<Message>, stream: seq<Byte>, frame: seq<Byte>, rest: seq<Byte>)
    requires ValidFormat(f) && stream == frame + rest && |stream| >= f.lenSize
    requires |frame| == f.read(stream[..f.lenSize]) >= f.lenSize + f.typeSize
    ensures Before(done, Parse(f, stream)) == Before(done + [FrameOf(f, frame)], Parse(f, rest))
  {
    assert frame[..f.lenSize] == stream[..f.lenSize];
    ParseFrame(f, frame, rest);
  }

  lemma SeenMore(known: set<nat>, a: seq<Message>, b: seq<Message>)
    ensures Seen(known, a + b) == Seen(known, a) + Seen(known, b)
  {
  }

  // A connection: chunks are received until one raises, which ends it.  However the stream is
  // cut, the messages seen are those of the whole stream.
  method Receive(format: Format, known: set<nat>, chunks: seq<seq<Byte>>)
    returns (received: seq<Options.Option<Message>>, ok: bool, left: seq<Byte>)
    requires ValidFormat(format)
    ensures var p := Parse(format, Concat(chunks));
            && received == Seen(known, p.frames)
            && ok == !p.failed
            && (ok ==> left == p.rest && !HasFrame(format, left))
  {
    var r := new Receiver(format, known);
    assert Seen(known, []) == [];
    ok := true;
    var k := 0;
    while k < |chunks| && ok
      invariant 0 <= k <= |chunks| && r.Valid() && r.format == format && r.known == known
      invariant var p := Parse(format, Concat(chunks[..k]));
                && r.received == Seen(known, p.frames)
                && ok == !p.failed
                && (ok ==> r.packet == p.rest)
    {
      ghost var before := Parse(format, Concat(chunks[..k]));
      assert chunks[..k + 1][..k] == chunks[..k];
      ParseMore(format, Concat(chunks[..k]), chunks[k]);
      ok := r.DataReceived(chunks[k]);
      SeenMore(known, before.frames, Parse(format, before.rest + chunks[k]).frames);
      k := k + 1;
    }
    received, left := r.received, r.packet;
    if ok {
      assert chunks[..k] == chunks;
      NothingLeft(format, Concat(chunks));
    } else {
      FailsForGood(format, chunks, k);
    }
  }

  // Once a prefix has failed, the rest of the chunks add nothing.
  lemma {:induction false} FailsForGood(f: Format, chunks: seq<seq<Byte>>, k: nat)
    requires ValidFormat(f) && k <= |chunks| && Parse(f, Concat(chunks[..k])).failed
    ensures Parse(f, Concat(chunks)).failed
    ensures Parse(f, Concat(chunks)).frames == Parse(f, Concat(chunks[..k])).frames
    decreases |chunks|
  {
    if k == |chunks| {
      assert chunks[..k] == chunks;
    } else {
      var init := chunks[..|chunks| - 1];
      assert init[..k] == chunks[..k];
      FailsForGood(f, init, k);
      ParseMore(f, Concat(init), chunks[|chunks| - 1]);
    }
  }

  // Any list of packed messages, cut anywhere, comes back whole with nothing left over.
  method SendAndReceive(format: Format, known: set<nat>, messages: seq<Message>, chunks: seq<seq<Byte>>)
    returns (received: seq<Options.Option<Message>>, ok: bool, left: seq<Byte>)
    requires BigEndian(format) && AllPackable(format, messages)
    requires forall m :: m in messages ==> m.kind in known
    requires Concat(chunks) == PackAll(format, messages)
    ensures ok && left == [] && |received| == |messages|
    ensures forall k :: 0 <= k < |messages| ==> received[k] == Options.Some(messages[k])
  {
    ParsePacked(format, messages, []);
    assert PackAll(format, messages) + [] == PackAll(format, messages);
    received, ok, left := Receive(format, known, chunks);
  }
}
