/** WebSocket frames as bytes (section 5.2 of RFC 6455), what the parser makes of them, and what a stream delivers. */
module WebSocketFrames {
  import opened Bits
  import opened Multiplication

  type Bytes = seq<Byte>

  const CONT_ID: Byte := 0x0
  const TEXT_ID: Byte := 0x1
  const BINARY_ID: Byte := 0x2
  const CLOSE_ID: Byte := 0x8
  const PING_ID: Byte := 0x9
  const PONG_ID: Byte := 0xa

  // ----- The wire format -----

  function BigEndian(n: nat, width: nat): (s: Bytes)
    ensures |s| == width
  {
    if width == 0 then [] else BigEndian(n / 256, width - 1) + [n % 256]
  }

  function Number(s: Bytes): nat {
    if s == [] then 0 else Number(s[..|s| - 1]) * 256 + s[|s| - 1]
  }

  ghost function Range(width: nat): (r: nat)
    ensures r > 0
  {
    if width == 0 then 1 else 256 * Range(width - 1)
  }

  /** A number that fits the field is read back from it. */
  lemma {:induction false} NumberRoundTrip(n: nat, width: nat)
    requires n < Range(width)
    ensures Number(BigEndian(n, width)) == n
  {
    if width > 0 {
      NumberRoundTrip(n / 256, width - 1);
      assert BigEndian(n, width)[..width - 1] == BigEndian(n / 256, width - 1);
    }
  }

  lemma Ranges()
    ensures Range(2) == 0x1_0000 && Range(8) == 0x1_0000_0000_0000_0000
  {
    assert Range(1) == 256;
    assert Range(3) == 0x100_0000 && Range(4) == 0x1_0000_0000;
    assert Range(5) == 0x100_0000_0000 && Range(6) == 0x1_0000_0000_0000;
    assert Range(7) == 0x100_0000_0000_0000;
  }

  /** The payload combined with the masking key, as section 5.3 of RFC 6455 defines it. */
  function Masked(payload: Bytes, key: Bytes): (m: Bytes)
    requires |key| == 4
    ensures |m| == |payload|
  {
    seq(|payload|, i requires 0 <= i < |payload| => Xor(payload[i], key[i % 4]))
  }

  lemma MaskedTwice(payload: Bytes, key: Bytes)
    requires |key| == 4
    ensures Masked(Masked(payload, key), key) == payload
  {
    forall i | 0 <= i < |payload| ensures Masked(Masked(payload, key), key)[i] == payload[i] {
      XorTwice(payload[i], key[i % 4]);
    }
  }

  predicate ValidKey(key: Bytes) {
    |key| == 0 || |key| == 4
  }

  /** The size of the extended length field that a seven-bit length announces. */
  function LengthBytes(short: Byte): (w: nat)
    ensures w == 0 || w == 2 || w == 8
  {
    if short < 126 then 0 else if short == 126 then 2 else 8
  }

  function ShortLength(n: nat): (short: Byte)
    ensures short <= 127
    ensures LengthBytes(short) == if n < 126 then 0 else if n <= 0xffff then 2 else 8
  {
    if n < 126 then n else if n <= 0xffff then 126 else 127
  }

  /** The header and the masking key, if any: an empty key stands for an unmasked frame. */
  function Header(fin: bool, opcode: Byte, key: Bytes, n: nat): Bytes
    requires opcode < 16
  {
    var short := ShortLength(n);
    [WithTop(fin, opcode), WithTop(key != [], short)] + BigEndian(n, LengthBytes(short)) + key
  }

  function Wire(fin: bool, opcode: Byte, key: Bytes, payload: Bytes): Bytes
    requires opcode < 16 && ValidKey(key)
  {
    Header(fin, opcode, key, |payload|) + if key == [] then payload else Masked(payload, key)
  }

  /** Most significant byte first. */
  lemma {:induction false} BigEndianAt(n: nat, width: nat, i: nat)
    requires i < width
    ensures BigEndian(n, width)[i] == n / Range(width - 1 - i) % 256
  {
    if i < width - 1 {
      BigEndianAt(n / 256, width - 1, i);
      DivideTwice(n, Range(width - 2 - i));
    }
  }

  lemma DivideTwice(n: nat, p: nat)
    requires p > 0
    ensures 256 * p > 0 && n / 256 / p == n / (256 * p)
  {
    var q := n / 256 / p;
    assert n / 256 == q * p + n / 256 % p;
    assert n == 256 * (n / 256) + n % 256;
    assert n == q * (256 * p) + (256 * (n / 256 % p) + n % 256);
    QuotientOf(n, 256 * p, q, 256 * (n / 256 % p) + n % 256);
  }

  lemma QuotientOf(n: nat, d: nat, q: nat, r: nat)
    requires n == q * d + r && r < d
    ensures n / d == q
  {
    var p := n / d;
    assert n == p * d + n % d;
    if p < q {
      MulMonotone(p + 1, q, d);
    } else if p > q {
      MulMonotone(q + 1, p, d);
    }
  }

  lemma SliceExtends(s: Bytes, t: Bytes, a: nat, b: nat)
    requires a <= b <= |s|
    ensures (s + t)[a..b] == s[a..b]
  {
  }

  /** The bytes of n, most significant first. */
  ghost predicate IsBigEndian(s: Bytes, n: nat) {
    forall i :: 0 <= i < |s| ==> s[i] == n / Range(|s| - 1 - i) % 256
  }

  lemma BigEndianBytes(n: nat, width: nat)
    ensures IsBigEndian(BigEndian(n, width), n)
  {
    forall i | 0 <= i < width ensures BigEndian(n, width)[i] == n / Range(width - 1 - i) % 256 {
      BigEndianAt(n, width, i);
    }
  }

  lemma HeaderLayout(fin: bool, opcode: Byte, key: Bytes, n: nat, rest: Bytes)
    requires opcode < 16
    ensures var w := Header(fin, opcode, key, n) + rest;
            var width := if n < 126 then 0 else if n < 65536 then 2 else 8;
            && |Header(fin, opcode, key, n)| == 2 + width + |key|
            && w[0] == (if fin then 128 else 0) + opcode
            && w[1] == (if key == [] then 0 else 128) + (if n < 126 then n else if n < 65536 then 126 else 127)
            && w[2..2 + width] == BigEndian(n, width) && w[2 + width..2 + width + |key|] == key
  {
    hide BigEndian;
    var h := Header(fin, opcode, key, n);
    var width := LengthBytes(ShortLength(n));
    assert h[2..2 + width] == BigEndian(n, width) && h[2 + width..] == key;
    SliceExtends(h, rest, 2, 2 + width);
    SliceExtends(h, rest, 2 + width, |h|);
  }

  /** Where section 5.2 of RFC 6455 puts the bits, the length, the key and the payload. */
  lemma WireLayout(fin: bool, opcode: Byte, key: Bytes, payload: Bytes)
    requires opcode < 16 && ValidKey(key)
    ensures var w, n := Wire(fin, opcode, key, payload), |payload|;
            var width := if n < 126 then 0 else if n < 65536 then 2 else 8;
            var body := 2 + width + |key|;
            && |w| == body + n
            && w[0] == (if fin then 128 else 0) + opcode
            && w[1] == (if key == [] then 0 else 128) + (if n < 126 then n else if n < 65536 then 126 else 127)
            && IsBigEndian(w[2..2 + width], n)
            && w[2 + width..body] == key
            && (forall i :: 0 <= i < n ==>
                  w[body + i] == if key == [] then payload[i] else Xor(payload[i], key[i % 4]))
  {
    hide BigEndian, Xor, Header, IsBigEndian;
    var n := |payload|;
    HeaderLayout(fin, opcode, key, n, if key == [] then payload else Masked(payload, key));
    BigEndianBytes(n, if n < 126 then 0 else if n < 65536 then 2 else 8);
  }

  // ----- One frame parsed -----

  datatype Frame = Frame(fin: bool, opcode: Byte, masked: bool, payload: Bytes)
  datatype Parsed = Incomplete | Complete(length: nat, frame: Frame)

  /** The bytes before the payload, once the length field is there. */
  function HeaderSize(s: Bytes): (n: nat)
    requires |s| >= 2
    ensures n >= 2
  {
    2 + LengthBytes(LowBits(s[1])) + MaskBytes(s)
  }

  function MaskBytes(s: Bytes): (n: nat)
    requires |s| >= 2
    ensures n == 0 || n == 4
  {
    if TopBit(s[1]) then 4 else 0
  }

  function PayloadLength(s: Bytes): nat
    requires |s| >= 2 && |s| >= 2 + LengthBytes(LowBits(s[1]))
  {
    var short := LowBits(s[1]);
    if short < 126 then short else Number(s[2..2 + LengthBytes(short)])
  }

  predicate IsComplete(s: Bytes) {
    |s| >= 2 && |s| >= 2 + LengthBytes(LowBits(s[1])) && |s| >= HeaderSize(s) + PayloadLength(s)
  }

  function ParseFrame(s: Bytes): (p: Parsed)
    ensures p.Complete? ==> 2 <= p.length <= |s|
  {
    if !IsComplete(s) then Incomplete else
      var start, n := HeaderSize(s), PayloadLength(s);
      var raw := s[start..start + n];
      var payload := if MaskBytes(s) == 0 then raw else Masked(raw, s[start - 4..start]);
      Complete(start + n, Frame(TopBit(s[0]), LowNibble(s[0]), MaskBytes(s) != 0, payload))
  }

  /** More bytes change nothing for a frame that was already complete. */
  lemma ParseExtends(s: Bytes, t: Bytes)
    requires ParseFrame(s).Complete?
    ensures ParseFrame(s + t) == ParseFrame(s)
  {
    hide Number, TopBit, LowBits, LowNibble, Masked, LengthBytes;
    var u := s + t;
    assert u[0] == s[0] && u[1] == s[1];
    var w := LengthBytes(LowBits(s[1]));
    SliceExtends(s, t, 2, 2 + w);
    var start, n := HeaderSize(s), PayloadLength(s);
    SliceExtends(s, t, start, start + n);
    if MaskBytes(s) != 0 {
      SliceExtends(s, t, start - 4, start);
    }
  }

  /** What the header says, for anything that begins with it. */
  lemma HeaderParsed(fin: bool, opcode: Byte, key: Bytes, n: nat, rest: Bytes)
    requires opcode < 16 && ValidKey(key) && n < 0x1_0000_0000_0000_0000
    ensures var h, s := Header(fin, opcode, key, n), Header(fin, opcode, key, n) + rest;
            && |s| >= 2 + LengthBytes(LowBits(s[1])) && |h| >= 2
            && HeaderSize(s) == |h| && PayloadLength(s) == n && MaskBytes(s) == |key|
            && (TopBit(s[0]) <==> fin) && LowNibble(s[0]) == opcode
            && (key != [] ==> s[|h| - 4..|h|] == key)
  {
    hide BigEndian, Number, TopBit, LowBits, LowNibble, WithTop;
    var short := ShortLength(n);
    var w := LengthBytes(short);
    var h := Header(fin, opcode, key, n);
    var s := h + rest;
    Fields(fin, opcode);
    Fields(key != [], short);
    assert s[0] == h[0] && s[1] == h[1];
    assert s[2..2 + w] == BigEndian(n, w);
    assert s[2 + w..2 + w + |key|] == key;
    Ranges();
    if w > 0 {
      NumberRoundTrip(n, w);
    }
  }

  /** Parsing what was written gives the frame back, whatever follows it. */
  lemma ParseWire(fin: bool, opcode: Byte, key: Bytes, payload: Bytes, rest: Bytes)
    requires opcode < 16 && ValidKey(key) && |payload| < 0x1_0000_0000_0000_0000
    ensures var wire := Wire(fin, opcode, key, payload);
            ParseFrame(wire + rest) == Complete(|wire|, Frame(fin, opcode, key != [], payload))
  {
    hide Header, HeaderSize, PayloadLength, MaskBytes, LowBits, TopBit, LowNibble, Masked;
    var n := |payload|;
    var h := Header(fin, opcode, key, n);
    var body := if key == [] then payload else Masked(payload, key);
    HeaderParsed(fin, opcode, key, n, body + rest);
    var s := h + (body + rest);
    Joined(h, body, rest);
    if key != [] {
      MaskedTwice(payload, key);
    }
  }

  lemma Joined(h: Bytes, body: Bytes, rest: Bytes)
    ensures var s := h + (body + rest);
            s == h + body + rest && s[|h|..|h| + |body|] == body
  {
  }

  /** A frame cut short is not parsed at all: the parser waits for the rest. */
  lemma PrefixIncomplete(fin: bool, opcode: Byte, key: Bytes, payload: Bytes, k: nat)
    requires opcode < 16 && ValidKey(key) && |payload| < 0x1_0000_0000_0000_0000
    requires k < |Wire(fin, opcode, key, payload)|
    ensures ParseFrame(Wire(fin, opcode, key, payload)[..k]) == Incomplete
  {
    var wire := Wire(fin, opcode, key, payload);
    var s := wire[..k];
    hide ParseFrame, Wire;
    assert wire + [] == wire == s + wire[k..];
    ParseWire(fin, opcode, key, payload, []);
    if ParseFrame(s).Complete? {
      ParseExtends(s, wire[k..]);
    }
  }

  // ----- What a receiver does with the frames -----

  datatype Reply = Reply(opcode: Byte, payload: Bytes, masked: bool)
  datatype Receiver = Receiver(msg: Bytes, delivered: seq<Bytes>, sent: seq<Reply>, failed: bool)

  const START := Receiver([], [], [], false)

  function Received(r: Receiver, f: Frame): Receiver {
    if f.opcode == TEXT_ID || f.opcode == BINARY_ID then
      if f.fin then r.(delivered := r.delivered + [f.payload]) else r.(msg := r.msg + f.payload)
    else if f.opcode == CONT_ID then
      if f.fin then r.(msg := [], delivered := r.delivered + [r.msg + f.payload]) else r.(msg := r.msg + f.payload)
    else if f.opcode == PING_ID then r.(sent := r.sent + [Reply(PONG_ID, f.payload, !f.masked)])
    else if f.opcode == PONG_ID then r
    else if f.opcode == CLOSE_ID then r.(sent := r.sent + [Reply(CLOSE_ID, [], !f.masked)])
    else r.(failed := true)
  }

  /** Every complete frame at the front of the bytes is received; what is left waits for more. */
  function Consumed(r: Receiver, s: Bytes): (Receiver, Bytes)
    decreases |s|
  {
    var p := ParseFrame(s);
    if p.Incomplete? then (r, s) else Consumed(Received(r, p.frame), s[p.length..])
  }

  function Flatten(chunks: seq<Bytes>): Bytes {
    if chunks == [] then [] else chunks[0] + Flatten(chunks[1..])
  }

  /** The chunks as they arrive, each appended to what the last one left. */
  function ConsumedChunks(r: Receiver, rest: Bytes, chunks: seq<Bytes>): (Receiver, Bytes)
    decreases |chunks|
  {
    if chunks == [] then (r, rest) else
      var (next, left) := Consumed(r, rest + chunks[0]);
      ConsumedChunks(next, left, chunks[1..])
  }

  lemma {:induction false} ConsumedSplit(r: Receiver, s: Bytes, t: Bytes)
    ensures var (next, left) := Consumed(r, s);
            Consumed(r, s + t) == Consumed(next, left + t)
    decreases |s|
  {
    var p := ParseFrame(s);
    if p.Complete? {
      ParseExtends(s, t);
      assert (s + t)[p.length..] == s[p.length..] + t;
      ConsumedSplit(Received(r, p.frame), s[p.length..], t);
    }
  }

  lemma {:induction false} ConsumedLeft(r: Receiver, s: Bytes)
    ensures ParseFrame(Consumed(r, s).1) == Incomplete
    decreases |s|
  {
    var p := ParseFrame(s);
    if p.Complete? {
      ConsumedLeft(Received(r, p.frame), s[p.length..]);
    }
  }

  lemma NothingConsumed(r: Receiver, s: Bytes)
    requires ParseFrame(s) == Incomplete
    ensures Consumed(r, s) == (r, s)
  {
  }

  /** What is delivered, replied and left over depends on the bytes alone, not on how they were cut into chunks. */
  lemma {:induction false} ChunksDoNotMatter(r: Receiver, rest: Bytes, chunks: seq<Bytes>)
    requires ParseFrame(rest) == Incomplete
    ensures ConsumedChunks(r, rest, chunks) == Consumed(r, rest + Flatten(chunks))
    decreases |chunks|
  {
    hide ParseFrame, Consumed;
    if chunks == [] {
      assert rest + [] == rest;
      NothingConsumed(r, rest);
    } else {
      var (next, left) := Consumed(r, rest + chunks[0]);
      ConsumedLeft(r, rest + chunks[0]);
      ChunksDoNotMatter(next, left, chunks[1..]);
      ConsumedSplit(r, rest + chunks[0], Flatten(chunks[1..]));
      assert rest + chunks[0] + Flatten(chunks[1..]) == rest + Flatten(chunks);
    }
  }

  // ----- Messages -----

  /** A frame and the masking key its sender chose. */
  datatype Outgoing = Outgoing(fin: bool, opcode: Byte, key: Bytes, payload: Bytes)

  predicate Sendable(o: Outgoing) {
    o.opcode < 16 && ValidKey(o.key) && |o.payload| < 0x1_0000_0000_0000_0000
  }

  predicate AllSendable(os: seq<Outgoing>) {
    forall i :: 0 <= i < |os| ==> Sendable(os[i])
  }

  function AsFrame(o: Outgoing): Frame {
    Frame(o.fin, o.opcode, o.key != [], o.payload)
  }

  function WireAll(os: seq<Outgoing>): Bytes
    requires AllSendable(os)
  {
    if os == [] then [] else Wire(os[0].fin, os[0].opcode, os[0].key, os[0].payload) + WireAll(os[1..])
  }

  function ReceivedAll(r: Receiver, os: seq<Outgoing>): Receiver
    decreases |os|
  {
    if os == [] then r else ReceivedAll(Received(r, AsFrame(os[0])), os[1..])
  }

  lemma SendableFacts(o: Outgoing)
    requires Sendable(o)
    ensures o.opcode < 16 && ValidKey(o.key) && |o.payload| < 0x1_0000_0000_0000_0000
  {
  }

  /** The frames of a stream are received in order, each once, and the bytes after them wait. */
  lemma {:induction false} StreamReceived(r: Receiver, os: seq<Outgoing>, rest: Bytes)
    requires AllSendable(os) && ParseFrame(rest) == Incomplete
    ensures Consumed(r, WireAll(os) + rest) == (ReceivedAll(r, os), rest)
    decreases |os|
  {
    hide ParseFrame, Wire, Received, Sendable;
    if os == [] {
      assert [] + rest == rest;
    } else {
      assert Sendable(os[0]);
      SendableFacts(os[0]);
      var o, tail := os[0], os[1..];
      var wire := Wire(o.fin, o.opcode, o.key, o.payload);
      var s := WireAll(os) + rest;
      assert s == wire + (WireAll(tail) + rest);
      ParseWire(o.fin, o.opcode, o.key, o.payload, WireAll(tail) + rest);
      assert s[|wire|..] == WireAll(tail) + rest;
      StreamReceived(Received(r, AsFrame(o)), tail, rest);
    }
  }

  predicate IsData(o: Outgoing) {
    o.opcode == 0 || o.opcode == 1 || o.opcode == 2
  }

  function DataFrames(os: seq<Outgoing>): seq<Outgoing> {
    if os == [] then [] else (if IsData(os[0]) then [os[0]] else []) + DataFrames(os[1..])
  }

  /** The frames of one message in one or more fragments, as section 5.4 of RFC 6455 lays them out: the first carries the
      type, the others continue it, and only the last is final. */
  predicate IsMessage(os: seq<Outgoing>) {
    && os != []
    && (os[0].opcode == 1 || os[0].opcode == 2)
    && (forall i :: 0 < i < |os| ==> os[i].opcode == 0)
    && (forall i :: 0 <= i < |os| ==> (os[i].fin <==> i == |os| - 1))
  }

  function Payloads(os: seq<Outgoing>): Bytes {
    if os == [] then [] else os[0].payload + Payloads(os[1..])
  }

  function AllFrames(messages: seq<seq<Outgoing>>): seq<Outgoing> {
    if messages == [] then [] else messages[0] + AllFrames(messages[1..])
  }

  function Texts(messages: seq<seq<Outgoing>>): (t: seq<Bytes>)
    ensures |t| == |messages|
  {
    if messages == [] then [] else [Payloads(messages[0])] + Texts(messages[1..])
  }

  /** Control frames, wherever they come, leave the reassembly alone. */
  lemma {:induction false} ControlsDoNotMatter(r: Receiver, os: seq<Outgoing>)
    ensures ReceivedAll(r, os).msg == ReceivedAll(r, DataFrames(os)).msg
    ensures ReceivedAll(r, os).delivered == ReceivedAll(r, DataFrames(os)).delivered
    decreases |os|
  {
    if os != [] {
      var next := Received(r, AsFrame(os[0]));
      ControlsDoNotMatter(next, os[1..]);
      if IsData(os[0]) {
        assert DataFrames(os)[1..] == DataFrames(os[1..]);
      } else {
        assert DataFrames(os) == DataFrames(os[1..]);
        SameReassembly(next, r, DataFrames(os[1..]));
      }
    }
  }

  lemma {:induction false} SameReassembly(a: Receiver, b: Receiver, os: seq<Outgoing>)
    requires a.msg == b.msg && a.delivered == b.delivered
    ensures ReceivedAll(a, os).msg == ReceivedAll(b, os).msg
    ensures ReceivedAll(a, os).delivered == ReceivedAll(b, os).delivered
    decreases |os|
  {
    if os != [] {
      SameReassembly(Received(a, AsFrame(os[0])), Received(b, AsFrame(os[0])), os[1..]);
    }
  }

  lemma {:induction false} ReceivedAppend(r: Receiver, a: seq<Outgoing>, b: seq<Outgoing>)
    ensures ReceivedAll(r, a + b) == ReceivedAll(ReceivedAll(r, a), b)
    decreases |a|
  {
    if a == [] {
      assert [] + b == b;
    } else {
      assert (a + b)[1..] == a[1..] + b;
      ReceivedAppend(Received(r, AsFrame(a[0])), a[1..], b);
    }
  }

  /** The rest of a fragmented message: what was collected and what is still to come are delivered as one. */
  lemma {:induction false} ContinuationDelivered(r: Receiver, os: seq<Outgoing>)
    requires os != [] && forall i :: 0 <= i < |os| ==> os[i].opcode == CONT_ID && (os[i].fin <==> i == |os| - 1)
    ensures ReceivedAll(r, os) == r.(msg := [], delivered := r.delivered + [r.msg + Payloads(os)])
    decreases |os|
  {
    var next, tail := Received(r, AsFrame(os[0])), os[1..];
    if tail == [] {
      assert Payloads(os) == os[0].payload + [] == os[0].payload;
    } else {
      assert forall i :: 0 <= i < |tail| ==> tail[i] == os[i + 1];
      ContinuationDelivered(next, tail);
      assert r.msg + os[0].payload + Payloads(tail) == r.msg + Payloads(os);
    }
  }

  lemma MessageDelivered(r: Receiver, os: seq<Outgoing>)
    requires IsMessage(os) && r.msg == []
    ensures ReceivedAll(r, os) == r.(delivered := r.delivered + [Payloads(os)])
  {
    var next, tail := Received(r, AsFrame(os[0])), os[1..];
    if tail == [] {
      assert Payloads(os) == os[0].payload + [] == os[0].payload;
    } else {
      assert forall i :: 0 <= i < |tail| ==> tail[i] == os[i + 1];
      ContinuationDelivered(next, tail);
      assert [] + os[0].payload == os[0].payload;
    }
  }

  lemma {:induction false} MessagesDelivered(r: Receiver, messages: seq<seq<Outgoing>>)
    requires (forall m <- messages :: IsMessage(m)) && r.msg == []
    ensures ReceivedAll(r, AllFrames(messages)) == r.(delivered := r.delivered + Texts(messages))
    decreases |messages|
  {
    hide Received, IsMessage, Payloads;
    if messages == [] {
      assert r.delivered + [] == r.delivered;
    } else {
      MessageDelivered(r, messages[0]);
      var next := r.(delivered := r.delivered + [Payloads(messages[0])]);
      MessagesDelivered(next, messages[1..]);
      ReceivedAppend(r, messages[0], AllFrames(messages[1..]));
      assert next.delivered + Texts(messages[1..]) == r.delivered + Texts(messages);
    }
  }

  /** A ping is answered with a pong that carries its payload, a close with an empty close, masked if the frame was not. */
  function AnswerTo(o: Outgoing): seq<Reply> {
    if o.opcode == 9 then [Reply(10, o.payload, o.key == [])]
    else if o.opcode == 8 then [Reply(8, [], o.key == [])]
    else []
  }

  function Answers(os: seq<Outgoing>): seq<Reply> {
    if os == [] then [] else AnswerTo(os[0]) + Answers(os[1..])
  }

  lemma AnswerSent(r: Receiver, o: Outgoing)
    ensures Received(r, AsFrame(o)).sent == r.sent + AnswerTo(o)
  {
    assert r.sent + [] == r.sent;
  }

  /** Opcodes 3 to 7 and 11 to 15 are unknown. */
  predicate Known(o: Outgoing) {
    o.opcode <= 2 || 8 <= o.opcode <= 10
  }

  lemma {:induction false} AnswersSent(r: Receiver, os: seq<Outgoing>)
    ensures ReceivedAll(r, os).sent == r.sent + Answers(os)
    decreases |os|
  {
    hide Received, AnswerTo;
    if os == [] {
      assert r.sent + [] == r.sent;
    } else {
      var next := Received(r, AsFrame(os[0]));
      AnswerSent(r, os[0]);
      AnswersSent(next, os[1..]);
      assert next.sent + Answers(os[1..]) == r.sent + Answers(os);
    }
  }

  predicate AllKnown(os: seq<Outgoing>) {
    forall i :: 0 <= i < |os| ==> Known(os[i])
  }

  lemma {:induction false} FailsUnlessKnown(r: Receiver, os: seq<Outgoing>)
    ensures ReceivedAll(r, os).failed <==> r.failed || !AllKnown(os)
    decreases |os|
  {
    if os != [] {
      FailsUnlessKnown(Received(r, AsFrame(os[0])), os[1..]);
      KnownSplit(os);
    }
  }

  lemma KnownSplit(os: seq<Outgoing>)
    requires os != []
    ensures AllKnown(os) <==> Known(os[0]) && AllKnown(os[1..])
  {
    assert os == [os[0]] + os[1..];
  }

  /** End to end: however a stream of fragmented messages with control frames between them is masked and cut into chunks,
      the receiver delivers exactly the messages, in order, and answers each ping and close. */
  lemma StreamDelivers(messages: seq<seq<Outgoing>>, os: seq<Outgoing>, chunks: seq<Bytes>)
    requires (forall m <- messages :: IsMessage(m)) && AllSendable(os)
    requires DataFrames(os) == AllFrames(messages)
    requires Flatten(chunks) == WireAll(os)
    ensures var (r, left) := ConsumedChunks(START, [], chunks);
            && left == [] && r.msg == [] && r.delivered == Texts(messages)
            && r.sent == Answers(os) && (r.failed <==> !AllKnown(os))
  {
    ChunksDoNotMatter(START, [], chunks);
    assert [] + Flatten(chunks) == WireAll(os) + [];
    StreamReceived(START, os, []);
    ControlsDoNotMatter(START, os);
    AnswersSent(START, os);
    FailsUnlessKnown(START, os);
    assert [] + Answers(os) == Answers(os);
    MessagesDelivered(START, messages);
  }
}
