/** The frame writer and the receiving half of a connection: one read buffer, parsed and unmasked in place. */
module WebSocket {
  import opened Bits
  import opened WebSocketFrames

  /** A message writer, its buffers seen as the bytes they hold. */
  class Writer {
    var bytes: Bytes

    constructor ()
      ensures bytes == []
    {
      bytes := [];
    }

    /** Frames a payload; the key is the one drawn at random, used only when masking. */
    method Commit(opcode: Byte, payload: Bytes, mask: bool, key: Bytes)
      requires bytes == [] && opcode < 16 && |key| == 4 && |payload| < 0x1_0000_0000_0000_0000
      modifies this
      ensures bytes == Wire(true, opcode, if mask then key else [], payload)
    {
      var payLen := |payload|;
      var hdr: Bytes := [WithTop(true, opcode)];
      if payLen < 126 {
        hdr := hdr + [WithTop(mask, payLen)];
        assert BigEndian(payLen, 0) == [];
      } else if payLen <= 0xffff {
        hdr := hdr + [WithTop(mask, 126)] + BigEndian(payLen, 2);
      } else {
        hdr := hdr + [WithTop(mask, 127)] + BigEndian(payLen, 8);
      }
      ghost var k: Bytes := if mask then key else [];
      assert hdr + k == Header(true, opcode, k, payLen);
      if mask {
        hdr := hdr + key;
        bytes := hdr + payload;
        MaskFrom(|hdr|, key, payload);
      } else {
        bytes := hdr + payload;
      }
    }

    method MaskFrom(hdsz: nat, ghost key: Bytes, ghost payload: Bytes)
      requires 4 <= hdsz <= |bytes| && |key| == 4 && bytes[hdsz - 4..hdsz] == key && bytes[hdsz..] == payload
      modifies this
      ensures bytes == old(bytes[..hdsz]) + Masked(payload, key)
    {
      hide Xor;
      ghost var hdr := bytes[..hdsz];
      assert forall j :: 0 <= j < 4 ==> key[j] == hdr[hdsz - 4 + j];
      var i := 0;
      while hdsz + i < |bytes|
        invariant i <= |payload| && |bytes| == hdsz + |payload| && bytes[..hdsz] == hdr
        invariant forall j :: 0 <= j < i ==> bytes[hdsz + j] == Xor(payload[j], key[j % 4])
        invariant forall j :: i <= j < |payload| ==> bytes[hdsz + j] == payload[j]
      {
        assert bytes[hdsz - 4 + i % 4] == bytes[..hdsz][hdsz - 4 + i % 4] == key[i % 4];
        bytes := bytes[hdsz + i := Xor(bytes[hdsz + i], bytes[hdsz - 4 + i % 4])];
        i := i + 1;
      }
      assert bytes == hdr + bytes[hdsz..];
    }
  }

  lemma Subslice(r: Bytes, a: nat, b: nat, c: nat, d: nat)
    requires a <= b <= |r| && c <= d <= b - a
    ensures r[a..b][c..d] == r[a + c..a + d]
  {
    assert forall i :: 0 <= i < d - c ==> r[a..b][c..d][i] == r[a..b][c + i] == r[a + c + i];
  }

  /** The start of the body and the two lengths of a frame that is all there. */
  ghost predicate Measured(s: Bytes, start: nat, payLen: nat, mskLen: nat) {
    && |s| >= 2 && |s| >= 2 + LengthBytes(LowBits(s[1]))
    && start == 2 + LengthBytes(LowBits(s[1])) && payLen == PayloadLength(s) && mskLen == MaskBytes(s)
    && |s| >= start + payLen + mskLen
  }

  /** What is not all there is not parsed. */
  lemma CutShort(s: Bytes)
    ensures |s| < 2 || |s| < 2 + LengthBytes(LowBits(s[1])) ==> ParseFrame(s) == Incomplete
    ensures |s| >= 2 && |s| >= 2 + LengthBytes(LowBits(s[1])) > |s| - PayloadLength(s) - MaskBytes(s) ==>
              ParseFrame(s) == Incomplete
    ensures |s| >= 2 ==> MaskBytes(s) == if TopBit(s[1]) then 4 else 0
  {
    hide Masked, Number, LowBits, LowNibble;
  }

  /** The payload of a frame so measured. */
  ghost function Body(s: Bytes, start: nat, payLen: nat, mskLen: nat): Bytes
    requires start + mskLen + payLen <= |s| && (mskLen == 0 || mskLen == 4)
  {
    var raw := s[start + mskLen..start + mskLen + payLen];
    if mskLen == 0 then raw else Masked(raw, s[start..start + 4])
  }

  lemma MeasuredFrame(s: Bytes, start: nat, payLen: nat, mskLen: nat)
    requires Measured(s, start, payLen, mskLen)
    ensures start >= 2 && (mskLen == 0 || mskLen == 4) && |s| >= start + payLen + mskLen
    ensures ParseFrame(s)
         == Complete(start + payLen + mskLen,
                     Frame(TopBit(s[0]), LowNibble(s[0]), mskLen != 0, Body(s, start, payLen, mskLen)))
  {
    hide Masked, PayloadLength, LowBits, TopBit, LowNibble, LengthBytes;
  }

  lemma OneFrame(r: Receiver, s: Bytes)
    ensures var p := ParseFrame(s);
            Consumed(r, s) == if p.Incomplete? then (r, s) else Consumed(Received(r, p.frame), s[p.length..])
    ensures s == [] ==> ParseFrame(s) == Incomplete
  {
  }

  lemma SameTail(r: Bytes, t: Bytes, a: nat, b: nat)
    requires a <= b <= |r| == |t| && r[a..] == t[a..]
    ensures r[a..b] == t[a..b]
  {
    assert r[a..b] == r[a..][..b - a] && t[a..b] == t[a..][..b - a];
  }

  const BUF_LEN: nat := 2048

  /** The read buffer with the parser state behind it; deliveries and replies are recorded in order. */
  class Connection {
    var rdr: array<Byte>
    var rsz: nat
    var msg: Bytes
    var delivered: seq<Bytes>
    var sent: seq<Reply>
    var failed: bool

    constructor ()
      ensures Valid() && State() == START && Left() == [] && fresh(rdr)
    {
      rdr := new Byte[0];
      rsz, msg, delivered, sent, failed := 0, [], [], [], false;
    }

    predicate Valid()
      reads this
    {
      rsz <= rdr.Length
    }

    function State(): Receiver
      reads this
    {
      Receiver(msg, delivered, sent, failed)
    }

    /** The bytes read and not yet parsed. */
    function Left(): Bytes
      requires Valid()
      reads this, rdr
    {
      rdr[..rsz]
    }

    /** Measures the frame at the front of the window, if all of it is there. */
    method Measure(idx: nat, len: nat) returns (ok: bool, start: nat, payLen: nat, mskLen: nat)
      requires idx + len <= rdr.Length
      ensures ok ==> Measured(rdr[idx..idx + len], start, payLen, mskLen)
      ensures !ok ==> ParseFrame(rdr[idx..idx + len]) == Incomplete
    {
      hide Number, ParseFrame, TopBit, LowBits, MaskBytes;
      ghost var s := rdr[idx..idx + len];
      CutShort(s);
      ok, start, payLen, mskLen := false, 2, 0, 0;
      if len < 2 {
        return;
      }
      assert s[1] == rdr[idx + 1];
      mskLen := if TopBit(rdr[idx + 1]) then 4 else 0;
      var short := LowBits(rdr[idx + 1]);
      if short < 126 {
        payLen := short;
      } else {
        start := if short == 126 then 4 else 10;
        if len < start {
          return;
        }
        Subslice(rdr[..], idx, idx + len, 2, start);
        payLen := Number(rdr[idx + 2..idx + start]);
      }
      ok := len >= start + payLen + mskLen;
    }

    /** Parses the frame at the front of the window, unmasking it in the buffer, only when all of it is there. */
    method Parse(idx: nat, len: nat) returns (ok: bool, res: nat)
      requires idx + len <= rdr.Length
      modifies `msg, `delivered, `sent, `failed, rdr
      ensures var p := ParseFrame(old(rdr[idx..idx + len]));
              && (ok <==> p.Complete?)
              && (ok ==> res == p.length && State() == Received(old(State()), p.frame))
      ensures ok ==> res <= len && rdr[idx + res..idx + len] == old(rdr[idx..idx + len])[res..]
      ensures !ok ==> State() == old(State()) && rdr[..] == old(rdr[..])
    {
      hide ParseFrame, Body, Received, Measured;
      ghost var was, s := rdr[..], rdr[idx..idx + len];
      var start, payLen, mskLen;
      ok, start, payLen, mskLen := Measure(idx, len);
      if !ok {
        return false, 0;
      }
      MeasuredFrame(s, start, payLen, mskLen);
      assert s[0] == rdr[idx];
      var fin, opcode := TopBit(rdr[idx]), LowNibble(rdr[idx]);
      var payload := Unmasked(idx, len, start, payLen, mskLen);
      res := payLen + start + mskLen;
      SameTail(was, rdr[..], idx + res, idx + len);
      Subslice(was, idx, idx + len, res, len);
      Dispatch(fin, opcode, mskLen != 0, payload);
    }

    /** The payload, unmasked in the buffer first if it is masked. */
    method Unmasked(idx: nat, ghost len: nat, start: nat, payLen: nat, mskLen: nat) returns (payload: Bytes)
      requires idx + len <= rdr.Length && start + mskLen + payLen <= len && (mskLen == 0 || mskLen == 4)
      modifies rdr
      ensures payload == Body(old(rdr[idx..idx + len]), start, payLen, mskLen)
      ensures var end := idx + start + mskLen + payLen;
              rdr[end..] == old(rdr[end..])
    {
      hide Masked;
      Subslice(rdr[..], idx, idx + len, start + mskLen, start + mskLen + payLen);
      var first := idx + start;
      if mskLen != 0 {
        Subslice(rdr[..], idx, idx + len, start, start + 4);
        Unmask(first, payLen);
        first := first + 4;
      }
      payload := rdr[first..first + payLen];
    }

    /** The masking key is at the given place and the payload after it. */
    method Unmask(at: nat, payLen: nat)
      requires at + 4 + payLen <= rdr.Length
      modifies rdr
      ensures rdr[at + 4..at + 4 + payLen] == Masked(old(rdr[at + 4..at + 4 + payLen]), old(rdr[at..at + 4]))
      ensures rdr[..at + 4] == old(rdr[..at + 4]) && rdr[at + 4 + payLen..] == old(rdr[at + 4 + payLen..])
    {
      ghost var key, raw := rdr[at..at + 4], rdr[at + 4..at + 4 + payLen];
      var first := at + 4;
      var i := 0;
      while i != payLen
        invariant 0 <= i <= payLen && rdr == old(rdr)
        invariant rdr[..first] == old(rdr[..first]) && rdr[first + payLen..] == old(rdr[first + payLen..])
        invariant forall j :: 0 <= j < i ==> rdr[first + j] == Xor(raw[j], key[j % 4])
        invariant forall j :: i <= j < payLen ==> rdr[first + j] == raw[j]
      {
        assert rdr[at + i % 4] == rdr[..first][at + i % 4] == key[i % 4];
        rdr[first + i] := Xor(rdr[first + i], rdr[at + i % 4]);
        i := i + 1;
      }
    }

    method Dispatch(fin: bool, opcode: Byte, masked: bool, payload: Bytes)
      modifies `msg, `delivered, `sent, `failed
      ensures State() == Received(old(State()), Frame(fin, opcode, masked, payload))
    {
      if opcode == TEXT_ID || opcode == BINARY_ID {
        if fin {
          delivered := delivered + [payload];
        } else {
          msg := msg + payload;
        }
      } else if opcode == CONT_ID {
        msg := msg + payload;
        if fin {
          delivered := delivered + [msg];
          msg := [];
        }
      } else if opcode == PING_ID {
        sent := sent + [Reply(PONG_ID, payload, !masked)];
      } else if opcode == PONG_ID {
      } else if opcode == CLOSE_ID {
        sent := sent + [Reply(CLOSE_ID, [], !masked)];
      } else {
        failed := true;
      }
    }

    /** Makes room for one read. */
    method Reserve()
      requires Valid()
      modifies `rdr
      ensures Valid() && rdr.Length - rsz >= BUF_LEN && Left() == old(Left())
      ensures rdr == old(rdr) || fresh(rdr)
    {
      if rdr.Length - rsz < BUF_LEN {
        var larger := new Byte[rdr.Length + BUF_LEN];
        var i := 0;
        while i < rdr.Length
          invariant i <= rdr.Length && larger[..i] == rdr[..i]
          modifies larger
        {
          larger[i] := rdr[i];
          i := i + 1;
        }
        assert larger[..rsz] == larger[..i][..rsz] == rdr[..i][..rsz] == rdr[..rsz];
        rdr := larger;
      }
    }

    method Receive(chunk: Bytes)
      requires Valid() && rdr.Length - rsz >= |chunk|
      modifies `rsz, rdr
      ensures Valid() && Left() == old(Left()) + chunk
    {
      ghost var left := Left();
      var i := 0;
      while i < |chunk|
        invariant i <= |chunk| && rsz == old(rsz) && rdr == old(rdr)
        invariant rdr[..rsz + i] == left + chunk[..i]
      {
        rdr[rsz + i] := chunk[i];
        i := i + 1;
      }
      rsz := rsz + |chunk|;
    }

    /** Moves the bytes not parsed to the front of the buffer. */
    method Shuffle(idx: nat)
      requires idx + rsz <= rdr.Length
      modifies rdr
      ensures rdr[..rsz] == old(rdr[idx..idx + rsz])
    {
      ghost var was := rdr[idx..idx + rsz];
      var i := 0;
      while i < rsz
        invariant 0 <= i <= rsz && rsz == old(rsz) && rdr == old(rdr)
        invariant forall j :: 0 <= j < i ==> rdr[j] == was[j]
        invariant forall j :: i <= j < rsz ==> rdr[idx + j] == was[j]
      {
        rdr[i] := rdr[idx + i];
        i := i + 1;
      }
    }

    /** Parses frame after frame until the bytes run out or the next frame is not all there. */
    method ParseAll()
      requires Valid()
      modifies this, rdr
      ensures rdr == old(rdr) && Valid()
      ensures (State(), Left()) == Consumed(old(State()), old(Left()))
    {
      hide ParseFrame, Received, Consumed;
      ghost var goal := Consumed(State(), Left());
      var idx := 0;
      while rsz > 0
        invariant rdr == old(rdr) && 0 <= idx && idx + rsz <= rdr.Length
        invariant Consumed(State(), rdr[idx..idx + rsz]) == goal
        decreases rsz
      {
        OneFrame(State(), rdr[idx..idx + rsz]);
        var ok, rlen := Parse(idx, rsz);
        if ok {
          idx := idx + rlen;
          rsz := rsz - rlen;
        } else {
          if idx > 0 {
            Shuffle(idx);
          }
          return;
        }
      }
      OneFrame(State(), []);
      assert rdr[idx..idx + rsz] == [] == rdr[..rsz];
    }

    /** One poll: the reads that succeed before the socket has no more, each of at most one buffer length. */
    method PollRecv(chunks: seq<Bytes>)
      requires Valid() && forall i :: 0 <= i < |chunks| ==> 0 < |chunks[i]| <= BUF_LEN
      modifies this, rdr
      ensures Valid() && (rdr == old(rdr) || fresh(rdr))
      ensures (State(), Left()) == ConsumedChunks(old(State()), old(Left()), chunks)
    {
      hide Consumed;
      ghost var goal := ConsumedChunks(State(), Left(), chunks);
      var i := 0;
      while i < |chunks|
        invariant i <= |chunks| && Valid() && (rdr == old(rdr) || fresh(rdr))
        invariant ConsumedChunks(State(), Left(), chunks[i..]) == goal
      {
        Reserve();
        Receive(chunks[i]);
        ParseAll();
        assert chunks[i..][1..] == chunks[i + 1..];
        i := i + 1;
      }
    }
  }
}
