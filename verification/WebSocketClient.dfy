/** The buffered client of scripts/webview-eval.py and the exact reader of
    scripts/webview-bridge.py, on a socket that delivers its bytes in arbitrary chunks. */
module WebSocketClient {
  import opened Sequences
  import opened Wrappers
  import opened Bytes
  import opened WebSocketFrames

  /** One end of a connection. `pending` is what the peer has sent and nobody has taken. */
  class Socket {
    var pending: bytes
    var sent: bytes

    constructor (incoming: bytes)
      ensures pending == incoming && sent == []
    {
      pending, sent := incoming, [];
    }

    /** `recv`: any non-empty part of what is there, or a timeout if nothing is. */
    method Recv(max: nat) returns (chunk: Option<bytes>)
      requires max > 0
      modifies this`pending
      ensures chunk.None? <==> old(pending) == []
      ensures chunk.Some? ==> 0 < |chunk.value| <= max && old(pending) == chunk.value + pending
      ensures chunk.None? ==> pending == []
    {
      if pending == [] {
        return None;
      }
      var k: nat :| 1 <= k <= max && k <= |pending|;
      chunk := Some(pending[..k]);
      pending := pending[k..];
    }

    method SendAll(data: bytes)
      modifies this`sent
      ensures sent == old(sent) + data
    {
      sent := sent + data;
    }
  }

  lemma Appended(a: bytes, b: bytes)
    ensures (a + b)[|a|..] == b
  {
  }

  lemma Slices(a: bytes, b: bytes, i: nat, j: nat)
    requires i <= j <= |a|
    ensures (a + b)[i..j] == a[i..j] && (a + b)[j..] == a[j..] + b
  {
  }

  /** A complete frame in terms of its header, its mask and the places of its payload. */
  lemma DecodeOf(s: bytes, mask: bytes)
    requires Complete(s)
    requires mask == if HeaderOf(s).masked then s[HeaderOf(s).Size()..Start(s)] else []
    ensures var payload := s[Start(s)..End(s)];
            Decode(s) == Some((Message(HeaderOf(s).opcode, if mask != [] then Masked(payload, mask) else payload),
                               s[End(s)..]))
  {
  }

  class WSClient {
    const sock: Socket
    var buf: bytes

    constructor (sock: Socket, rest: bytes)
      ensures this.sock == sock && buf == rest
    {
      this.sock, buf := sock, rest;
    }

    /** What has not been returned yet: the buffer and then what is still on the way. */
    ghost function Stream(): bytes
      reads this, sock
    {
      buf + sock.pending
    }

    /** A `while len(self.buf) < n` loop. A timeout keeps what was received. */
    method Fill(n: nat, max: nat) returns (ok: bool)
      requires max > 0
      modifies this`buf, sock`pending
      ensures Stream() == old(Stream()) && old(buf) <= buf
      ensures ok <==> |old(Stream())| >= n
      ensures ok ==> |buf| >= n
      ensures !ok ==> sock.pending == []
    {
      while |buf| < n
        invariant Stream() == old(Stream()) && old(buf) <= buf
        decreases n - |buf|
      {
        var chunk := sock.Recv(max);
        if chunk.None? {
          return false;
        }
        buf := buf + chunk.value;
      }
      ok := true;
    }

    /** `_read_frame`: returns the first frame of the stream and leaves the rest, however
        the bytes are cut into chunks; a timeout leaves the stream as it was. */
    method ReadFrame() returns (r: Option<Message>)
      modifies this`buf, sock`pending
      ensures match Decode(old(Stream()))
              case None => r == None && Stream() == old(Stream())
              case Some((m, rest)) => r == Some(m) && Stream() == rest
    {
      ghost var stream := Stream();
      var ok := Fill(2, 4096);
      if !ok {
        return None;
      }
      var b1, b2 := buf[0], buf[1];
      assert b1 == stream[0] && b2 == stream[1];
      var opcode := b1 % 16;
      var masked := b2 >= 128;
      var length: nat := b2 % 128;
      var idx := 2;
      if length == 126 {
        ok := Fill(idx + 2, 4096);
        if !ok {
          return None;
        }
        assert buf[idx..idx + 2] == stream[idx..idx + 2];
        length := FromBigEndian(buf[idx..idx + 2]);
        idx := idx + 2;
      } else if length == 127 {
        ok := Fill(idx + 8, 4096);
        if !ok {
          return None;
        }
        assert buf[idx..idx + 8] == stream[idx..idx + 8];
        length := FromBigEndian(buf[idx..idx + 8]);
        idx := idx + 8;
      }
      assert HasHeader(stream) && idx == HeaderOf(stream).Size() && length == PayloadLength(stream);
      var mask: bytes := [];
      if masked {
        ok := Fill(idx + 4, 4096);
        if !ok {
          return None;
        }
        mask := buf[idx..idx + 4];
        assert mask == stream[idx..idx + 4];
        idx := idx + 4;
      }
      r := ReadPayload(stream, opcode, mask, idx, length);
    }

    /** The end of `_read_frame`, once the header and the mask are known. */
    method ReadPayload(ghost stream: bytes, opcode: nat, mask: bytes, idx: nat, length: nat)
        returns (r: Option<Message>)
      requires stream == Stream() && |buf| >= idx && HasHeader(stream)
      requires opcode == HeaderOf(stream).opcode && idx == Start(stream) && length == PayloadLength(stream)
      requires mask == if HeaderOf(stream).masked then stream[HeaderOf(stream).Size()..idx] else []
      modifies this`buf, sock`pending
      ensures match Decode(stream)
              case None => r == None && Stream() == stream
              case Some((m, rest)) => r == Some(m) && Stream() == rest
    {
      var end := idx + length;
      var ok := Fill(end, 65536);
      if !ok {
        assert !Complete(stream);
        return None;
      }
      var payload := buf[idx..end];
      Slices(buf, sock.pending, idx, end);
      DecodeOf(stream, mask);
      buf := buf[end..];
      if mask != [] {
        payload := Masked(payload, mask);
      }
      r := Some(Message(opcode, payload));
    }

    /** Calls `_read_frame` until nothing complete is left. */
    method ReadFrames() returns (messages: seq<Message>)
      modifies this`buf, sock`pending
      ensures messages == DecodeAll(old(Stream())).0 && Stream() == DecodeAll(old(Stream())).1
    {
      messages := [];
      while true
        invariant DecodeAll(old(Stream())).0 == messages + DecodeAll(Stream()).0
        invariant DecodeAll(old(Stream())).1 == DecodeAll(Stream()).1
        decreases |Stream()|
      {
        ghost var before := Stream();
        var r := ReadFrame();
        if r.None? {
          break;
        }
        DecodeAllStep(before, r.value, Stream());
        Regroup(messages, [r.value], DecodeAll(Stream()).0);
        messages := messages + [r.value];
      }
    }

    /** `send_text` on the encoded text; Python refuses lengths of 2^64 and more. */
    method SendText(data: bytes) returns (ok: bool)
      modifies sock`sent
      ensures ok <==> |data| < MAX_PAYLOAD
      ensures ok ==> sock.sent == old(sock.sent) + Encode(1, Some([0, 0, 0, 0]), data)
      ensures ok ==> IsFrame(sock.sent[|old(sock.sent)|..], 1, Some([0, 0, 0, 0]), data)
      ensures !ok ==> sock.sent == old(sock.sent)
    {
      var header: bytes := [0x81];
      var n := |data|;
      if n < 126 {
        header := header + [0x80 + n];
      } else if n < 65536 {
        assert Power256(2) == 65536;
        header := header + [0x80 + 126] + ToBigEndian(n, 2);
      } else if n < MAX_PAYLOAD {
        assert Power256(8) == MAX_PAYLOAD;
        header := header + [0x80 + 127] + ToBigEndian(n, 8);
      } else {
        return false;
      }
      var mask: Mask := [0, 0, 0, 0];
      ZeroMask(data);
      var (bits, ext) := LengthBytes(n);
      assert header == [128 + 1, 128 + bits] + ext;
      sock.SendAll(header + mask + data);
      EncodeIsFrame(1, Some([0, 0, 0, 0]), data);
      Appended(old(sock.sent), header + mask + data);
      ok := true;
    }
  }

  lemma {:induction false} XorZero(a: nat, k: nat)
    requires a < Power2(k)
    ensures XorBits(a, 0, k) == a
  {
    if k > 0 {
      XorZero(a / 2, k - 1);
    }
  }

  /** The mask of `send_text` changes nothing, so leaving out the masking is no difference. */
  lemma ZeroMask(data: bytes)
    ensures Masked(data, [0, 0, 0, 0]) == data
  {
    assert Power2(8) == 256;
    forall i | 0 <= i < |data|
      ensures Masked(data, [0, 0, 0, 0])[i] == data[i]
    {
      XorZero(data[i], 8);
    }
  }

  // ----- The exact reader -----

  /** Reads exactly `n` bytes; a timeout loses what was read so far. */
  method ReadExactly(sock: Socket, n: nat) returns (r: Option<bytes>)
    modifies sock`pending
    ensures |old(sock.pending)| >= n ==>
              r == Some(old(sock.pending)[..n]) && sock.pending == old(sock.pending)[n..]
    ensures |old(sock.pending)| < n ==> r == None && sock.pending == []
  {
    var acc: bytes := [];
    while |acc| < n
      invariant |acc| <= n && acc + sock.pending == old(sock.pending)
      decreases n - |acc|
    {
      var c := sock.Recv(n - |acc|);
      if c.None? {
        return None;
      }
      acc := acc + c.value;
    }
    r := Some(acc);
  }

  /** `recv_frame` of webview-bridge.py. */
  method RecvFrame(sock: Socket) returns (r: Option<Message>)
    modifies sock`pending
    ensures match DecodeUnmasked(old(sock.pending))
            case None => r == None && sock.pending == []
            case Some((m, rest)) => r == Some(m) && sock.pending == rest
  {
    ghost var stream := sock.pending;
    var head := ReadExactly(sock, 2);
    if head.None? {
      return None;
    }
    var b1, b2 := head.value[0], head.value[1];
    var opcode := b1 % 16;
    var length: nat := b2 % 128;
    ghost var size := HeaderOf(stream).Size();
    if length == 126 {
      var ext := ReadExactly(sock, 2);
      if ext.None? {
        return None;
      }
      assert ext.value == stream[2..size];
      length := FromBigEndian(ext.value);
    } else if length == 127 {
      var ext := ReadExactly(sock, 8);
      if ext.None? {
        return None;
      }
      assert ext.value == stream[2..size];
      length := FromBigEndian(ext.value);
    }
    assert sock.pending == stream[size..];
    var body := ReadExactly(sock, length);
    if body.None? {
      return None;
    }
    assert body.value == stream[size..size + length];
    assert sock.pending == stream[size + length..];
    r := Some(Message(opcode, body.value));
  }

  /** Calls `recv_frame` until a timeout: the same messages as the buffered client returns
      when no frame is masked, but the incomplete tail of the stream is lost. */
  method RecvFrames(sock: Socket) returns (messages: seq<Message>)
    modifies sock`pending
    ensures messages == DecodeAllUnmasked(old(sock.pending)).0
    ensures NoneMasked(old(sock.pending)) ==> messages == DecodeAll(old(sock.pending)).0
    ensures sock.pending == []
  {
    ghost var stream := sock.pending;
    if NoneMasked(stream) {
      TwinsAgree(stream);
    }
    messages := [];
    while true
      invariant DecodeAllUnmasked(stream).0 == messages + DecodeAllUnmasked(sock.pending).0
      decreases |sock.pending|
    {
      var r := RecvFrame(sock);
      if r.None? {
        break;
      }
      Regroup(messages, [r.value], DecodeAllUnmasked(sock.pending).0);
      messages := messages + [r.value];
    }
  }
}
