/** WebSocket frames (sections 5.2 and 5.3 of RFC 6455) as scripts/webview-eval.py and
    scripts/webview-bridge.py write and read them. */
module WebSocketFrames {
  import opened Sequences
  import opened Wrappers
  import opened Bytes

  type Mask = m: bytes | |m| == 4 witness [0, 0, 0, 0]

  /** `bytes(b ^ mask[i & 3] for i, b in enumerate(data))`. */
  function Masked(data: bytes, mask: Mask): (r: bytes)
    ensures |r| == |data|
  {
    seq(|data|, i requires 0 <= i < |data| => Xor(data[i], mask[i % 4]))
  }

  lemma MaskedTwice(data: bytes, mask: Mask)
    ensures Masked(Masked(data, mask), mask) == data
  {
    forall i | 0 <= i < |data|
      ensures Masked(Masked(data, mask), mask)[i] == data[i]
    {
      XorTwice(data[i], mask[i % 4]);
    }
  }

  // ----- Writing -----

  const MAX_PAYLOAD := 0x1_0000_0000_0000_0000

  /** The length bits and the extended length that follow them. */
  function LengthBytes(n: nat): (r: (nat, bytes))
    ensures r.0 < 128
    requires n < MAX_PAYLOAD
  {
    assert Power256(2) == 65536;
    assert Power256(8) == MAX_PAYLOAD;
    if n < 126 then (n, []) else if n < 65536 then (126, ToBigEndian(n, 2)) else (127, ToBigEndian(n, 8))
  }

  /** A final frame; the mask, if there is one, is written and applied. */
  function Encode(opcode: nat, mask: Option<Mask>, data: bytes): bytes
    requires opcode < 16 && |data| < MAX_PAYLOAD
  {
    var (bits, ext) := LengthBytes(|data|);
    match mask
    case None => [128 + opcode, bits] + ext + data
    case Some(m) => [128 + opcode, 128 + bits] + ext + m + Masked(data, m)
  }

  /** The layout of a final frame, byte by byte: the flag for the last fragment and the
      opcode, the mask bit and the length bits, the extended length with its most significant
      byte first, the mask, and the payload. */
  ghost predicate IsFrame(bs: bytes, opcode: nat, mask: Option<Mask>, data: bytes) {
    var n := |data|;
    var k := if n < 126 then 0 else if n < 65536 then 2 else 8;
    var start := 2 + k + if mask.Some? then 4 else 0;
    && |bs| == start + n
    && bs[0] == 0x80 + opcode
    && bs[1] == (if mask.Some? then 0x80 else 0) + (if n < 126 then n else if n < 65536 then 126 else 127)
    && IsBigEndian(bs[2..2 + k], n)
    && (mask.Some? ==> bs[2 + k..start] == mask.value)
    && IsPayload(bs[start..], mask, data)
  }

  /** The most significant byte comes first. */
  predicate IsBigEndian(ext: bytes, n: nat) {
    forall i :: 0 <= i < |ext| ==> ext[i] == n / Power256(|ext| - 1 - i) % 256
  }

  predicate IsPayload(body: bytes, mask: Option<Mask>, data: bytes) {
    && |body| == |data|
    && forall i :: 0 <= i < |body| ==> body[i] == if mask.Some? then Xor(data[i], mask.value[i % 4]) else data[i]
  }

  lemma EncodeIsFrame(opcode: nat, mask: Option<Mask>, data: bytes)
    requires opcode < 16 && |data| < MAX_PAYLOAD
    ensures IsFrame(Encode(opcode, mask, data), opcode, mask, data)
  {
    var (bits, ext) := LengthBytes(|data|);
    LengthIsBigEndian(|data|);
    match mask
    case None =>
      Layout([128 + opcode, bits], ext, [], data);
      assert [128 + opcode, bits] + ext + [] + data == [128 + opcode, bits] + ext + data;
    case Some(m) =>
      Layout([128 + opcode, 128 + bits], ext, m, Masked(data, m));
  }

  lemma LengthIsBigEndian(n: nat)
    requires n < MAX_PAYLOAD
    ensures var (bits, ext) := LengthBytes(n);
            && bits == (if n < 126 then n else if n < 65536 then 126 else 127)
            && |ext| == (if n < 126 then 0 else if n < 65536 then 2 else 8)
            && IsBigEndian(ext, n)
  {
    assert Power256(2) == 65536;
    assert Power256(8) == MAX_PAYLOAD;
    var ext := LengthBytes(n).1;
    forall i | 0 <= i < |ext|
      ensures ext[i] == n / Power256(|ext| - 1 - i) % 256
    {
      BigEndianAt(n, |ext|, i);
    }
  }

  lemma Layout(head: bytes, ext: bytes, m: bytes, body: bytes)
    requires |head| == 2
    ensures var bs, k, l := head + ext + m + body, 2 + |ext|, 2 + |ext| + |m|;
            bs[0] == head[0] && bs[1] == head[1] && bs[2..k] == ext && bs[k..l] == m && bs[l..] == body
  {
  }

  // ----- Reading -----

  datatype Header = Header(opcode: nat, masked: bool, extended: nat) {
    /** Where the mask or the payload starts. */
    function Size(): nat {
      2 + extended
    }
  }

  function HeaderOf(s: bytes): Header
    requires |s| >= 2
  {
    var bits := s[1] % 128;
    Header(s[0] % 16, s[1] >= 128, if bits == 126 then 2 else if bits == 127 then 8 else 0)
  }

  predicate HasHeader(s: bytes) {
    |s| >= 2 && |s| >= HeaderOf(s).Size()
  }

  function PayloadLength(s: bytes): nat
    requires HasHeader(s)
  {
    var h := HeaderOf(s);
    if h.extended == 0 then s[1] % 128 else FromBigEndian(s[2..h.Size()])
  }

  /** Where the payload starts and ends. */
  function Start(s: bytes): nat
    requires HasHeader(s)
  {
    HeaderOf(s).Size() + if HeaderOf(s).masked then 4 else 0
  }

  function End(s: bytes): nat
    requires HasHeader(s)
  {
    Start(s) + PayloadLength(s)
  }

  predicate Complete(s: bytes) {
    HasHeader(s) && |s| >= End(s)
  }

  datatype Message = Message(opcode: nat, payload: bytes)

  function MessageOf(s: bytes): Message
    requires Complete(s)
  {
    var h := HeaderOf(s);
    var body := s[Start(s)..End(s)];
    Message(h.opcode, if h.masked then Masked(body, s[h.Size()..Start(s)]) else body)
  }

  /** The first frame of a stream and the bytes behind it, once all of it is there. */
  function Decode(s: bytes): Option<(Message, bytes)> {
    if Complete(s) then Some((MessageOf(s), s[End(s)..])) else None
  }

  lemma HeaderOfPrefix(s: bytes, more: bytes)
    requires |s| >= 2
    ensures HeaderOf(s + more) == HeaderOf(s)
    ensures HasHeader(s) ==>
              PayloadLength(s + more) == PayloadLength(s) && Start(s + more) == Start(s) && End(s + more) == End(s)
  {
    assert (s + more)[0] == s[0] && (s + more)[1] == s[1];
    if HasHeader(s) {
      assert (s + more)[2..HeaderOf(s).Size()] == s[2..HeaderOf(s).Size()];
    }
  }

  /** A complete frame is the same frame whatever arrives behind it. */
  lemma DecodeIsStable(s: bytes, more: bytes)
    requires Complete(s)
    ensures Decode(s + more) == Some((MessageOf(s), s[End(s)..] + more))
  {
    HeaderOfPrefix(s, more);
    var size, start, end := HeaderOf(s).Size(), Start(s), End(s);
    assert (s + more)[start..end] == s[start..end];
    assert HeaderOf(s).masked ==> (s + more)[size..start] == s[size..start];
    assert (s + more)[end..] == s[end..] + more;
  }

  // ----- Round trip -----

  lemma HeaderRoundTrip(opcode: nat, masked: bool, n: nat, rest: bytes)
    requires opcode < 16 && n < MAX_PAYLOAD
    ensures var (bits, ext) := LengthBytes(n);
            var s := [128 + opcode, (if masked then 128 else 0) + bits] + ext + rest;
            && HeaderOf(s) == Header(opcode, masked, |ext|)
            && PayloadLength(s) == n
  {
    var (bits, ext) := LengthBytes(n);
    var s := [128 + opcode, (if masked then 128 else 0) + bits] + ext + rest;
    assert s[0] == 128 + opcode && s[1] == (if masked then 128 else 0) + bits;
    assert s[2..2 + |ext|] == ext;
    assert Power256(2) == 65536;
    assert Power256(8) == MAX_PAYLOAD;
    if n >= 65536 {
      BigEndianRoundTrip(n, 8);
    } else if n >= 126 {
      BigEndianRoundTrip(n, 2);
    }
  }

  /** A frame made of a header, a payload and more bytes is decoded to that payload. */
  lemma DecodePlain(header: bytes, opcode: nat, data: bytes, rest: bytes)
    requires var s := header + (data + rest);
             |header| >= 2 && HeaderOf(s) == Header(opcode, false, |header| - 2) && PayloadLength(s) == |data|
    ensures Decode(header + data + rest) == Some((Message(opcode, data), rest))
  {
    var s, n := header + data + rest, |header|;
    assert header + (data + rest) == s;
    assert s[n..n + |data|] == data;
    assert s[n + |data|..] == rest;
  }

  lemma DecodeMasked(header: bytes, opcode: nat, m: Mask, body: bytes, rest: bytes)
    requires var s := header + (m + body + rest);
             |header| >= 2 && HeaderOf(s) == Header(opcode, true, |header| - 2) && PayloadLength(s) == |body|
    ensures Decode(header + m + body + rest) == Some((Message(opcode, Masked(body, m)), rest))
  {
    var s, n := header + m + body + rest, |header|;
    assert header + (m + body + rest) == s;
    assert s[n..n + 4] == m;
    assert s[n + 4..n + 4 + |body|] == body;
    assert s[n + 4 + |body|..] == rest;
  }

  /** Decoding gives back what was encoded: for every length, with any mask or none. */
  lemma RoundTrip(opcode: nat, mask: Option<Mask>, data: bytes, rest: bytes)
    requires opcode < 16 && |data| < MAX_PAYLOAD
    ensures Decode(Encode(opcode, mask, data) + rest) == Some((Message(opcode, data), rest))
  {
    var (bits, ext) := LengthBytes(|data|);
    match mask
    case None =>
      HeaderRoundTrip(opcode, false, |data|, data + rest);
      DecodePlain([128 + opcode, 0 + bits] + ext, opcode, data, rest);
    case Some(m) =>
      HeaderRoundTrip(opcode, true, |data|, m + Masked(data, m) + rest);
      DecodeMasked([128 + opcode, 128 + bits] + ext, opcode, m, Masked(data, m), rest);
      MaskedTwice(data, m);
  }

  /** The four flags in front of the opcode make no difference to the reader. */
  lemma FlagsArePassedOver(flags: nat, opcode: nat, s: bytes)
    requires flags < 16 && opcode < 16
    ensures Decode([16 * flags + opcode] + s) == Decode([opcode] + s)
  {
    var x, y := [16 * flags + opcode] + s, [opcode] + s;
    assert x[1..] == s == y[1..];
    SameTail(x, y);
  }

  lemma SameTail(x: bytes, y: bytes)
    requires |x| == |y| > 0 && x[0] % 16 == y[0] % 16 && x[1..] == y[1..]
    ensures Decode(x) == Decode(y)
  {
    assert forall i :: 1 <= i < |x| ==> x[i] == x[1..][i - 1] && y[i] == y[1..][i - 1];
    SameSlices(x, y);
    if |x| >= 2 {
      assert x[1] == x[1..][0] && y[1] == y[1..][0];
      assert HeaderOf(x) == HeaderOf(y);
      if HasHeader(x) {
        assert x[2..HeaderOf(x).Size()] == y[2..HeaderOf(x).Size()];
        assert Start(x) == Start(y) && End(x) == End(y);
        if Complete(x) {
          assert x[Start(x)..End(x)] == y[Start(x)..End(x)];
          assert HeaderOf(x).masked ==> x[HeaderOf(x).Size()..Start(x)] == y[HeaderOf(x).Size()..Start(x)];
          assert x[End(x)..] == x[End(x)..|x|] && y[End(x)..] == y[End(x)..|x|];
        }
      }
    }
  }

  lemma SameSlices(x: bytes, y: bytes)
    requires |x| == |y| && forall i :: 1 <= i < |x| ==> x[i] == y[i]
    ensures forall i, j :: 1 <= i <= j <= |x| ==> x[i..j] == y[i..j]
  {
  }

  // ----- Whole streams -----

  /** All complete frames of a stream, and the bytes of the frame that is still incomplete. */
  function DecodeAll(s: bytes): (seq<Message>, bytes)
    decreases |s|, 1
  {
    DecodeOn(s)
  }

  function DecodeOn(s: bytes): (seq<Message>, bytes)
    decreases |s|, 0
  {
    match Decode(s)
    case None => ([], s)
    case Some((m, rest)) => ([m] + DecodeAll(rest).0, DecodeAll(rest).1)
  }

  lemma DecodeAllStep(s: bytes, m: Message, rest: bytes)
    requires Decode(s) == Some((m, rest))
    ensures DecodeAll(s) == ([m] + DecodeAll(rest).0, DecodeAll(rest).1)
  {
  }

  /** Interrupting the stream anywhere changes nothing: the frames of the first part come
      first, and its incomplete tail is completed by what arrives later. */
  lemma {:induction false} ArrivalInParts(s: bytes, more: bytes)
    ensures DecodeAll(s + more).0 == DecodeAll(s).0 + DecodeAll(DecodeAll(s).1 + more).0
    ensures DecodeAll(s + more).1 == DecodeAll(DecodeAll(s).1 + more).1
    decreases |s|
  {
    if Complete(s) {
      var rest := s[End(s)..];
      DecodeIsStable(s, more);
      DecodeAllStep(s, MessageOf(s), rest);
      DecodeAllStep(s + more, MessageOf(s), rest + more);
      ArrivalInParts(rest, more);
      Regroup([MessageOf(s)], DecodeAll(rest).0, DecodeAll(DecodeAll(rest).1 + more).0);
    }
  }

  /** What `send_text` puts on the wire for a list of payloads. */
  function SendAll(payloads: seq<bytes>): bytes
    requires forall p :: p in payloads ==> |p| < MAX_PAYLOAD
  {
    if payloads == [] then []
    else Encode(1, Some([0, 0, 0, 0]), payloads[0]) + SendAll(payloads[1..])
  }

  function TextMessages(payloads: seq<bytes>): seq<Message> {
    if payloads == [] then [] else [Message(1, payloads[0])] + TextMessages(payloads[1..])
  }

  /** The first frame of what is sent, and the rest. */
  lemma FirstSent(payloads: seq<bytes>, tail: bytes)
    requires forall p :: p in payloads ==> |p| < MAX_PAYLOAD
    requires payloads != []
    ensures Decode(SendAll(payloads) + tail) == Some((Message(1, payloads[0]), SendAll(payloads[1..]) + tail))
  {
    var first, others := Encode(1, Some([0, 0, 0, 0]), payloads[0]), SendAll(payloads[1..]);
    RoundTrip(1, Some([0, 0, 0, 0]), payloads[0], others + tail);
    assert first + (others + tail) == first + others + tail;
  }

  /** Everything sent is received, in order, as text frames, with nothing left over. */
  lemma {:induction false} SentIsReceived(payloads: seq<bytes>, tail: bytes)
    requires forall p :: p in payloads ==> |p| < MAX_PAYLOAD
    ensures DecodeAll(SendAll(payloads) + tail).0 == TextMessages(payloads) + DecodeAll(tail).0
    ensures DecodeAll(SendAll(payloads) + tail).1 == DecodeAll(tail).1
  {
    if payloads == [] {
      assert SendAll(payloads) + tail == tail;
    } else {
      FirstSent(payloads, tail);
      DecodeAllStep(SendAll(payloads) + tail, Message(1, payloads[0]), SendAll(payloads[1..]) + tail);
      SentIsReceived(payloads[1..], tail);
      Regroup([Message(1, payloads[0])], TextMessages(payloads[1..]), DecodeAll(tail).0);
    }
  }

  // ----- The exact-read twin -----

  /** The first frame as `recv_frame` of webview-bridge.py takes it: the mask bit is read
      but never acted on. */
  function DecodeUnmasked(s: bytes): Option<(Message, bytes)> {
    if !HasHeader(s) then None
    else
      var start := HeaderOf(s).Size();
      var end := start + PayloadLength(s);
      if |s| < end then None else Some((Message(HeaderOf(s).opcode, s[start..end]), s[end..]))
  }

  /** The two decoders agree on a complete frame exactly if it is not masked. */
  lemma TwinsAgreeIff(s: bytes)
    requires Decode(s).Some?
    ensures DecodeUnmasked(s) == Decode(s) <==> !HeaderOf(s).masked
  {
    var end := HeaderOf(s).Size() + PayloadLength(s);
    assert End(s) == end + if HeaderOf(s).masked then 4 else 0;
    assert |s[end..]| == |s| - end && |s[End(s)..]| == |s| - End(s);
  }

  /** A masked frame of the twin: its mask is taken for the beginning of the payload. */
  lemma MaskIsNotSeen(opcode: nat, mask: Mask, data: bytes, rest: bytes)
    requires opcode < 16 && |data| < MAX_PAYLOAD
    ensures DecodeUnmasked(Encode(opcode, Some(mask), data) + rest)
         == Some((Message(opcode, (mask + Masked(data, mask))[..|data|]),
                  (mask + Masked(data, mask) + rest)[|data|..]))
  {
    var (bits, ext) := LengthBytes(|data|);
    var behind := mask + Masked(data, mask) + rest;
    HeaderRoundTrip(opcode, true, |data|, behind);
    RawPayload([128 + opcode, 128 + bits] + ext, opcode, mask + Masked(data, mask), rest, |data|);
    var header := [128 + opcode, 128 + bits] + ext;
    Regroup(header, mask, Masked(data, mask));
    Regroup(header, mask + Masked(data, mask), rest);
  }

  lemma RawPayload(header: bytes, opcode: nat, behind: bytes, rest: bytes, n: nat)
    requires n <= |behind| && |header| >= 2
    requires var s := header + (behind + rest);
             HeaderOf(s).opcode == opcode && HeaderOf(s).Size() == |header| && PayloadLength(s) == n
    ensures DecodeUnmasked(header + (behind + rest)) == Some((Message(opcode, behind[..n]), (behind + rest)[n..]))
  {
    var s, k := header + (behind + rest), |header|;
    assert s[k..k + n] == behind[..n];
    assert s[k + n..] == (behind + rest)[n..];
  }

  function DecodeAllUnmasked(s: bytes): (seq<Message>, bytes)
    decreases |s|, 1
  {
    DecodeOnUnmasked(s)
  }

  function DecodeOnUnmasked(s: bytes): (seq<Message>, bytes)
    decreases |s|, 0
  {
    match DecodeUnmasked(s)
    case None => ([], s)
    case Some((m, rest)) => ([m] + DecodeAllUnmasked(rest).0, DecodeAllUnmasked(rest).1)
  }

  /** No frame of the stream is masked, not even an incomplete last one. */
  predicate NoneMasked(s: bytes)
    decreases |s|
  {
    |s| >= 2 ==> !HeaderOf(s).masked && (Complete(s) ==> NoneMasked(s[End(s)..]))
  }

  lemma {:induction false} TwinsAgree(s: bytes)
    requires NoneMasked(s)
    ensures DecodeAllUnmasked(s) == DecodeAll(s)
    decreases |s|
  {
    if Complete(s) {
      TwinsAgreeIff(s);
      TwinsAgree(s[End(s)..]);
    }
  }
}
