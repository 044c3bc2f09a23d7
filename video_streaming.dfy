/** The UDP video stream (assignment-4-udp-video-streaming): the server cuts each
    encoded frame into datagrams of at most `ChunkSize` bytes behind a one-byte marker
    that is 1 on the last datagram of the frame; the client appends every datagram's
    body to a buffer and hands the buffer on as a frame when the marker is 1. Capture,
    JPEG coding, display and pacing are left out: a frame is its encoded bytes. */
module VideoStreaming {
  import opened Wire

  const ChunkSize: nat := 65500
  /** The client's `recvfrom` size. */
  const BufferSize: nat := 65536

  // ---------------------------------------------------------------------------
  // Server: chunking a frame

  /** `data_size // CHUNK_SIZE + 1`. */
  function NumChunks(dataSize: nat): (k: nat)
    ensures k >= 1
    ensures (k - 1) * ChunkSize <= dataSize < k * ChunkSize
  {
    dataSize / ChunkSize + 1
  }

  /** A Python slice bound: an index past the end stands for the end. */
  function Clamp(i: nat, n: nat): (j: nat)
    ensures j <= n && j <= i
    ensures i <= n ==> j == i
  {
    if i <= n then i else n
  }

  /** `data[i * CHUNK_SIZE : i * CHUNK_SIZE + CHUNK_SIZE]`. */
  function ChunkOf(data: seq<byte>, i: nat): (c: seq<byte>)
    ensures |c| <= ChunkSize
  {
    data[Clamp(i * ChunkSize, |data|)..Clamp(i * ChunkSize + ChunkSize, |data|)]
  }

  /** `1 if i == num_chunks - 1 else 0`. */
  function Marker(i: nat, numChunks: nat): (m: byte)
    ensures m == 1 <==> i + 1 == numChunks
    ensures m == 0 || m == 1
  {
    if i + 1 == numChunks then 1 else 0
  }

  /** The datagram for chunk `i`: `struct.pack('!B', marker) + chunk`. */
  function Message(data: seq<byte>, i: nat): (m: seq<byte>)
  {
    [Marker(i, NumChunks(|data|))] + ChunkOf(data, i)
  }

  /** The datagrams the inner loop of `main` sends for one frame, in order. */
  function Chunks(data: seq<byte>): (ms: seq<seq<byte>>)
    ensures |ms| == NumChunks(|data|)
    ensures forall i :: 0 <= i < |ms| ==> ms[i] == Message(data, i)
  {
    seq(NumChunks(|data|), i requires 0 <= i => Message(data, i))
  }

  /** The loop `for i in range(num_chunks)` with the datagrams it sends collected in
      order. */
  method SendFrame(data: seq<byte>) returns (sent: seq<seq<byte>>)
    ensures sent == Chunks(data)
  {
    var numChunks := |data| / ChunkSize + 1;
    sent := [];
    for i := 0 to numChunks
      invariant |sent| == i
      invariant forall j :: 0 <= j < i ==> sent[j] == Message(data, j)
    {
      var start := i * ChunkSize;
      var end := start + ChunkSize;
      var chunk := data[Clamp(start, |data|)..Clamp(end, |data|)];
      var marker: byte := if i == numChunks - 1 then 1 else 0;
      sent := sent + [[marker] + chunk];
    }
  }

  /** Every datagram is a marker byte and at most `ChunkSize` bytes of the frame, and so
      fits the client's receive size. */
  lemma MessagesFit(data: seq<byte>)
    ensures forall i :: 0 <= i < |Chunks(data)| ==>
              1 <= |Chunks(data)[i]| <= ChunkSize + 1 <= BufferSize
  {
  }

  /** The marker is 1 on the last datagram and 0 on every other one. */
  lemma MarkersMarkLast(data: seq<byte>)
    ensures var ms := Chunks(data);
            ms[|ms| - 1][0] == 1 &&
            forall i :: 0 <= i < |ms| - 1 ==> ms[i][0] == 0
  {
  }

  /** When the frame's size is a multiple of `ChunkSize`, zero included, the last
      datagram is the marker alone. */
  lemma ExactMultipleEndsWithBareMarker(data: seq<byte>)
    requires |data| % ChunkSize == 0
    ensures Chunks(data)[|Chunks(data)| - 1] == [1]
  {
    var k := NumChunks(|data|);
    assert (k - 1) * ChunkSize == |data|;
  }

  /** Every datagram but the last carries a full chunk. */
  lemma FullChunksBeforeLast(data: seq<byte>, i: nat)
    requires i + 1 < NumChunks(|data|)
    ensures |ChunkOf(data, i)| == ChunkSize
  {
    var k := NumChunks(|data|);
    assert i * ChunkSize + ChunkSize <= (k - 1) * ChunkSize;
  }

  // ---------------------------------------------------------------------------
  // Concatenation

  function Concat(ss: seq<seq<byte>>): (s: seq<byte>)
  {
    if |ss| == 0 then [] else ss[0] + Concat(ss[1..])
  }

  lemma {:induction false} ConcatAppend(ss: seq<seq<byte>>, t: seq<byte>)
    ensures Concat(ss + [t]) == Concat(ss) + t
    decreases |ss|
  {
    if |ss| == 0 {
      assert ss + [t] == [t];
      assert [t][1..] == [];
    } else {
      assert (ss + [t])[1..] == ss[1..] + [t];
      ConcatAppend(ss[1..], t);
    }
  }

  lemma {:induction false} ConcatOfConcat(ss: seq<seq<byte>>, ts: seq<seq<byte>>)
    ensures Concat(ss + ts) == Concat(ss) + Concat(ts)
    decreases |ss|
  {
    if |ss| == 0 {
      assert ss + ts == ts;
    } else {
      assert (ss + ts)[1..] == ss[1..] + ts;
      ConcatOfConcat(ss[1..], ts);
    }
  }

  /** The bodies of the datagrams, without their marker bytes. */
  function Bodies(ms: seq<seq<byte>>): (bs: seq<seq<byte>>)
    requires forall i :: 0 <= i < |ms| ==> |ms[i]| >= 1
    ensures |bs| == |ms|
    ensures forall i :: 0 <= i < |ms| ==> bs[i] == ms[i][1..]
  {
    seq(|ms|, i requires 0 <= i < |ms| => ms[i][1..])
  }

  /** The first `m` chunks, in order, are the frame up to byte `m * ChunkSize`. */
  lemma {:induction false} ChunkPrefix(data: seq<byte>, m: nat)
    requires m <= NumChunks(|data|)
    ensures Concat(Bodies(Chunks(data))[..m]) == data[..Clamp(m * ChunkSize, |data|)]
  {
    var bs := Bodies(Chunks(data));
    if m == 0 {
      assert bs[..0] == [];
    } else {
      ChunkPrefix(data, m - 1);
      assert bs[..m] == bs[..m - 1] + [bs[m - 1]];
      ConcatAppend(bs[..m - 1], bs[m - 1]);
      assert bs[m - 1] == ChunkOf(data, m - 1);
      var a := Clamp((m - 1) * ChunkSize, |data|);
      var b := Clamp(m * ChunkSize, |data|);
      assert (m - 1) * ChunkSize + ChunkSize == m * ChunkSize;
      assert data[..a] + data[a..b] == data[..b];
    }
  }

  /** The chunk bodies, concatenated in order, are exactly the frame. */
  lemma ChunksCoverFrame(data: seq<byte>)
    ensures Concat(Bodies(Chunks(data))) == data
  {
    var k := NumChunks(|data|);
    ChunkPrefix(data, k);
    assert Bodies(Chunks(data))[..k] == Bodies(Chunks(data));
    assert Clamp(k * ChunkSize, |data|) == |data|;
  }

  // ---------------------------------------------------------------------------
  // Client: reassembly

  /** What the client has: the bytes of the frame in progress, and the frames it has
      handed to the decoder so far. */
  datatype Receiver = Receiver(frameBuffer: seq<byte>, frames: seq<seq<byte>>)

  /** One iteration of the client's loop on a received datagram: an empty datagram is
      skipped; otherwise the body is appended, and a first byte of 1 completes the frame
      and empties the buffer (whether or not the frame then decodes). */
  function Receive(r: Receiver, packet: seq<byte>): (r': Receiver)
    ensures |packet| == 0 ==> r' == r
    ensures |packet| > 0 && packet[0] == 1 ==>
              r' == Receiver([], r.frames + [r.frameBuffer + packet[1..]])
    ensures |packet| > 0 && packet[0] != 1 ==>
              r' == Receiver(r.frameBuffer + packet[1..], r.frames)
  {
    if |packet| == 0 then r
    else
      var buffer := r.frameBuffer + packet[1..];
      if packet[0] == 1 then Receiver([], r.frames + [buffer])
      else Receiver(buffer, r.frames)
  }

  /** The client's loop over a sequence of datagrams, as a fold. */
  function ReceiveAll(r: Receiver, packets: seq<seq<byte>>): Receiver
    decreases |packets|
  {
    if |packets| == 0 then r else ReceiveAll(Receive(r, packets[0]), packets[1..])
  }

  /** The client's `while True` loop, run over the datagrams that arrive. */
  method Reassemble(packets: seq<seq<byte>>) returns (frameBuffer: seq<byte>, frames: seq<seq<byte>>)
    ensures Receiver(frameBuffer, frames) == ReceiveAll(Receiver([], []), packets)
  {
    frameBuffer := [];
    frames := [];
    var i := 0;
    while i < |packets|
      invariant 0 <= i <= |packets|
      invariant ReceiveAll(Receiver(frameBuffer, frames), packets[i..]) == ReceiveAll(Receiver([], []), packets)
    {
      var packet := packets[i];
      assert packets[i..][1..] == packets[i + 1..];
      i := i + 1;
      if |packet| == 0 {
        continue;
      }
      var header := packet[0];
      frameBuffer := frameBuffer + packet[1..];
      if header == 1 {
        frames := frames + [frameBuffer];
        frameBuffer := [];
      }
    }
  }

  lemma {:induction false} ReceiveAllAppend(r: Receiver, ps: seq<seq<byte>>, qs: seq<seq<byte>>)
    ensures ReceiveAll(r, ps + qs) == ReceiveAll(ReceiveAll(r, ps), qs)
    decreases |ps|
  {
    if |ps| == 0 {
      assert ps + qs == qs;
    } else {
      assert (ps + qs)[1..] == ps[1..] + qs;
      ReceiveAllAppend(Receive(r, ps[0]), ps[1..], qs);
    }
  }

  /** Datagrams that are not empty and whose marker is not 1 only add their bodies to
      the buffer. */
  lemma {:induction false} Continuations(r: Receiver, ps: seq<seq<byte>>)
    requires forall i :: 0 <= i < |ps| ==> |ps[i]| >= 1 && ps[i][0] != 1
    ensures ReceiveAll(r, ps) == Receiver(r.frameBuffer + Concat(Bodies(ps)), r.frames)
    decreases |ps|
  {
    if |ps| == 0 {
      assert r.frameBuffer + [] == r.frameBuffer;
    } else {
      Continuations(Receive(r, ps[0]), ps[1..]);
      assert Bodies(ps)[1..] == Bodies(ps[1..]);
      assert r.frameBuffer + ps[0][1..] + Concat(Bodies(ps[1..])) ==
             r.frameBuffer + (ps[0][1..] + Concat(Bodies(ps[1..])));
    }
  }

  /** A run of continuation datagrams closed by one with marker 1 completes one frame:
      the buffer followed by all the bodies. */
  lemma CompletedFrame(r: Receiver, ms: seq<seq<byte>>)
    requires |ms| >= 1 && forall i :: 0 <= i < |ms| ==> |ms[i]| >= 1
    requires forall i :: 0 <= i < |ms| - 1 ==> ms[i][0] != 1
    requires ms[|ms| - 1][0] == 1
    ensures ReceiveAll(r, ms) == Receiver([], r.frames + [r.frameBuffer + Concat(Bodies(ms))])
  {
    var k := |ms|;
    var init := ms[..k - 1];
    var last := ms[k - 1];
    assert ms == init + [last];
    Continuations(r, init);
    var mid := ReceiveAll(r, init);
    ReceiveAllAppend(r, init, [last]);
    assert ReceiveAll(mid, [last]) == Receive(mid, last) by {
      var none: seq<seq<byte>> := [];
      assert [last][1..] == none;
    }
    var bs := Bodies(ms);
    assert Bodies(init) == bs[..k - 1];
    assert bs == bs[..k - 1] + [bs[k - 1]];
    ConcatAppend(bs[..k - 1], bs[k - 1]);
    assert mid == Receiver(r.frameBuffer + Concat(bs[..k - 1]), r.frames);
    assert last[1..] == bs[k - 1];
    assert r.frameBuffer + Concat(bs[..k - 1]) + bs[k - 1] == r.frameBuffer + Concat(bs);
  }

  /** Round trip: the datagrams of one frame, received in order, complete exactly that
      frame (behind whatever the buffer already held) and leave the buffer empty. */
  lemma FrameRoundTrip(r: Receiver, data: seq<byte>)
    ensures ReceiveAll(r, Chunks(data)) == Receiver([], r.frames + [r.frameBuffer + data])
  {
    MarkersMarkLast(data);
    MessagesFit(data);
    CompletedFrame(r, Chunks(data));
    ChunksCoverFrame(data);
  }

  /** The datagrams a sequence of frames is sent as. */
  function Stream(frames: seq<seq<byte>>): seq<seq<byte>>
    decreases |frames|
  {
    if |frames| == 0 then [] else Chunks(frames[0]) + Stream(frames[1..])
  }

  /** A client that starts with an empty buffer and receives a whole stream, in order
      and without loss, ends with exactly the frames sent and an empty buffer. */
  lemma {:induction false} StreamRoundTrip(frames: seq<seq<byte>>, done: seq<seq<byte>>)
    ensures ReceiveAll(Receiver([], done), Stream(frames)) == Receiver([], done + frames)
    decreases |frames|
  {
    if |frames| == 0 {
      assert done + frames == done;
    } else {
      ReceiveAllAppend(Receiver([], done), Chunks(frames[0]), Stream(frames[1..]));
      FrameRoundTrip(Receiver([], done), frames[0]);
      assert [] + frames[0] == frames[0];
      StreamRoundTrip(frames[1..], done + [frames[0]]);
      assert done + [frames[0]] + frames[1..] == done + frames;
    }
  }
}
