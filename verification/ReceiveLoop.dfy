/** The main loop of rx/main.c, from the bytes of the link to the packets on the socket. */
module ReceiveLoop {
  import opened Bytes
  import opened ChunkWire
  import opened ChunkStream
  import opened Receiver
  import opened Forwarding
  import opened Losses
  import ClockSync
  import ClockBounds

  function Videos(cs: seq<Chunk>): seq<Chunk> {
    if cs == [] then []
    else Videos(cs[..|cs| - 1]) + if cs[|cs| - 1].hdr.codec == CODEC_H265 then [cs[|cs| - 1]] else []
  }

  lemma VideosSnoc(cs: seq<Chunk>, c: Chunk)
    ensures Videos(cs + [c]) == Videos(cs) + if c.hdr.codec == CODEC_H265 then [c] else []
  {
    assert (cs + [c])[..|cs|] == cs;
  }

  predicate AllWhole(frames: seq<seq<byte>>) {
    forall i :: 0 <= i < |frames| ==> |frames[i]| >= HDR_SIZE
  }

  /** The video chunks among those the stream has handed out. */
  ghost predicate Took(input: seq<Arrival>, returned: seq<seq<byte>>) {
    AllWhole(returned) && ChunksOf(input) == Videos(DecodeAll(returned))
  }

  lemma TookOne(input: seq<Arrival>, before: seq<seq<byte>>, after: seq<seq<byte>>, h: Hdr, payload: seq<byte>,
                t: Clock)
    requires Took(input, before) && HandedOut(before, after, h, payload)
    ensures var c := Chunk(h, payload[..h.payloadLen]);
      Took(if h.codec == CODEC_H265 then input + [Arrival(c, t)] else input, after)
  {
    hide Decode;
    var n := |before|;
    var c := Chunk(h, payload[..h.payloadLen]);
    assert after == before + [after[n]];
    assert DecodeAll(after) == DecodeAll(before) + [c];
    VideosSnoc(DecodeAll(before), c);
    assert ChunksOf(input + [Arrival(c, t)]) == ChunksOf(input) + [c];
  }

  lemma AllCallsSnoc(input: seq<Arrival>, cap: nat, wantSei: bool, a: Arrival)
    ensures var (rx, calls) := AllCalls(input, cap, wantSei);
      var (rx', more) := Receive(rx, cap, wantSei, a.chunk, a.clock);
      AllCalls(input + [a], cap, wantSei) == (rx', calls + more)
  {
    hide Receive;
    assert (input + [a])[..|input|] == input;
  }

  /** What the clock says when these replies have come in. */
  ghost predicate Knows(t: Clock, replies: seq<ClockSync.Reply>) {
    var window := ClockSync.OnReplies(ClockSync.INITIAL, replies).window;
    && (t.mapping.Some? <==> window != [])
    && (t.mapping.Some? ==> ClockSync.IsEstimate(window, t.mapping.value.offsetUs, t.mapping.value.uncertaintyUs))
  }

  /** Chunk i came in behind the first heard[i] replies. */
  ghost predicate Heard(input: seq<Arrival>, replies: seq<ClockSync.Reply>, heard: seq<nat>) {
    && |heard| == |input|
    && forall i :: 0 <= i < |input| ==> heard[i] <= |replies| && Knows(input[i].clock, replies[..heard[i]])
  }

  lemma HeardReply(input: seq<Arrival>, replies: seq<ClockSync.Reply>, heard: seq<nat>, r: ClockSync.Reply)
    requires Heard(input, replies, heard)
    ensures Heard(input, replies + [r], heard)
  {
    hide Knows;
    forall i | 0 <= i < |input|
      ensures heard[i] <= |replies + [r]| && Knows(input[i].clock, (replies + [r])[..heard[i]])
    {
      assert (replies + [r])[..heard[i]] == replies[..heard[i]];
    }
  }

  lemma HeardChunk(input: seq<Arrival>, replies: seq<ClockSync.Reply>, heard: seq<nat>, a: Arrival)
    requires Heard(input, replies, heard) && Knows(a.clock, replies)
    ensures Heard(input + [a], replies, heard + [|replies|])
  {
    hide Knows;
    assert replies[..|replies|] == replies;
  }

  /** The replies that the control chunks among these hold, in order. said[i] is the reply chunk i holds, if any. */
  function Replied(cs: seq<Chunk>, said: seq<Option<ClockSync.Reply>>): seq<ClockSync.Reply>
    requires |cs| == |said|
  {
    if cs == [] then []
    else
      var n := |cs| - 1;
      Replied(cs[..n], said[..n]) + if cs[n].hdr.codec == CODEC_CTRL && said[n].Some? then [said[n].value] else []
  }

  /** These are the replies in the chunks that the stream has handed out. */
  ghost predicate Answered(replies: seq<ClockSync.Reply>, said: seq<Option<ClockSync.Reply>>, returned: seq<seq<byte>>)
  {
    AllWhole(returned) && |said| == |returned| && replies == Replied(DecodeAll(returned), said)
  }

  /** What the next chunk adds to them. */
  function ReplyIn(c: Chunk, reply: Option<ClockSync.Reply>): seq<ClockSync.Reply> {
    if c.hdr.codec == CODEC_CTRL && reply.Some? then [reply.value] else []
  }

  lemma AnsweredOne(replies: seq<ClockSync.Reply>, said: seq<Option<ClockSync.Reply>>, before: seq<seq<byte>>,
                    after: seq<seq<byte>>, h: Hdr, payload: seq<byte>, reply: Option<ClockSync.Reply>)
    requires Answered(replies, said, before) && HandedOut(before, after, h, payload)
    ensures Answered(replies + ReplyIn(Chunk(h, payload[..h.payloadLen]), reply), said + [reply], after)
  {
    hide Decode;
    var n := |before|;
    var c := Chunk(h, payload[..h.payloadLen]);
    assert after == before + [after[n]];
    assert DecodeAll(after) == DecodeAll(before) + [c];
    assert (DecodeAll(before) + [c])[..n] == DecodeAll(before) && (said + [reply])[..n] == said;
  }

  lemma ReturnedOne(before: seq<seq<byte>>, after: seq<seq<byte>>, h: Hdr, payload: seq<byte>)
    requires HandedOut(before, after, h, payload)
    ensures |after| == |before| + 1 && before <= after && |after[|before|]| >= HDR_SIZE
    ensures Decode(after[|before|]) == Chunk(h, payload[..h.payloadLen])
  {
    hide Decode;
  }

  /** This chunk has come in, at the time that the clock shows. */
  predicate OneMore(before: seq<Arrival>, after: seq<Arrival>, c: Chunk, nowUs: u64, encodeUs: u32) {
    && |after| == |before| + 1 && before <= after && after[|before|].chunk == c
    && after[|before|].clock.rxDoneUs == nowUs && after[|before|].clock.encodeUs == encodeUs
  }

  class Loop {
    const stream: Stream
    const rx: VideoReceiver
    const payloadBuf: array<byte>

    /** All video chunks taken off the stream, all calls made, and how the socket was at the start. */
    ghost var input: seq<Arrival>
    ghost var calls: seq<Call>
    /** All replies taken, and how many of them had come in before each video chunk. */
    ghost var replies: seq<ClockSync.Reply>
    /** The reply in each chunk handed out, if it were a control chunk. */
    ghost var said: seq<Option<ClockSync.Reply>>
    ghost var heard: seq<nat>
    ghost const packets0: seq<seq<byte>>
    ghost const seq0: u16

    ghost predicate Valid()
      reads this, stream, stream.buf, rx, rx.reasm, rx.reasm.buf, rx.sync, rx.sync.samples, rx.rtp, rx.rtp.socket
    {
      && stream.Valid() && rx.Valid()
      && payloadBuf.Length == MAX_PAYLOAD
      && payloadBuf != stream.buf && payloadBuf != rx.reasm.buf && stream.buf != rx.reasm.buf
      && Took(input, stream.returned)
      && (rx.Abs(), calls) == AllCalls(input, rx.reasm.buf.Length, rx.wantSei)
      && rx.SentSince(packets0, seq0, calls)
      && rx.sync.Abstract() == ClockSync.OnReplies(ClockSync.INITIAL, replies)
      && Heard(input, replies, heard) && Answered(replies, said, stream.returned)
    }

    constructor (stream: Stream, rx: VideoReceiver, payloadBuf: array<byte>)
      requires stream.Valid() && rx.Valid() && rx.Abs() == RX_INITIAL && stream.returned == []
      requires payloadBuf.Length == MAX_PAYLOAD && payloadBuf != stream.buf && payloadBuf != rx.reasm.buf
      requires stream.buf != rx.reasm.buf && rx.sync.Abstract() == ClockSync.INITIAL
      ensures Valid() && this.stream == stream && this.rx == rx && input == []
    {
      this.stream, this.rx, this.payloadBuf := stream, rx, payloadBuf;
      input, calls, packets0, seq0 := [], [], rx.rtp.socket.packets, rx.rtp.seqNo;
      replies, heard, said := [], [], [];
      CallPacketsNone(rx.rtp.seqNo, rx.rtp.ssrc, rx.rtp.maxPayload);
    }

    /**
     One turn. reply is what a control chunk says, if it says anything: its text is not part of
     this model.
     */
    method Turn(nowUs: u64, encodeUs: u32, reply: Option<ClockSync.Reply>) returns (ret: int)
      requires Valid()
      requires reply.Some? ==> ClockSync.InRange(reply.value)
      modifies this`input, this`calls, this`replies, this`heard, this`said, payloadBuf, stream, stream.link, stream.buf,
               rx, rx.reasm, rx.reasm.buf, rx.sync, rx.sync.samples, rx.rtp`seqNo, rx.rtp.socket
      ensures Valid() && stream.link == old(stream.link) && (ret == 0 || ret == 1)
      ensures old(stream.stream) <= stream.stream
      ensures ret == 1 <==> |stream.returned| == |old(stream.returned)| + 1
      ensures ret == 0 ==> stream.returned == old(stream.returned) && replies == old(replies) && input == old(input)
      ensures ret == 1 ==> old(stream.returned) <= stream.returned && said == old(said) + [reply]
      ensures ret == 1 ==>
                var c := Decode(stream.returned[|old(stream.returned)|]);
                && replies == old(replies) + (if c.hdr.codec == CODEC_CTRL && reply.Some? then [reply.value] else [])
                && if c.hdr.codec == CODEC_H265 then OneMore(old(input), input, c, nowUs, encodeUs)
                   else input == old(input)
      ensures old(heard) <= heard
      ensures ret == 0 && !stream.link.stopSeen ==>
                AllHandedOut(stream.stream, stream.returned, stream.checksumFails, stream.Window())
    {
      hide AllHandedOut, HandedOut, Took, AllCalls, CallPackets, Agrees, Receive, Heard, Answered, Decode;
      hide ClockSync.OnReplies, ClockSync.OnReply, ClockSync.Sync.Valid;
      ghost var before := stream.returned;
      var h;
      ret, h := stream.Read(payloadBuf);
      if ret <= 0 {
        return;
      }
      ReturnedOne(before, stream.returned, h, payloadBuf[..]);
      Dispatch(h, nowUs, encodeUs, reply, before);
    }

    /** The loop behind a chunk that the stream has handed out: where it goes depends on its codec. */
    method Dispatch(h: Hdr, nowUs: u64, encodeUs: u32, reply: Option<ClockSync.Reply>, ghost before: seq<seq<byte>>)
      requires stream.Valid() && rx.Valid()
      requires payloadBuf.Length == MAX_PAYLOAD
      requires payloadBuf != stream.buf && payloadBuf != rx.reasm.buf && stream.buf != rx.reasm.buf
      requires Took(input, before) && Answered(replies, said, before)
      requires HandedOut(before, stream.returned, h, payloadBuf[..])
      requires (rx.Abs(), calls) == AllCalls(input, rx.reasm.buf.Length, rx.wantSei)
      requires rx.SentSince(packets0, seq0, calls) && Heard(input, replies, heard)
      requires rx.sync.Abstract() == ClockSync.OnReplies(ClockSync.INITIAL, replies)
      requires reply.Some? ==> ClockSync.InRange(reply.value)
      modifies this`input, this`calls, this`replies, this`heard, this`said,
               rx, rx.reasm, rx.reasm.buf, rx.sync, rx.sync.samples, rx.rtp`seqNo, rx.rtp.socket
      ensures Valid() && said == old(said) + [reply] && old(heard) <= heard
      ensures replies == old(replies) + (if h.codec == CODEC_CTRL && reply.Some? then [reply.value] else [])
      ensures if h.codec == CODEC_H265
              then OneMore(old(input), input, Chunk(h, old(payloadBuf[..h.payloadLen])), nowUs, encodeUs)
              else input == old(input)
    {
      hide AllHandedOut, HandedOut, Took, AllCalls, CallPackets, Agrees, Receive, Heard, Answered, Decode;
      hide ClockSync.OnReplies, ClockSync.OnReply, ClockSync.Sync.Valid;
      ghost var c := Chunk(h, payloadBuf[..h.payloadLen]);
      ghost var any := rx.AnyClock(nowUs, encodeUs);
      TookOne(input, before, stream.returned, h, payloadBuf[..], any);
      AnsweredOne(replies, said, before, stream.returned, h, payloadBuf[..], reply);
      assert replies + [] == replies;
      said := said + [reply];
      if h.codec == CODEC_CTRL {
        if reply.Some? {
          TakeReply(reply.value);
        }
      } else if h.codec == CODEC_H265 {
        TakeVideo(h, nowUs, encodeUs, before);
      }
    }

    method TakeReply(r: ClockSync.Reply)
      requires rx.Valid() && ClockSync.InRange(r) && Heard(input, replies, heard)
      requires rx.sync.Abstract() == ClockSync.OnReplies(ClockSync.INITIAL, replies)
      modifies this`replies, rx.sync, rx.sync.samples
      ensures rx.Valid() && Heard(input, replies, heard) && replies == old(replies) + [r]
      ensures rx.sync.Abstract() == ClockSync.OnReplies(ClockSync.INITIAL, replies)
    {
      hide Heard, ClockSync.OnReplies, ClockSync.OnReply, ClockSync.Sync.Valid;
      ClockBounds.RunSnoc(ClockSync.INITIAL, replies, r);
      HeardReply(input, replies, heard, r);
      rx.sync.ReplyArrived(r);
      replies := replies + [r];
    }

    method TakeVideo(h: Hdr, nowUs: u64, encodeUs: u32, ghost before: seq<seq<byte>>)
      requires stream.Valid() && rx.Valid()
      requires payloadBuf.Length == MAX_PAYLOAD
      requires payloadBuf != stream.buf && payloadBuf != rx.reasm.buf && stream.buf != rx.reasm.buf
      requires Took(input, before) && h.codec == CODEC_H265 && HandedOut(before, stream.returned, h, payloadBuf[..])
      requires (rx.Abs(), calls) == AllCalls(input, rx.reasm.buf.Length, rx.wantSei)
      requires rx.SentSince(packets0, seq0, calls) && Heard(input, replies, heard)
      requires rx.sync.Abstract() == ClockSync.OnReplies(ClockSync.INITIAL, replies)
      requires Answered(replies, said, stream.returned)
      modifies this`input, this`calls, this`heard, rx, rx.reasm, rx.reasm.buf, rx.rtp`seqNo, rx.rtp.socket
      ensures Valid() && rx.reasm.buf == old(rx.reasm.buf) && old(heard) <= heard
      ensures OneMore(old(input), input, Chunk(h, old(payloadBuf[..h.payloadLen])), nowUs, encodeUs)
    {
      hide Answered, HandedOut, Took, AllCalls, CallPackets, Agrees, Receive, ClockSync.Sync.Valid, AllHandedOut;
      hide Heard, ClockSync.OnReplies, ClockSync.IsEstimate;
      ghost var packets, seq1 := rx.rtp.socket.packets, rx.rtp.seqNo;
      ghost var more, t := rx.VideoChunk(h, payloadBuf, h.payloadLen, nowUs, encodeUs);
      ghost var a := Arrival(Chunk(h, payloadBuf[..h.payloadLen]), t);
      TookOne(input, before, stream.returned, h, payloadBuf[..], t);
      AllCallsSnoc(input, rx.reasm.buf.Length, rx.wantSei, a);
      CallPacketsAppend(seq0, rx.rtp.ssrc, rx.rtp.maxPayload, calls, more);
      HeardChunk(input, replies, heard, a);
      input, calls, heard := input + [a], calls + more, heard + [|replies|];
    }
  }
}
