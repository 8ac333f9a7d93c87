/** common/reassembly.c: whole frames out of the chunks that arrive. */
module Reassembly {
  import opened Bytes
  import opened ChunkWire

  /** What the reassembler knows; data is what buf holds up to write_off. */
  datatype State = State(active: bool, done: bool, frameSeq: u16, chunkCount: u16, nextIdx: u16,
                         framePts: u32, flags: byte, data: seq<byte>,
                         completedFrames: nat, droppedFrames: nat, lastBadSeq: Option<u16>)

  const INITIAL: State := State(false, false, 0, 0, 0, 0, 0, [], 0, 0, None)

  function Reset(st: State): State {
    st.(active := false, done := false, data := [], nextIdx := 0)
  }

  /** Counted once per distinct frame_seq in a row. */
  function NoteDropped(st: State, frameSeq: u16): State {
    if st.lastBadSeq == Some(frameSeq) then st
    else st.(droppedFrames := st.droppedFrames + 1, lastBadSeq := Some(frameSeq))
  }

  /** A streamed frame whose end has not come. */
  predicate Pending(st: State) {
    st.active && !st.done && st.chunkCount == 0
  }

  function GiveUp(st: State): State {
    if Pending(st) then NoteDropped(st, st.frameSeq) else st
  }

  predicate IsNewFrame(st: State, h: Hdr) {
    !st.active || h.frameSeq != st.frameSeq
  }

  /** A frame begins with h, whose chunk_idx is 0. */
  function Start(st: State, h: Hdr): State {
    st.(active := true, done := false, frameSeq := h.frameSeq,
        chunkCount := if HasFrameEnd(h.flags) then 0 else h.chunkCount,
        framePts := h.framePts, flags := FrameFlags(h.flags), data := [], nextIdx := 0)
  }

  predicate EndsFrame(st: State, h: Hdr) {
    st.chunkCount == 0 && HasFrameEnd(h.flags) && h.chunkCount == h.chunkIdx as int + 1
  }

  /** h carries on with the frame in st, and its payload still fits. */
  predicate Continues(st: State, cap: nat, h: Hdr, payload: seq<byte>) {
    && h.chunkIdx == st.nextIdx
    && h.chunkCount == (if EndsFrame(st, h) then h.chunkCount else st.chunkCount)
    && |st.data| + |payload| <= cap
  }

  function Append(st: State, payload: seq<byte>): State {
    st.(data := st.data + payload, nextIdx := (st.nextIdx as int + 1) % 0x1_0000)
  }

  function Complete(st: State): State {
    st.(done := true, completedFrames := st.completedFrames + 1)
  }

  /** The chunk is no use, and what was collected is dropped. */
  function Refuse(st: State, frameSeq: u16): State {
    Reset(NoteDropped(st, frameSeq))
  }

  /** A frame that can still be carried on with: the one in progress, or the one h starts. */
  function Current(st: State, h: Hdr): State {
    if IsNewFrame(st, h) then Start(GiveUp(st), h) else st
  }

  /** Whether the chunk behind s, already appended as t, was the last of its frame. */
  predicate Finishes(s: State, t: State, h: Hdr) {
    EndsFrame(s, h) || t.nextIdx == s.chunkCount
  }

  /** ar8030_reassembly_feed(): the new state, and whether the chunk completed a frame. */
  function Feed(st: State, cap: nat, h: Hdr, payload: seq<byte>): (State, bool) {
    if IsNewFrame(st, h) && h.chunkIdx != 0 then (Refuse(GiveUp(st), h.frameSeq), false)
    else if !Continues(Current(st, h), cap, h, payload) then (Refuse(Current(st, h), h.frameSeq), false)
    else
      var t := Append(Current(st, h), payload);
      if Finishes(Current(st, h), t, h) then (Complete(t), true) else (t, false)
  }

  class Reassembler {
    var buf: array<byte>
    var frameSeq: u16
    var chunkCount: u16
    var nextChunkIdx: u16
    var writeOff: nat
    var framePts: u32
    var flags: byte
    var active: bool
    var done: bool
    var completedFrames: nat
    var droppedFrames: nat
    var lastBadSeq: u16
    var haveLastBadSeq: bool

    /** The sum of write_off and a payload's length fits 32 bits. */
    ghost predicate Valid()
      reads this
    {
      writeOff <= buf.Length < 0x1_0000_0000 - MAX_PAYLOAD
    }

    ghost function Abs(): State
      reads this, buf
      requires writeOff <= buf.Length
    {
      State(active, done, frameSeq, chunkCount, nextChunkIdx, framePts, flags, buf[..writeOff],
            completedFrames, droppedFrames, if haveLastBadSeq then Some(lastBadSeq) else None)
    }

    constructor (buf: array<byte>)
      requires buf.Length < 0x1_0000_0000 - MAX_PAYLOAD
      ensures Valid() && this.buf == buf && Abs() == INITIAL
    {
      this.buf := buf;
      frameSeq, chunkCount, nextChunkIdx, writeOff, framePts, flags := 0, 0, 0, 0, 0, 0;
      active, done := false, false;
      completedFrames, droppedFrames, lastBadSeq, haveLastBadSeq := 0, 0, 0, false;
    }

    method ResetFrame()
      requires Valid()
      modifies this`active, this`done, this`writeOff, this`nextChunkIdx
      ensures Valid() && Abs() == Reset(old(Abs()))
    {
      active, done, writeOff, nextChunkIdx := false, false, 0, 0;
    }

    method NoteDroppedFrame(seqNo: u16)
      requires Valid()
      modifies this`droppedFrames, this`lastBadSeq, this`haveLastBadSeq
      ensures Valid() && Abs() == NoteDropped(old(Abs()), seqNo)
    {
      if haveLastBadSeq && lastBadSeq == seqNo {
        return;
      }
      droppedFrames := droppedFrames + 1;
      lastBadSeq := seqNo;
      haveLastBadSeq := true;
    }

    method RefuseChunk(seqNo: u16)
      requires Valid()
      modifies this
      ensures Valid() && buf == old(buf) && Abs() == Refuse(old(Abs()), seqNo)
    {
      NoteDroppedFrame(seqNo);
      ResetFrame();
    }

    /** The part for a chunk of another frame than the one in progress; false if it is no use. */
    method NewFrame(h: Hdr) returns (ok: bool)
      requires Valid() && IsNewFrame(Abs(), h)
      modifies this
      ensures Valid() && buf == old(buf) && (ok <==> h.chunkIdx == 0)
      ensures Abs() == if ok then Start(GiveUp(old(Abs())), h) else Refuse(GiveUp(old(Abs())), h.frameSeq)
    {
      hide NoteDropped, Reset, Start, Refuse;
      if active && !done && chunkCount == 0 {
        NoteDroppedFrame(frameSeq);
      }
      assert Abs() == GiveUp(old(Abs()));
      if h.chunkIdx != 0 {
        RefuseChunk(h.frameSeq);
        return false;
      }
      StartFrame(h);
      ok := true;
    }

    method StartFrame(h: Hdr)
      requires Valid()
      modifies this
      ensures Valid() && buf == old(buf) && Abs() == Start(old(Abs()), h)
    {
      hide HasFrameEnd, FrameFlags;
      active, done, frameSeq := true, false, h.frameSeq;
      chunkCount := if HasFrameEnd(h.flags) then 0 else h.chunkCount;
      framePts, flags := h.framePts, FrameFlags(h.flags);
      writeOff, nextChunkIdx := 0, 0;
    }

    method AppendPayload(payload: array<byte>, payloadLen: nat)
      requires Valid() && payload != buf && payloadLen <= payload.Length && writeOff + payloadLen <= buf.Length
      modifies this`writeOff, this`nextChunkIdx, buf
      ensures Valid() && Abs() == Append(old(Abs()), payload[..payloadLen])
    {
      ghost var before := buf[..writeOff];
      forall i | 0 <= i < payloadLen {
        buf[writeOff + i] := payload[i];
      }
      assert buf[..writeOff + payloadLen] == before + payload[..payloadLen];
      writeOff := writeOff + payloadLen;
      nextChunkIdx := (nextChunkIdx as int + 1) % 0x1_0000;
    }

    method FeedChunk(h: Hdr, payload: array<byte>, payloadLen: nat) returns (complete: bool)
      requires Valid() && payload != buf && payloadLen <= payload.Length && payloadLen <= MAX_PAYLOAD
      modifies this, buf
      ensures Valid() && buf == old(buf)
      ensures (Abs(), complete) == Feed(old(Abs()), buf.Length, h, payload[..payloadLen])
    {
      hide NoteDropped, Reset, Start, Refuse, GiveUp, Append, Complete;
      if !active || h.frameSeq != frameSeq {
        var ok := NewFrame(h);
        if !ok {
          return false;
        }
      }
      ghost var s := Abs();
      assert s == Current(old(Abs()), h);
      var frameEnd := chunkCount == 0 && HasFrameEnd(h.flags) && h.chunkCount == h.chunkIdx as int + 1;
      var wantCount := if frameEnd then h.chunkCount else chunkCount;
      if h.chunkIdx != nextChunkIdx || h.chunkCount != wantCount {
        RefuseChunk(h.frameSeq);
        return false;
      }
      if writeOff + payloadLen > buf.Length {
        RefuseChunk(h.frameSeq);
        return false;
      }
      assert Continues(s, buf.Length, h, payload[..payloadLen]);
      AppendPayload(payload, payloadLen);
      if frameEnd || nextChunkIdx == chunkCount {
        MarkDone();
        return true;
      }
      return false;
    }

    method MarkDone()
      requires Valid()
      modifies this`done, this`completedFrames
      ensures Valid() && Abs() == Complete(old(Abs()))
    {
      done := true;
      completedFrames := completedFrames + 1;
    }
  }
}
