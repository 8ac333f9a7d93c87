/** common/timing_sei.c: where the SEI goes in an access unit, and how it is found again. */
module SeiSearch {
  import opened Bytes
  import opened AnnexB
  import opened TimingSei

  function TypeAt(s: seq<byte>, i: nat): byte
    requires i < |s|
  {
    s[i] / 2 % 64
  }

  // Inserting

  /** The start code of the first slice, pos being a start code or the end. */
  function FirstSlice(s: seq<byte>, pos: nat): (r: Option<nat>)
    requires pos <= |s|
    ensures r.Some? ==> pos <= r.value < |s|
    decreases |s| - pos
  {
    if pos == |s| || StartCode(s, pos) == 0 then None
    else
      var hdr := pos + StartCode(s, pos);
      if hdr < |s| && TypeAt(s, hdr) <= 31 then Some(pos) else FirstSlice(s, FindStart(s, hdr))
  }

  function SlicePos(s: seq<byte>): Option<nat> {
    FirstSlice(s, FindStart(s, 0))
  }

  function Inserted(s: seq<byte>, p: nat, sei: seq<byte>): seq<byte>
    requires p <= |s|
  {
    s[..p] + sei + s[p..]
  }

  /** The search loop of timing_sei_insert(). */
  method FindSlice(s: seq<byte>) returns (r: Option<nat>)
    ensures r == SlicePos(s)
  {
    FindStartFirst(s, 0);
    var pos, scLen := FindStartCode(s, 0);
    while pos < |s|
      invariant pos <= |s| && scLen == StartCode(s, pos) && (pos < |s| ==> scLen > 0)
      invariant SlicePos(s) == FirstSlice(s, pos)
      decreases |s| - pos
    {
      var hdr := pos + scLen;
      if hdr < |s| && s[hdr] / 2 % 64 <= 31 {
        return Some(pos);
      }
      FindStartFirst(s, hdr);
      pos, scLen := FindStartCode(s, hdr);
    }
    return None;
  }

  /**
   timing_sei_insert() on buf[0..len): the length afterwards. Without a slice, or without
   room, nothing changes.
   */
  method Insert(buf: array<byte>, len: nat, sei: seq<byte>) returns (ok: bool, newLen: nat)
    requires len <= buf.Length
    modifies buf
    ensures ok <==> len + |sei| <= buf.Length && SlicePos(old(buf[..len])).Some?
    ensures newLen == (if ok then len + |sei| else len) && newLen <= buf.Length
    ensures ok ==> buf[..newLen] == Inserted(old(buf[..len]), SlicePos(old(buf[..len])).value, sei)
    ensures !ok ==> buf[..] == old(buf[..])
  {
    hide SlicePos;
    if len + |sei| > buf.Length {
      return false, len;
    }
    var pos := FindSlice(buf[..len]);
    if pos == None {
      return false, len;
    }
    SlicePosInside(buf[..len]);
    ghost var s := buf[..len];
    assert s[..pos.value] == buf[..pos.value] && s[pos.value..] == buf[pos.value..len];
    Splice(buf, len, pos.value, sei);
    return true, len + |sei|;
  }

  lemma SlicePosInside(s: seq<byte>)
    ensures SlicePos(s).Some? ==> SlicePos(s).value < |s|
  {
  }

  lemma ShortHasNoSlice(s: seq<byte>)
    requires |s| < 3
    ensures SlicePos(s) == None
  {
  }

  /** memmove() of the tail, then memcpy() of the insertion into the gap. */
  method Splice(buf: array<byte>, len: nat, pos: nat, ins: seq<byte>)
    requires pos <= len && len + |ins| <= buf.Length
    modifies buf
    ensures buf[..len + |ins|] == old(buf[..pos]) + ins + old(buf[pos..len])
  {
    ghost var head, tail := buf[..pos], buf[pos..len];
    MoveUp(buf, len, pos, |ins|);
    forall k | 0 <= k < |ins| {
      buf[pos + k] := ins[k];
    }
    var n := len + |ins|;
    assert buf[..pos] == head && buf[pos..pos + |ins|] == ins && buf[pos + |ins|..n] == tail;
    assert buf[..n] == buf[..pos] + buf[pos..pos + |ins|] + buf[pos + |ins|..n];
  }

  method MoveUp(buf: array<byte>, len: nat, pos: nat, gap: nat)
    requires pos <= len && len + gap <= buf.Length
    modifies buf
    ensures buf[..pos] == old(buf[..pos]) && buf[pos + gap..len + gap] == old(buf[pos..len])
  {
    ghost var before := buf[..];
    var i := len;
    while i > pos
      invariant pos <= i <= len
      invariant forall k :: 0 <= k < i ==> buf[k] == before[k]
      invariant forall k :: i + gap <= k < len + gap ==> buf[k] == before[k - gap]
    {
      i := i - 1;
      buf[i + gap] := buf[i];
    }
  }

  // Parsing

  /** The message in the body of an SEI NAL, if it is ours. */
  function Own(body: seq<byte>): Option<Timing> {
    var r := Unescape(0, body);
    if |r| >= 2 + PAYLOAD_SIZE && r[0] == USER_DATA_UNREGISTERED && r[1] >= PAYLOAD_SIZE
       && r[2..18] == UUID && r[18] == VERSION
    then Some(DecodeTiming(r[18..50])) else None
  }

  /** A prefix SEI before the first slice, a suffix SEI after it. */
  predicate RightKind(seen: bool, t: byte) {
    if seen then t == SUFFIX_SEI else t == PREFIX_SEI
  }

  /** From the start code at pos on, up to a limit. */
  function ParseUpTo(s: seq<byte>, pos: nat, seen: bool, limit: nat): Option<Timing>
    requires pos <= |s|
    decreases |s| - pos
  {
    if pos == |s| || pos >= limit || StartCode(s, pos) == 0 then None
    else
      var nal := pos + StartCode(s, pos);
      var next := FindStart(s, nal);
      if nal >= |s| then None
      else
        var seen' := seen || TypeAt(s, nal) <= 31;
        if nal + 2 < next && RightKind(seen', TypeAt(s, nal)) && Own(s[nal + 2..next]).Some?
        then Own(s[nal + 2..next])
        else ParseUpTo(s, next, seen', limit)
  }

  function Parse(s: seq<byte>): Option<Timing> {
    ParseUpTo(s, FindStart(s, 0), false, |s|)
  }

  /** The first n bytes at most. */
  function Front(s: seq<byte>, n: nat): seq<byte> {
    if |s| <= n then s else s[..n]
  }

  /** The loop that strips emulation prevention into a copy no longer than our message. */
  method StripInto(body: seq<byte>) returns (rbsp: seq<byte>)
    ensures rbsp == Front(Unescape(0, body), 2 + PAYLOAD_SIZE)
  {
    hide Unescape;
    rbsp := [];
    var zeros, i := 0, 0;
    ghost var all := Unescape(0, body);
    assert body[0..] == body && [] + all == all;
    while i < |body| && |rbsp| < 2 + PAYLOAD_SIZE
      invariant i <= |body| && |rbsp| <= 2 + PAYLOAD_SIZE
      invariant all == rbsp + Unescape(zeros, body[i..])
    {
      UnescapeStep(zeros, body[i..]);
      assert body[i..][1..] == body[i + 1..];
      if zeros >= 2 && body[i] == 3 {
        zeros := 0;
        i := i + 1;
        continue;
      }
      assert rbsp + ([body[i]] + Unescape(After(zeros, body[i]), body[i + 1..]))
          == rbsp + [body[i]] + Unescape(After(zeros, body[i]), body[i + 1..]);
      rbsp := rbsp + [body[i]];
      zeros := if body[i] == 0 then zeros + 1 else 0;
      i := i + 1;
    }
    if i == |body| {
      UnescapeNothing(zeros, body[i..]);
    }
  }

  lemma UnescapeNothing(zeros: nat, s: seq<byte>)
    requires s == []
    ensures Unescape(zeros, s) == []
  {
  }

  lemma UnescapeStep(zeros: nat, s: seq<byte>)
    requires s != []
    ensures if zeros >= 2 && s[0] == 3 then Unescape(zeros, s) == Unescape(0, s[1..])
            else Unescape(zeros, s) == [s[0]] + Unescape(After(zeros, s[0]), s[1..])
  {
  }

  method ParseBody(body: seq<byte>) returns (r: Option<Timing>)
    ensures r == Own(body)
  {
    hide Unescape, DecodeTiming;
    var rbsp := StripInto(body);
    ghost var all := Unescape(0, body);
    if |rbsp| == 2 + PAYLOAD_SIZE && rbsp[0] == USER_DATA_UNREGISTERED && rbsp[1] >= PAYLOAD_SIZE
       && rbsp[2..18] == UUID && rbsp[18] == VERSION {
      assert rbsp[2..18] == all[2..18] && rbsp[18..50] == all[18..50];
      return Some(DecodeTiming(rbsp[18..50]));
    }
    if |all| >= 50 {
      assert rbsp[2..18] == all[2..18];
    }
    return None;
  }

  /** timing_sei_parse() */
  method ParseAccessUnit(au: seq<byte>) returns (r: Option<Timing>)
    ensures r == Parse(au)
  {
    hide Own;
    var seen := false;
    FindStartFirst(au, 0);
    var pos, scLen := FindStartCode(au, 0);
    while pos < |au|
      invariant pos <= |au| && scLen == StartCode(au, pos) && (pos < |au| ==> scLen > 0)
      invariant Parse(au) == ParseUpTo(au, pos, seen, |au|)
      decreases |au| - pos
    {
      var nal := pos + scLen;
      FindStartFirst(au, nal);
      var next, nextSc := FindStartCode(au, nal);
      if nal >= |au| {
        break;
      }
      var t := au[nal] / 2 % 64;
      if t <= 31 {
        seen := true;
      }
      if nal + 2 < next && (if seen then t == SUFFIX_SEI else t == PREFIX_SEI) {
        var own := ParseBody(au[nal + 2..next]);
        if own.Some? {
          return own;
        }
      }
      pos, scLen := next, nextSc;
    }
    return None;
  }
}
