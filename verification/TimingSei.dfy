/** common/timing_sei.c: per-frame timing inside the H.265 bitstream. */
module TimingSei {
  import opened Bytes
  import opened AnnexB

  const UUID: seq<byte> :=
    [0x8a, 0x3f, 0x52, 0xc1, 0x6e, 0x0b, 0x4d, 0x97, 0xb2, 0x14, 0x5a, 0xe3, 0x09, 0x7c, 0xd1, 0x46]

  const VERSION: byte := 1
  const PREFIX_SEI: byte := 39
  const SUFFIX_SEI: byte := 40
  const USER_DATA_UNREGISTERED: byte := 5
  const PAYLOAD_SIZE: nat := 48
  const NAL_MAX: nat := 4 + 2 + 2 + PAYLOAD_SIZE * 3 / 2 + 2

  /** struct timing_sei_v1 */
  datatype Timing = Timing(version: byte, flags: byte, frameSeq: u16, captureGroundUs: u64, rxDoneGroundUs: u64,
                           syncUncertaintyUs: u32, encodeUs: u32, framesLost: u32)

  function EncodeTiming(t: Timing): (s: seq<byte>)
    ensures |s| == 32
  {
    [t.version, t.flags] + PutLe16(t.frameSeq) + PutLe64(t.captureGroundUs) + PutLe64(t.rxDoneGroundUs)
    + PutLe32(t.syncUncertaintyUs) + PutLe32(t.encodeUs) + PutLe32(t.framesLost)
  }

  function DecodeTiming(s: seq<byte>): Timing
    requires |s| == 32
  {
    Timing(s[0], s[1], GetLe16(s, 2), GetLe64(s, 4), GetLe64(s, 12), GetLe32(s, 20), GetLe32(s, 24), GetLe32(s, 28))
  }

  lemma DecodeEncoded(t: Timing)
    ensures DecodeTiming(EncodeTiming(t)) == t
  {
    hide PutLe16, PutLe32, PutLe64, GetLe16, GetLe32, GetLe64;
    var s := EncodeTiming(t);
    Le16Inside(s, 2);
    Le64Inside(s, 4);
    Le64Inside(s, 12);
    Le32Inside(s, 20);
    Le32Inside(s, 24);
    Le32Inside(s, 28);
    assert s[2..4] == PutLe16(t.frameSeq);
    assert s[4..12] == PutLe64(t.captureGroundUs);
    assert s[12..20] == PutLe64(t.rxDoneGroundUs);
    assert s[20..24] == PutLe32(t.syncUncertaintyUs);
    assert s[24..28] == PutLe32(t.encodeUs);
    assert s[28..32] == PutLe32(t.framesLost);
  }

  // Emulation prevention, section 7.4.2 of Rec. ITU-T H.265

  /** The zeros run after a byte. */
  function After(zeros: nat, b: byte): nat { if b == 0 then zeros + 1 else 0 }

  function Escape(zeros: nat, s: seq<byte>): seq<byte>
    decreases |s|
  {
    if s == [] then []
    else if zeros >= 2 && s[0] <= 3 then [3, s[0]] + Escape(After(0, s[0]), s[1..])
    else [s[0]] + Escape(After(zeros, s[0]), s[1..])
  }

  function Unescape(zeros: nat, s: seq<byte>): seq<byte>
    decreases |s|
  {
    if s == [] then []
    else if zeros >= 2 && s[0] == 3 then Unescape(0, s[1..])
    else [s[0]] + Unescape(After(zeros, s[0]), s[1..])
  }

  lemma {:induction false} UnescapeEscaped(zeros: nat, s: seq<byte>)
    ensures Unescape(zeros, Escape(zeros, s)) == s
    decreases |s|
  {
    if s != [] {
      var e := Escape(zeros, s);
      if zeros >= 2 && s[0] <= 3 {
        var tail := Escape(After(0, s[0]), s[1..]);
        assert e[1..] == [s[0]] + tail && e[1..][1..] == tail;
        UnescapeEscaped(After(0, s[0]), s[1..]);
      } else {
        assert e[1..] == Escape(After(zeros, s[0]), s[1..]);
        UnescapeEscaped(After(zeros, s[0]), s[1..]);
      }
      assert s == [s[0]] + s[1..];
    }
  }

  /** Two zeros and a byte up to 2 after them. */
  predicate ForbiddenAt(s: seq<byte>, i: nat) {
    i + 2 < |s| && s[i] == 0 && s[i + 1] == 0 && s[i + 2] <= 2
  }

  /** What one turn of the loop emits. */
  function Emission(zeros: nat, b: byte): seq<byte> {
    if zeros >= 2 && b <= 3 then [3, b] else [b]
  }

  lemma EscapeStep(zeros: nat, s: seq<byte>)
    requires s != []
    ensures Escape(zeros, s)
            == Emission(zeros, s[0]) + Escape(After(if zeros >= 2 && s[0] <= 3 then 0 else zeros, s[0]), s[1..])
  {
  }

  /** Safe behind so many zeros. */
  ghost predicate SafeBehind(zeros: nat, s: seq<byte>) {
    && (forall i :: 0 <= i ==> !ForbiddenAt(s, i))
    && (zeros >= 2 && s != [] ==> s[0] >= 3)
    && (zeros >= 1 && |s| >= 2 && s[0] == 0 ==> s[1] >= 3)
  }

  lemma EmissionIsSafe(zeros: nat, b: byte, tail: seq<byte>)
    requires SafeBehind(After(if zeros >= 2 && b <= 3 then 0 else zeros, b), tail)
    ensures SafeBehind(zeros, Emission(zeros, b) + tail)
  {
    var e := Emission(zeros, b) + tail;
    var k := |Emission(zeros, b)|;
    assert forall j :: 0 <= j < |tail| ==> e[k + j] == tail[j];
    forall i | 0 <= i
      ensures !ForbiddenAt(e, i)
    {
      if i >= k {
        assert !ForbiddenAt(tail, i - k);
      }
    }
  }

  /** Neither inside what comes out, nor together with the zeros in front of it. */
  lemma {:induction false} EscapedIsSafe(zeros: nat, s: seq<byte>)
    ensures SafeBehind(zeros, Escape(zeros, s))
    decreases |s|
  {
    if s != [] {
      hide Escape, SafeBehind, After;
      var next := After(if zeros >= 2 && s[0] <= 3 then 0 else zeros, s[0]);
      EscapeStep(zeros, s);
      EscapedIsSafe(next, s[1..]);
      EmissionIsSafe(zeros, s[0], Escape(next, s[1..]));
    }
  }

  /** At most one byte in three is added. */
  lemma {:induction false} EscapedIsShort(zeros: nat, s: seq<byte>)
    requires s != []
    ensures 2 * (|Escape(zeros, s)| - |s|) <= |s| - 1 + (if zeros <= 2 then zeros else 2)
    decreases |s|
  {
    if |s| > 1 {
      EscapedIsShort(if zeros >= 2 && s[0] <= 3 then After(0, s[0]) else After(zeros, s[0]), s[1..]);
    }
  }

  lemma {:induction false} EscapedLast(zeros: nat, s: seq<byte>)
    requires s != []
    ensures Escape(zeros, s) != [] && Escape(zeros, s)[|Escape(zeros, s)| - 1] == s[|s| - 1]
    decreases |s|
  {
    if |s| > 1 {
      EscapedLast(if zeros >= 2 && s[0] <= 3 then After(0, s[0]) else After(zeros, s[0]), s[1..]);
    }
  }

  // Building

  function Rbsp(t: Timing): (s: seq<byte>)
    ensures |s| == 2 + PAYLOAD_SIZE + 1
  {
    [USER_DATA_UNREGISTERED, PAYLOAD_SIZE] + UUID + EncodeTiming(t) + [0x80]
  }

  /** The NAL without its start code. */
  function SeiNal(t: Timing, nalType: byte): seq<byte>
    requires nalType < 64
  {
    [nalType * 2, 1] + Escape(0, Rbsp(t))
  }

  function Sei(t: Timing, nalType: byte): seq<byte>
    requires nalType < 64
  {
    StartBytes(true) + SeiNal(t, nalType)
  }

  /** For every content the NAL fits its buffer, and holds no start code of its own. */
  lemma SeiIsSafe(t: Timing, nalType: byte)
    requires 1 <= nalType < 64
    ensures |Sei(t, nalType)| <= NAL_MAX && Clean(SeiNal(t, nalType))
    ensures forall i :: 0 <= i ==> !ForbiddenAt(SeiNal(t, nalType), i)
  {
    hide Escape, Rbsp;
    LastOfRbsp(t);
    EscapedIsSafe(0, Rbsp(t));
    EscapedIsShort(0, Rbsp(t));
    EscapedLast(0, Rbsp(t));
    BehindHeader(nalType * 2, Escape(0, Rbsp(t)));
  }

  lemma BehindHeader(b: byte, e: seq<byte>)
    requires e != [] && e[|e| - 1] != 0
    requires forall i :: 0 <= i ==> !ForbiddenAt(e, i)
    ensures Clean([b, 1] + e)
    ensures forall i :: 0 <= i ==> !ForbiddenAt([b, 1] + e, i)
  {
    var nal := [b, 1] + e;
    forall i | 0 <= i
      ensures !ForbiddenAt(nal, i)
    {
      if i >= 2 {
        assert !ForbiddenAt(e, i - 2);
      }
    }
    forall i | 0 <= i < |nal| - 2
      ensures !(nal[i] == 0 && nal[i + 1] == 0 && nal[i + 2] == 1)
    {
      assert !ForbiddenAt(nal, i);
    }
  }

  lemma LastOfRbsp(t: Timing)
    ensures |Rbsp(t)| == 51 && Rbsp(t)[50] == 0x80
  {
  }

  /** The emulation prevention loop of build_nal(), from offset at of out on. */
  method EscapeInto(rbsp: seq<byte>, out: array<byte>, at: nat) returns (o: nat)
    requires at + |Escape(0, rbsp)| <= out.Length
    modifies out
    ensures o == at + |Escape(0, rbsp)|
    ensures out[..at] == old(out[..at]) && out[at..o] == Escape(0, rbsp)
  {
    hide Escape;
    ghost var all := Escape(0, rbsp);
    ghost var before := out[..at];
    o := at;
    var zeros := 0;
    assert rbsp[0..] == rbsp && all[0..] == all;
    for i := 0 to |rbsp|
      invariant at <= o <= at + |all| && out[..at] == before
      invariant out[at..o] == all[..o - at] && all[o - at..] == Escape(zeros, rbsp[i..])
    {
      EscapeStep(zeros, rbsp[i..]);
      assert rbsp[i..][1..] == rbsp[i + 1..] && rbsp[i..][0] == rbsp[i];
      ghost var o0, z0 := o, zeros;
      if zeros >= 2 && rbsp[i] <= 3 {
        out[o] := 3;
        o := o + 1;
        zeros := 0;
      }
      out[o] := rbsp[i];
      o := o + 1;
      zeros := if rbsp[i] == 0 then zeros + 1 else 0;
      Emitted(all, o0 - at, z0, rbsp[i], Escape(zeros, rbsp[i + 1..]));
      assert out[at..o] == out[at..o0] + out[o0..o];
    }
    EscapeNothing(zeros, rbsp[|rbsp|..]);
    assert all[..o - at] == all;
  }

  lemma Emitted(all: seq<byte>, o: nat, zeros: nat, b: byte, tail: seq<byte>)
    requires o <= |all| && all[o..] == Emission(zeros, b) + tail
    ensures var o' := o + |Emission(zeros, b)|;
      o' <= |all| && all[o'..] == tail && all[..o'] == all[..o] + Emission(zeros, b)
  {
    var e := Emission(zeros, b);
    assert all[o..][..|e|] == e && all[o..][|e|..] == tail;
    assert all == all[..o] + all[o..];
  }

  lemma EscapeNothing(zeros: nat, s: seq<byte>)
    requires s == []
    ensures Escape(zeros, s) == []
  {
  }

  /** build_nal() */
  method BuildNal(t: Timing, out: array<byte>, nalType: byte) returns (o: nat)
    requires 1 <= nalType < 64 && out.Length >= NAL_MAX
    modifies out
    ensures o <= NAL_MAX && out[..o] == Sei(t, nalType)
  {
    hide Escape, Rbsp;
    SeiIsSafe(t, nalType);
    out[0], out[1], out[2], out[3] := 0, 0, 0, 1;
    out[4], out[5] := nalType * 2, 1;
    assert out[..6] == [0, 0, 0, 1, nalType * 2, 1];
    o := EscapeInto(Rbsp(t), out, 6);
    assert out[..o] == out[..6] + out[6..o];
  }
}
