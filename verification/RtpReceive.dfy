/**
 The other end of rx/rtp_h265.c: a receiver after sections 4.4.1 (single NAL unit packets)
 and 4.4.3 (fragmentation units) of RFC 7798, and what it gets back.
 */
module RtpReceive {
  import opened Bytes
  import opened AnnexB
  import opened Rtp
  import SeiSearch

  // The receiver

  /** A packet by section 5.1 of RFC 3550. plain: no padding, no extension, no CSRC, so that the header has 12 bytes. */
  datatype Received = Received(version: nat, plain: bool, payloadType: nat, marker: bool, seqNo: u16, ts: u32,
                               ssrc: u32, payload: seq<byte>)

  function ParsePacket(p: seq<byte>): Received
    requires |p| >= HDR_LEN
  {
    Received(p[0] / 64, p[0] % 64 == 0, p[1] % 128, p[1] >= 0x80, GetBe16(p, 2), GetBe32(p, 4), GetBe32(p, 8),
             p[HDR_LEN..])
  }

  /** The NALs so far, and the one whose fragments are coming in. */
  datatype Depay = Depay(nals: seq<seq<byte>>, fu: Option<seq<byte>>)

  predicate IsStart(p: seq<byte>) { |p| >= 3 && p[2] >= 128 }

  predicate IsEnd(p: seq<byte>) { |p| >= 3 && p[2] / 64 % 2 == 1 }

  /** The NAL header that the two headers of a fragment stand for. */
  function FuNalHeader(p: seq<byte>): seq<byte>
    requires |p| >= 3
  {
    [p[0] / 128 * 128 + p[2] % 64 * 2 + p[0] % 2, p[1]]
  }

  function Take(d: Depay, p: seq<byte>): Depay {
    if |p| < 2 then d
    else if NalType(p[0]) < 48 then Depay(d.nals + [p], None)
    else if NalType(p[0]) != NAL_FU || |p| < 3 then d
    else if !IsStart(p) && d.fu == None then d
    else
      var nal := (if IsStart(p) then FuNalHeader(p) else d.fu.value) + p[3..];
      if IsEnd(p) then Depay(d.nals + [nal], None) else Depay(d.nals, Some(nal))
  }

  function TakeAll(d: Depay, ps: seq<seq<byte>>): Depay
    decreases |ps|
  {
    if ps == [] then d else TakeAll(Take(d, ps[0]), ps[1..])
  }

  /** A NAL the payload formats can carry as it is: it has a header, and its type is below 48. */
  predicate Carriable(nal: seq<byte>) {
    |nal| >= 2 && NalType(nal[0]) < 48
  }

  // One NAL

  lemma {:induction false} TakeAllAppend(d: Depay, a: seq<seq<byte>>, b: seq<seq<byte>>)
    ensures TakeAll(d, a + b) == TakeAll(TakeAll(d, a), b)
    decreases |a|
  {
    hide Take;
    if a == [] {
      assert a + b == b;
    } else {
      assert (a + b)[1..] == a[1..] + b;
      TakeAllAppend(Take(d, a[0]), a[1..], b);
    }
  }

  lemma PrefixTells(nal: seq<byte>, start: bool, end: bool, body: seq<byte>)
    requires |nal| >= 2
    ensures var p := FuPrefix(nal, start, end) + body;
      && NalType(p[0]) == NAL_FU && FuNalHeader(p) == nal[..2]
      && (IsStart(p) <==> start) && (IsEnd(p) <==> end) && p[3..] == body
  {
    hide NalType;
    TypeFits(nal[0]);
    HeaderBits(nal[0]);
    FlagBits(start, end, NalType(nal[0]));
  }

  lemma TypeFits(b: byte)
    ensures NalType(b) < 64 && b == b / 128 * 128 + NalType(b) as int * 2 + b % 2
  {
  }

  lemma HeaderBits(b: byte)
    ensures var h := b / 128 * 128 + NAL_FU as int * 2 + b % 2;
      h < 256 && h / 128 == b / 128 && h % 2 == b % 2 && NalType(h) == NAL_FU
  {
  }

  lemma FlagBits(start: bool, end: bool, t: byte)
    requires t < 64
    ensures var h := (if start then 128 else 0) + (if end then 64 else 0) + t as int;
      (h >= 128 <==> start) && (h / 64 % 2 == 1 <==> end) && h % 64 == t
  {
  }

  /** From offset off on, the fragments complete a NAL whose start has been collected. */
  lemma {:induction false} FragmentsBack(d: Depay, nal: seq<byte>, off: nat, maxFrag: nat)
    requires |nal| >= 3 && off < |nal| - 2 && maxFrag > 0
    requires off > 0 ==> d.fu == Some(nal[..2 + off])
    ensures TakeAll(d, Fragments(nal, off, maxFrag)) == Depay(d.nals + [nal], None)
    decreases |nal| - off
  {
    hide FuPrefix, FuNalHeader, IsStart, IsEnd;
    var n := FragLen(nal, off, maxFrag);
    var end := off + n == |nal| - 2;
    var body := nal[2 + off..2 + off + n];
    var p := FuPrefix(nal, off == 0, end) + body;
    PrefixTells(nal, off == 0, end, body);
    assert nal[..2 + off] + body == nal[..2 + off + n];
    var d1 := Take(d, p);
    if end {
      assert nal[..2 + off + n] == nal;
      assert d1 == Depay(d.nals + [nal], None);
      assert Fragments(nal, off + n, maxFrag) == [];
    } else {
      assert d1 == Depay(d.nals, Some(nal[..2 + off + n]));
      FragmentsBack(d1, nal, off + n, maxFrag);
    }
    assert Fragments(nal, off, maxFrag) == [p] + Fragments(nal, off + n, maxFrag);
  }

  lemma NalBack(d: Depay, nal: seq<byte>, maxPayload: nat)
    requires Carriable(nal) && maxPayload >= 2
    ensures TakeAll(d, NalPayloads(nal, maxPayload)) == Depay(d.nals + [nal], None)
  {
    hide Fragments;
    if |nal| <= maxPayload {
      assert [nal][1..] == [];
      assert TakeAll(Take(d, nal), []) == Take(d, nal);
    } else {
      FragmentsBack(d, nal, 0, MaxFrag(maxPayload));
    }
  }

  /** S on the first fragment only, E on the last only. */
  lemma {:induction false} FragmentFlags(nal: seq<byte>, off: nat, maxFrag: nat, i: nat)
    requires |nal| >= 2 && off <= |nal| - 2 && maxFrag > 0 && i < |Fragments(nal, off, maxFrag)|
    ensures var fs := Fragments(nal, off, maxFrag);
      && (IsStart(fs[i]) <==> off == 0 && i == 0)
      && (IsEnd(fs[i]) <==> i == |fs| - 1)
      && 3 < |fs[i]| <= maxFrag + 3
    decreases |nal| - off
  {
    hide FuPrefix, IsStart, IsEnd, FuNalHeader;
    var n := FragLen(nal, off, maxFrag);
    var body := nal[2 + off..2 + off + n];
    var tail := Fragments(nal, off + n, maxFrag);
    var fs := Fragments(nal, off, maxFrag);
    assert fs == [FuPrefix(nal, off == 0, off + n == |nal| - 2) + body] + tail;
    assert tail == [] <==> off + n == |nal| - 2;
    PrefixTells(nal, off == 0, off + n == |nal| - 2, body);
    if i > 0 {
      assert fs[i] == tail[i - 1];
      FragmentFlags(nal, off + n, maxFrag, i - 1);
    }
  }

  /**
   A NAL that is too long for one packet goes out in at least two, so no fragment is both
   the first and the last; none is longer than the limit, and all but the last are full.
   */
  lemma FragmentsAreLegal(nal: seq<byte>, maxPayload: nat, i: nat)
    requires maxPayload >= 4 && |nal| > maxPayload && i < |NalPayloads(nal, maxPayload)|
    ensures var fs := NalPayloads(nal, maxPayload);
      && |fs| >= 2 && |fs[i]| <= maxPayload
      && (IsStart(fs[i]) <==> i == 0) && (IsEnd(fs[i]) <==> i == |fs| - 1)
      && !(IsStart(fs[i]) && IsEnd(fs[i])) && (i < |fs| - 1 ==> |fs[i]| == maxPayload)
  {
    FragmentFlags(nal, 0, MaxFrag(maxPayload), i);
    if i < |NalPayloads(nal, maxPayload)| - 1 {
      FragmentsAreFull(nal, 0, MaxFrag(maxPayload), i);
    }
    var n := FragLen(nal, 0, MaxFrag(maxPayload));
    assert n < |nal| - 2;
    assert |Fragments(nal, n, MaxFrag(maxPayload))| >= 1;
  }

  lemma {:induction false} FragmentsAreFull(nal: seq<byte>, off: nat, maxFrag: nat, i: nat)
    requires |nal| >= 2 && off <= |nal| - 2 && maxFrag > 0 && i < |Fragments(nal, off, maxFrag)| - 1
    ensures |Fragments(nal, off, maxFrag)[i]| == maxFrag + 3
    decreases |nal| - off
  {
    hide FuPrefix;
    if i > 0 {
      FragmentsAreFull(nal, off + FragLen(nal, off, maxFrag), maxFrag, i - 1);
    }
  }

  /** One packet is enough exactly for a NAL within the limit, and that then is the NAL. */
  lemma OnePacketIff(nal: seq<byte>, maxPayload: nat)
    requires |nal| >= 2 && maxPayload >= 4
    ensures |NalPayloads(nal, maxPayload)| == 1 <==> |nal| <= maxPayload
    ensures |nal| <= maxPayload ==> NalPayloads(nal, maxPayload) == [nal]
  {
    if |nal| > maxPayload {
      var n := FragLen(nal, 0, MaxFrag(maxPayload));
      assert n < |nal| - 2;
      assert |Fragments(nal, n, MaxFrag(maxPayload))| >= 1;
    }
  }

  /** The limit is kept for every NAL exactly from 4 on: below, a fragment takes 4 bytes all the same. */
  lemma LimitIsKeptIff(maxPayload: nat)
    ensures maxPayload >= 4
      <==> forall nal: seq<byte>, i: nat {:trigger NalPayloads(nal, maxPayload)[i]} ::
             i < |NalPayloads(nal, maxPayload)| ==> |NalPayloads(nal, maxPayload)[i]| <= maxPayload
  {
    if maxPayload >= 4 {
      forall nal: seq<byte>, i: nat | i < |NalPayloads(nal, maxPayload)|
        ensures |NalPayloads(nal, maxPayload)[i]| <= maxPayload
      {
        if |nal| > maxPayload {
          FragmentsAreLegal(nal, maxPayload, i);
        }
      }
    } else {
      var nal: seq<byte> := [2, 1, 7, 7];
      FragmentFlags(nal, 0, 1, 0);
      assert |NalPayloads(nal, maxPayload)[0]| == 4;
    }
  }

  // An access unit

  function PayloadsOf(items: seq<Item>): seq<seq<byte>> {
    seq(|items|, i requires 0 <= i < |items| => items[i].payload)
  }

  function PayloadsIn(packets: seq<seq<byte>>): seq<seq<byte>>
    requires forall i :: 0 <= i < |packets| ==> |packets[i]| >= HDR_LEN
  {
    seq(|packets|, i requires 0 <= i < |packets| => ParsePacket(packets[i]).payload)
  }

  /** The NALs with a whole header. */
  function Headed(nals: seq<seq<byte>>): seq<seq<byte>> {
    if nals == [] then [] else (if |nals[0]| >= 2 then [nals[0]] else []) + Headed(nals[1..])
  }

  /** What has a header at all has a type below 48. */
  predicate PlainTypes(nals: seq<seq<byte>>) {
    forall k :: 0 <= k < |nals| && |nals[k]| >= 2 ==> Carriable(nals[k])
  }

  lemma NoPayloads(maxPayload: nat, auEnd: bool)
    ensures PayloadsOf(Items([], maxPayload, auEnd)) == []
  {
  }

  lemma FirstPayloads(nals: seq<seq<byte>>, maxPayload: nat, auEnd: bool)
    requires nals != []
    ensures PayloadsOf(Items(nals, maxPayload, auEnd))
            == NalPayloads(nals[0], maxPayload) + PayloadsOf(Items(nals[1..], maxPayload, auEnd))
  {
    hide NalPayloads;
  }

  lemma NalTaken(d: Depay, nal: seq<byte>, maxPayload: nat)
    requires maxPayload >= 2 && (|nal| >= 2 ==> Carriable(nal))
    ensures var got := TakeAll(d, NalPayloads(nal, maxPayload));
      got.nals == d.nals + (if |nal| >= 2 then [nal] else []) && (d.fu == None ==> got.fu == None)
  {
    hide NalPayloads, Carriable;
    NalHasPayload(nal, maxPayload);
    if |nal| >= 2 {
      NalBack(d, nal, maxPayload);
    }
  }

  lemma {:induction false} ItemsBack(d: Depay, nals: seq<seq<byte>>, maxPayload: nat, auEnd: bool)
    requires maxPayload >= 2 && PlainTypes(nals)
    ensures var got := TakeAll(d, PayloadsOf(Items(nals, maxPayload, auEnd)));
      got.nals == d.nals + Headed(nals) && (d.fu == None ==> got.fu == None)
    decreases |nals|
  {
    hide NalPayloads, Carriable, PayloadsOf;
    if nals == [] {
      NoPayloads(maxPayload, auEnd);
    } else {
      var here := NalPayloads(nals[0], maxPayload);
      var rest := Items(nals[1..], maxPayload, auEnd);
      FirstPayloads(nals, maxPayload, auEnd);
      TakeAllAppend(d, here, PayloadsOf(rest));
      var d1 := TakeAll(d, here);
      NalTaken(d, nals[0], maxPayload);
      ItemsBack(d1, nals[1..], maxPayload, auEnd);
      Regroup(d.nals, if |nals[0]| >= 2 then [nals[0]] else [], Headed(nals[1..]));
    }
  }

  /** The last NAL has a header, so that it is sent. */
  predicate LastIsSent(nals: seq<seq<byte>>) {
    nals != [] && |nals[|nals| - 1]| >= 2
  }

  /** The marker is on the last packet, if wanted and if that is of the last NAL, and on no other. */
  lemma {:induction false} MarkerOnLast(nals: seq<seq<byte>>, maxPayload: nat, auEnd: bool, i: nat)
    requires maxPayload >= 2 && i < |Items(nals, maxPayload, auEnd)|
    ensures var items := Items(nals, maxPayload, auEnd);
      items[i].marker <==> auEnd && LastIsSent(nals) && i == |items| - 1
    decreases |nals|
  {
    hide NalPayloads;
    var here := NalPayloads(nals[0], maxPayload);
    NalHasPayload(nals[0], maxPayload);
    if |nals| > 1 {
      if LastIsSent(nals) {
        LastHasItem(nals[1..], maxPayload, auEnd);
      }
      if i >= |here| {
        MarkerOnLast(nals[1..], maxPayload, auEnd, i - |here|);
      }
    }
  }

  lemma NalHasPayload(nal: seq<byte>, maxPayload: nat)
    requires maxPayload >= 2
    ensures NalPayloads(nal, maxPayload) != [] <==> |nal| >= 2
  {
  }

  lemma ParseBack(seqNo: u16, ts: u32, ssrc: u32, item: Item)
    ensures ParsePacket(Packet(seqNo, ts, ssrc, item))
            == Received(2, true, 96, item.marker, seqNo, ts, ssrc, item.payload)
  {
    var p := Packet(seqNo, ts, ssrc, item);
    assert p[2..4] == PutBe16(seqNo);
    assert p[4..8] == PutBe32(ts);
    assert p[8..12] == PutBe32(ssrc);
    assert p[12..] == item.payload;
  }

  lemma PayloadsInPackets(seqNo: u16, ts: u32, ssrc: u32, items: seq<Item>)
    ensures PayloadsIn(Packets(seqNo, ts, ssrc, items)) == PayloadsOf(items)
  {
    hide ParsePacket, PacketHeader;
    forall i | 0 <= i < |items|
      ensures PayloadsIn(Packets(seqNo, ts, ssrc, items))[i] == items[i].payload
    {
      ParseBack(NextSeq(seqNo, i), ts, ssrc, items[i]);
    }
  }

  predicate ValidPackets(packets: seq<seq<byte>>) {
    forall i :: 0 <= i < |packets| ==> |packets[i]| >= HDR_LEN
  }

  /** What a receiver gets out of a run of packets. */
  function NalsOf(packets: seq<seq<byte>>): seq<seq<byte>>
    requires ValidPackets(packets)
  {
    TakeAll(Depay([], None), PayloadsIn(packets)).nals
  }

  /**
   An access unit, or a part of one, as a byte stream of NALs behind start codes of either
   length: what the packets sent for it give back are, of the first 256 NALs ahead of the first
   empty one, those with a whole header.
   */
  lemma RtpRoundTrip(nals: seq<seq<byte>>, long: seq<bool>, maxPayload: nat, auEnd: bool,
                     seq0: u16, ts: u32, ssrc: u32)
    requires |nals| == |long| && maxPayload >= 2 && PlainTypes(nals)
    requires forall k :: 0 <= k < |nals| ==> Tidy(nals[k])
    ensures var packets := Packets(seq0, ts, ssrc, Items(FirstNals(ByteStream(nals, long)), maxPayload, auEnd));
      ValidPackets(packets) && NalsOf(packets) == Headed(InTable(UpToEmpty(nals)))
  {
    hide Tidy, Items, TakeAll, NalsFrom, ByteStream, UpToEmpty, Headed, PlainTypes;
    var s := ByteStream(nals, long);
    assert s[0..] == s;
    ScanByteStream(s, 0, nals, long);
    StillPlain(nals);
    var items := Items(FirstNals(s), maxPayload, auEnd);
    PayloadsInPackets(seq0, ts, ssrc, items);
    ItemsBack(Depay([], None), InTable(UpToEmpty(nals)), maxPayload, auEnd);
  }

  lemma StillPlain(nals: seq<seq<byte>>)
    requires PlainTypes(nals)
    ensures PlainTypes(InTable(UpToEmpty(nals)))
  {
    hide Carriable;
    IsFront(nals);
  }

  lemma {:induction false} IsFront(nals: seq<seq<byte>>)
    ensures UpToEmpty(nals) <= nals
    decreases |nals|
  {
    if nals != [] {
      IsFront(nals[1..]);
    }
  }

  /** All come back exactly if there are no more than 256 and each has a whole header. */
  lemma AllComeBackIff(nals: seq<seq<byte>>, long: seq<bool>, maxPayload: nat, auEnd: bool,
                       seq0: u16, ts: u32, ssrc: u32)
    requires |nals| == |long| && maxPayload >= 2 && PlainTypes(nals)
    requires forall k :: 0 <= k < |nals| ==> Tidy(nals[k])
    ensures var packets := Packets(seq0, ts, ssrc, Items(FirstNals(ByteStream(nals, long)), maxPayload, auEnd));
      && ValidPackets(packets)
      && (NalsOf(packets) == nals <==> |nals| <= 256 && forall k :: 0 <= k < |nals| ==> |nals[k]| >= 2)
  {
    hide Tidy, NalsOf, FirstNals, ByteStream, PlainTypes;
    RtpRoundTrip(nals, long, maxPayload, auEnd, seq0, ts, ssrc);
    var sent := InTable(UpToEmpty(nals));
    IsFront(nals);
    HeadedIff(sent);
    if |nals| <= MAX_NALS && forall k :: 0 <= k < |nals| ==> |nals[k]| >= 2 {
      NoneIsEmpty(nals);
    }
  }

  lemma {:induction false} HeadedIff(nals: seq<seq<byte>>)
    ensures |Headed(nals)| <= |nals|
    ensures |Headed(nals)| == |nals| <==> forall k :: 0 <= k < |nals| ==> |nals[k]| >= 2
    ensures (forall k :: 0 <= k < |nals| ==> |nals[k]| >= 2) ==> Headed(nals) == nals
    decreases |nals|
  {
    if nals != [] {
      var later := nals[1..];
      HeadedIff(later);
      assert (forall k :: 0 <= k < |later| ==> |later[k]| >= 2) ==>
        forall k :: 1 <= k < |nals| ==> nals[k] == later[k - 1] && |nals[k]| >= 2;
      assert forall k :: 0 <= k < |later| ==> later[k] == nals[k + 1];
    }
  }

  /** Of clean NALs, all come back, up to the 256th. */
  lemma CleanRoundTrip(nals: seq<seq<byte>>, long: seq<bool>, maxPayload: nat, auEnd: bool,
                       seq0: u16, ts: u32, ssrc: u32)
    requires |nals| == |long| && maxPayload >= 2
    requires forall k :: 0 <= k < |nals| ==> Clean(nals[k]) && Carriable(nals[k])
    ensures var packets := Packets(seq0, ts, ssrc, Items(FirstNals(ByteStream(nals, long)), maxPayload, auEnd));
      ValidPackets(packets) && NalsOf(packets) == InTable(nals)
  {
    hide Tidy, Carriable, NalsOf, FirstNals, ByteStream, UpToEmpty, Headed;
    NoneIsEmpty(nals);
    HeadedIff(InTable(nals));
    RtpRoundTrip(nals, long, maxPayload, auEnd, seq0, ts, ssrc);
  }

  /**
   An empty NAL in front, and nothing of what follows is sent, whatever it is, though
   common/timing_sei.c takes the empty NAL itself for a slice: its header would be the first 0 of
   the next start code.
   */
  lemma EmptyNalEndsAll(nal: seq<byte>, maxPayload: nat, auEnd: bool)
    requires Tidy(nal)
    ensures var s := ByteStream([[], nal], [false, false]);
      Items(FirstNals(s), maxPayload, auEnd) == [] && !HasVcl(s) && SeiSearch.SlicePos(s) == Some(0)
  {
    hide Tidy, NextBounds;
    var nals: seq<seq<byte>> := [[], nal];
    var long := [false, false];
    var s := ByteStream(nals, long);
    assert s[0..] == s;
    EmptyIsTidy();
    ScanByteStream(s, 0, nals, long);
    EmptyThenOne(nal);
    EmptyIsSlice(s, nal);
  }

  lemma EmptyIsTidy()
    ensures Tidy([])
  {
  }

  lemma EmptyThenOne(nal: seq<byte>)
    ensures ByteStream([[], nal], [false, false]) == [0, 0, 1] + ([0, 0, 1] + nal)
  {
    var nals: seq<seq<byte>> := [[], nal];
    assert nals[1..] == [nal] && [nal][1..] == [] && [false, false][1..] == [false] && [false][1..] == [];
    assert ByteStream([], []) == [];
    assert ByteStream([nal], [false]) == [0, 0, 1] + nal;
  }

  lemma EmptyIsSlice(s: seq<byte>, nal: seq<byte>)
    requires s == [0, 0, 1] + ([0, 0, 1] + nal)
    ensures SeiSearch.SlicePos(s) == Some(0)
  {
    assert StartCode(s, 0) == 3 && SeiSearch.TypeAt(s, 3) == 0;
    assert FindStart(s, 0) == 0;
  }

  /** Some packet says that the access unit ends exactly if it does and its last NAL is sent. */
  lemma MarkerIff(nals: seq<seq<byte>>, maxPayload: nat, auEnd: bool)
    requires maxPayload >= 2
    ensures var items := Items(nals, maxPayload, auEnd);
      (exists i :: 0 <= i < |items| && items[i].marker) <==> auEnd && LastIsSent(nals)
  {
    hide Items, LastIsSent;
    var items := Items(nals, maxPayload, auEnd);
    if LastIsSent(nals) {
      LastHasItem(nals, maxPayload, auEnd);
      MarkerOnLast(nals, maxPayload, auEnd, |items| - 1);
    }
    forall i | 0 <= i < |items| && items[i].marker
      ensures auEnd && LastIsSent(nals)
    {
      MarkerOnLast(nals, maxPayload, auEnd, i);
    }
  }

  lemma {:induction false} LastHasItem(nals: seq<seq<byte>>, maxPayload: nat, auEnd: bool)
    requires maxPayload >= 2 && LastIsSent(nals)
    ensures Items(nals, maxPayload, auEnd) != []
    decreases |nals|
  {
    hide NalPayloads;
    NalHasPayload(nals[0], maxPayload);
    if |nals| > 1 {
      LastHasItem(nals[1..], maxPayload, auEnd);
    }
  }

  /** And each of them says what it should. */
  lemma RtpHeaders(nals: seq<seq<byte>>, maxPayload: nat, auEnd: bool, seq0: u16, ts: u32, ssrc: u32, i: nat)
    requires maxPayload >= 2 && i < |Items(nals, maxPayload, auEnd)|
    ensures var packets := Packets(seq0, ts, ssrc, Items(nals, maxPayload, auEnd));
      && |packets[i]| >= HDR_LEN
      && ParsePacket(packets[i]).version == 2 && ParsePacket(packets[i]).plain
      && ParsePacket(packets[i]).payloadType == 96
      && ParsePacket(packets[i]).seqNo as int == (seq0 as int + i) % 0x1_0000
      && ParsePacket(packets[i]).ts == ts && ParsePacket(packets[i]).ssrc == ssrc
      && (ParsePacket(packets[i]).marker <==> auEnd && LastIsSent(nals) && i == |packets| - 1)
      && (maxPayload >= 4 ==> |ParsePacket(packets[i]).payload| <= maxPayload)
  {
    hide Items, ParsePacket, PacketHeader, LastIsSent;
    var items := Items(nals, maxPayload, auEnd);
    ParseBack(NextSeq(seq0, i), ts, ssrc, items[i]);
    MarkerOnLast(nals, maxPayload, auEnd, i);
    if maxPayload >= 4 {
      ItemsFit(nals, maxPayload, auEnd, i);
    }
  }

  lemma {:induction false} ItemsFit(nals: seq<seq<byte>>, maxPayload: nat, auEnd: bool, i: nat)
    requires maxPayload >= 4 && i < |Items(nals, maxPayload, auEnd)|
    ensures |Items(nals, maxPayload, auEnd)[i].payload| <= maxPayload
    decreases |nals|
  {
    hide NalPayloads;
    var here := NalPayloads(nals[0], maxPayload);
    if i >= |here| {
      ItemsFit(nals[1..], maxPayload, auEnd, i - |here|);
    } else {
      LimitIsKeptIff(maxPayload);
      assert |NalPayloads(nals[0], maxPayload)[i]| <= maxPayload;
    }
  }
}
