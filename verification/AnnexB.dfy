/**
 NAL units in the byte stream format of Annex B of Rec. ITU-T H.265, as rx/rtp_h265.c and
 common/timing_sei.c look for them.
 */
module AnnexB {
  import opened Bytes

  /** The length of the start code at i: 3, 4, or 0 if there is none. */
  function StartCode(s: seq<byte>, i: nat): (n: nat)
    ensures n == 0 || n == 3 || n == 4
    ensures i + n <= |s| || n == 0
  {
    if i + 2 < |s| && s[i] == 0 && s[i + 1] == 0 then
      if s[i + 2] == 1 then 3
      else if i + 3 < |s| && s[i + 2] == 0 && s[i + 3] == 1 then 4
      else 0
    else 0
  }

  /** The first start code at or after from, or the end. */
  function FindStart(s: seq<byte>, from: nat): (i: nat)
    requires from <= |s|
    ensures from <= i <= |s|
    decreases |s| - from
  {
    if from == |s| || StartCode(s, from) > 0 then from else FindStart(s, from + 1)
  }

  lemma {:induction false} FindStartFirst(s: seq<byte>, from: nat)
    requires from <= |s|
    ensures var i := FindStart(s, from);
      && (i < |s| ==> StartCode(s, i) > 0)
      && (forall j :: from <= j < i ==> StartCode(s, j) == 0)
    decreases |s| - from
  {
    if !(from == |s| || StartCode(s, from) > 0) {
      FindStartFirst(s, from + 1);
    }
  }

  lemma {:induction false} FindStartIs(s: seq<byte>, from: nat, i: nat)
    requires from <= i <= |s|
    requires forall j :: from <= j < i ==> StartCode(s, j) == 0
    requires i == |s| || StartCode(s, i) > 0
    ensures FindStart(s, from) == i
    decreases i - from
  {
    if from < i {
      assert StartCode(s, from) == 0;
      FindStartIs(s, from + 1, i);
    }
  }

  /** find_start_code() of common/timing_sei.c, and the scan in next_nal() of rx/rtp_h265.c. */
  method FindStartCode(s: seq<byte>, from: nat) returns (pos: nat, scLen: nat)
    requires from <= |s|
    ensures pos == FindStart(s, from) && scLen == StartCode(s, pos)
  {
    var i := from;
    while i + 2 < |s|
      invariant from <= i <= |s|
      invariant FindStart(s, i) == FindStart(s, from)
    {
      if s[i] == 0 && s[i + 1] == 0 {
        if s[i + 2] == 1 {
          return i, 3;
        }
        if i + 3 < |s| && s[i + 2] == 0 && s[i + 3] == 1 {
          return i, 4;
        }
      }
      i := i + 1;
    }
    FindStartIs(s, i, |s|);
    pos, scLen := |s|, 0;
  }

  /** The bounds of the NAL behind the next start code at or after from. */
  function NextBounds(s: seq<byte>, from: nat): (r: Option<(nat, nat)>)
    requires from <= |s|
    ensures r.Some? ==> from < r.value.0 < r.value.1 <= |s|
  {
    FindStartFirst(s, from);
    var i := FindStart(s, from);
    if i == |s| then None
    else
      var start := i + StartCode(s, i);
      var end := FindStart(s, start);
      if end <= start then None else Some((start, end))
  }

  /** All NALs from an offset on. An empty NAL ends the list. */
  function NalsFrom(s: seq<byte>, from: nat): seq<seq<byte>>
    requires from <= |s|
    decreases |s| - from
  {
    match NextBounds(s, from)
    case None => []
    case Some((start, end)) => [s[start..end]] + NalsFrom(s, end)
  }

  /** next_nal() */
  method NextNal(s: seq<byte>, from: nat) returns (found: bool, nal: seq<byte>, next: nat)
    requires from <= |s|
    ensures found <==> NextBounds(s, from).Some?
    ensures found ==> nal == s[NextBounds(s, from).value.0..NextBounds(s, from).value.1]
    ensures next == if found then NextBounds(s, from).value.1 else from
  {
    FindStartFirst(s, from);
    var i, scLen := FindStartCode(s, from);
    if scLen == 0 {
      return false, [], from;
    }
    var end, _ := FindStartCode(s, i + scLen);
    if end <= i + scLen {
      return false, [], from;
    }
    return true, s[i + scLen..end], end;
  }

  predicate IsVcl(nal: seq<byte>) {
    nal != [] && nal[0] / 2 % 64 <= 31
  }

  ghost predicate HasVcl(s: seq<byte>) {
    exists k :: 0 <= k < |NalsFrom(s, 0)| && IsVcl(NalsFrom(s, 0)[k])
  }

  /** rtp_h265_has_vcl() */
  method ScanForVcl(s: seq<byte>) returns (vcl: bool)
    ensures vcl <==> HasVcl(s)
  {
    hide NextBounds;
    var cursor := 0;
    ghost var seen: seq<seq<byte>> := [];
    while true
      invariant cursor <= |s|
      invariant NalsFrom(s, 0) == seen + NalsFrom(s, cursor)
      invariant forall k :: 0 <= k < |seen| ==> !IsVcl(seen[k])
      decreases |s| - cursor
    {
      var found, nal, next := NextNal(s, cursor);
      if !found {
        return false;
      }
      if nal[0] / 2 % 64 <= 31 {
        assert NalsFrom(s, 0)[|seen|] == nal;
        return true;
      }
      seen := seen + [nal];
      cursor := next;
    }
  }

  // Building a byte stream, and finding the NALs again

  /** No start code inside, and none completed with what follows. */
  predicate Tidy(nal: seq<byte>) {
    && (nal != [] ==> nal[|nal| - 1] != 0)
    && forall i :: 0 <= i < |nal| - 2 ==> !(nal[i] == 0 && nal[i + 1] == 0 && nal[i + 2] == 1)
  }

  /** With its whole header, too. */
  predicate Clean(nal: seq<byte>) {
    |nal| >= 2 && Tidy(nal)
  }

  function StartBytes(long: bool): seq<byte> {
    if long then [0, 0, 0, 1] else [0, 0, 1]
  }

  /** NALs behind start codes, of either length. */
  function ByteStream(nals: seq<seq<byte>>, long: seq<bool>): seq<byte>
    requires |nals| == |long|
  {
    if nals == [] then [] else StartBytes(long[0]) + nals[0] + ByteStream(nals[1..], long[1..])
  }

  /** A NAL that lies in s from st on, in front of another start code or the end, ends there. */
  lemma NalEnds(s: seq<byte>, st: nat, nal: seq<byte>)
    requires Tidy(nal) && st + |nal| <= |s| && s[st..st + |nal|] == nal
    requires st + |nal| == |s| || StartCode(s, st + |nal|) > 0
    ensures FindStart(s, st) == st + |nal|
  {
    forall j | st <= j < st + |nal|
      ensures StartCode(s, j) == 0
    {
      assert forall k :: st <= k < st + |nal| ==> s[k] == nal[k - st];
    }
    FindStartIs(s, st, st + |nal|);
  }

  lemma Layout(s: seq<byte>, from: nat, a: seq<byte>, b: seq<byte>, c: seq<byte>)
    requires from <= |s| && s[from..] == a + b + c
    ensures from + |a| + |b| <= |s|
    ensures s[from..from + |a|] == a
    ensures s[from + |a|..from + |a| + |b|] == b
    ensures s[from + |a| + |b|..] == c
  {
    var t := s[from..];
    assert s[from..from + |a|] == t[..|a|];
    assert s[from + |a|..from + |a| + |b|] == t[|a|..|a| + |b|];
    assert s[from + |a| + |b|..] == t[|a| + |b|..];
  }

  lemma StartCodeHere(s: seq<byte>, from: nat, long: bool)
    requires from + |StartBytes(long)| <= |s| && s[from..from + |StartBytes(long)|] == StartBytes(long)
    ensures StartCode(s, from) == |StartBytes(long)|
  {
    var sc := StartBytes(long);
    assert forall k :: 0 <= k < |sc| ==> s[from + k] == sc[k];
  }

  /** The NALs ahead of the first empty one. */
  function UpToEmpty(nals: seq<seq<byte>>): seq<seq<byte>> {
    if nals == [] || nals[0] == [] then [] else [nals[0]] + UpToEmpty(nals[1..])
  }

  lemma {:induction false} NoneIsEmpty(nals: seq<seq<byte>>)
    requires forall k :: 0 <= k < |nals| ==> nals[k] != []
    ensures UpToEmpty(nals) == nals
    decreases |nals|
  {
    if nals != [] {
      NoneIsEmpty(nals[1..]);
    }
  }

  /** NALs of any length: the scan ends in front of an empty one. */
  lemma {:induction false} ScanByteStream(s: seq<byte>, from: nat, nals: seq<seq<byte>>, long: seq<bool>)
    requires |nals| == |long| && from <= |s| && s[from..] == ByteStream(nals, long)
    requires forall k :: 0 <= k < |nals| ==> Tidy(nals[k])
    ensures NalsFrom(s, from) == UpToEmpty(nals)
    ensures nals != [] ==> StartCode(s, from) > 0
    ensures nals == [] ==> from == |s|
    decreases |nals|
  {
    hide StartCode, Tidy, NextBounds, StartBytes;
    if nals == [] {
      assert |s[from..]| == 0;
      NothingLeft(s, from);
    } else {
      var sc := StartBytes(long[0]);
      Layout(s, from, sc, nals[0], ByteStream(nals[1..], long[1..]));
      var st := from + |sc|;
      var end := st + |nals[0]|;
      ScanByteStream(s, end, nals[1..], long[1..]);
      NalHere(s, from, long[0], nals[0]);
    }
  }

  lemma NothingLeft(s: seq<byte>, from: nat)
    requires from == |s|
    ensures NextBounds(s, from) == None
  {
  }

  lemma NalHere(s: seq<byte>, from: nat, long: bool, nal: seq<byte>)
    requires var st := from + |StartBytes(long)|;
      && st + |nal| <= |s| && s[from..st] == StartBytes(long) && s[st..st + |nal|] == nal
      && (st + |nal| == |s| || StartCode(s, st + |nal|) > 0)
    requires Tidy(nal)
    ensures var st := from + |StartBytes(long)|;
      StartCode(s, from) > 0 && NextBounds(s, from) == if nal == [] then None else Some((st, st + |nal|))
  {
    StartCodeHere(s, from, long);
    NalEnds(s, from + |StartBytes(long)|, nal);
  }

  /** Where all are clean, the scan finds all. */
  lemma ScanClean(nals: seq<seq<byte>>, long: seq<bool>)
    requires |nals| == |long| && forall k :: 0 <= k < |nals| ==> Clean(nals[k])
    ensures NalsFrom(ByteStream(nals, long), 0) == nals
  {
    hide ByteStream, NalsFrom, UpToEmpty;
    var s := ByteStream(nals, long);
    assert s[0..] == s;
    NoneIsEmpty(nals);
    ScanByteStream(s, 0, nals, long);
  }
}
