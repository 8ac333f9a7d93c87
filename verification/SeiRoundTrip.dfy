/** What timing_sei_insert() puts into an access unit, timing_sei_parse() gets out again. */
module SeiRoundTrip {
  import opened Bytes
  import opened AnnexB
  import opened TimingSei
  import opened SeiSearch

  /** Our own message is recognised, with every field intact, exactly if it has our version. */
  lemma OwnMessage(t: Timing)
    ensures Own(Escape(0, Rbsp(t))) == if t.version == VERSION then Some(t) else None
  {
    hide EncodeTiming, DecodeTiming, Escape, Unescape;
    UnescapeEscaped(0, Rbsp(t));
    DecodeEncoded(t);
    RbspParts(t);
  }

  lemma RbspParts(t: Timing)
    ensures var r := Rbsp(t);
      && r[0] == USER_DATA_UNREGISTERED && r[1] == PAYLOAD_SIZE && r[2..18] == UUID
      && r[18] == t.version && r[18..50] == EncodeTiming(t)
  {
    var r := Rbsp(t);
    assert r[18..50] == EncodeTiming(t);
    assert r[18] == EncodeTiming(t)[0];
  }

  // Start codes around the insertion

  /** s with a start code at p, and what comes of it when something is inserted there. */
  predicate InsertedAt(s: seq<byte>, s': seq<byte>, p: nat, nal: seq<byte>) {
    && p < |s| && StartCode(s, p) > 0 && Clean(nal)
    && s' == s[..p] + (StartBytes(true) + nal) + s[p..]
  }

  lemma BytesBefore(s: seq<byte>, s': seq<byte>, p: nat, nal: seq<byte>, i: nat)
    requires InsertedAt(s, s', p, nal) && i < p
    ensures |s'| == |s| + 4 + |nal| && s'[i] == s[i]
  {
  }

  lemma BytesAt(s: seq<byte>, s': seq<byte>, p: nat, nal: seq<byte>)
    requires InsertedAt(s, s', p, nal)
    ensures |s'| == |s| + 4 + |nal|
    ensures s'[p..p + 4] == StartBytes(true) && s'[p + 4..p + 4 + |nal|] == nal
    ensures s'[p] == 0 && s'[p + 1] == 0 && s'[p + 2] == 0 && s'[p + 3] == 1
    ensures s'[p + 4 + |nal|..] == s[p..]
  {
    assert s'[p..p + 4] == StartBytes(true);
    assert forall k :: 0 <= k < 4 ==> s'[p + k] == StartBytes(true)[k];
  }

  /** Ahead of the insertion the start codes are the same, except that one may end up right at p. */
  lemma CodesBefore(s: seq<byte>, s': seq<byte>, p: nat, nal: seq<byte>, i: nat)
    requires InsertedAt(s, s', p, nal) && i < p
    requires StartCode(s, i) == 0 || i + StartCode(s, i) <= p
    ensures StartCode(s', i) == StartCode(s, i)
  {
    BytesAt(s, s', p, nal);
    BytesBefore(s, s', p, nal, i);
    if i + 1 < p { BytesBefore(s, s', p, nal, i + 1); }
    if i + 2 < p { BytesBefore(s, s', p, nal, i + 2); }
    if i + 3 < p { BytesBefore(s, s', p, nal, i + 3); }
    assert s[p] == 0 && s[p + 1] == 0;
  }

  lemma FindBefore(s: seq<byte>, s': seq<byte>, p: nat, nal: seq<byte>, from: nat)
    requires InsertedAt(s, s', p, nal) && from <= p
    requires FindStart(s, from) <= p
    requires FindStart(s, from) < p ==> FindStart(s, from) + StartCode(s, FindStart(s, from)) <= p
    ensures FindStart(s', from) == FindStart(s, from)
  {
    var r := FindStart(s, from);
    FindStartFirst(s, from);
    forall j | from <= j < r
      ensures StartCode(s', j) == 0
    {
      CodesBefore(s, s', p, nal, j);
    }
    BytesAt(s, s', p, nal);
    if r < p {
      CodesBefore(s, s', p, nal, r);
    } else {
      StartCodeHere(s', p, true);
    }
    FindStartIs(s', from, r);
  }

  lemma SuffixCode(s: seq<byte>, i: nat)
    requires i <= |s|
    ensures StartCode(s[i..], 0) == StartCode(s, i)
  {
  }

  /** The inserted NAL ends where what was there before begins. */
  lemma InsertedEnds(s: seq<byte>, s': seq<byte>, p: nat, nal: seq<byte>)
    requires InsertedAt(s, s', p, nal)
    ensures StartCode(s', p) == 4 && p + 4 + |nal| < |s'|
    ensures FindStart(s', p + 4) == p + 4 + |nal|
    ensures s'[p + 4..p + 4 + |nal|] == nal
  {
    BytesAt(s, s', p, nal);
    StartCodeHere(s', p, true);
    SuffixCode(s, p);
    SuffixCode(s', p + 4 + |nal|);
    NalEnds(s', p + 4, nal);
  }

  // The chain of NALs that leads to the first slice

  /** pos is a start code short of p, and the NAL behind it is no slice. */
  lemma ChainStep(s: seq<byte>, pos: nat, p: nat)
    requires pos <= |s| && FirstSlice(s, pos) == Some(p) && pos != p
    ensures pos < |s| && StartCode(s, pos) > 0
    ensures var hdr := pos + StartCode(s, pos);
      && hdr < |s| && TypeAt(s, hdr) > 31 && FindStart(s, hdr) <= p
      && FirstSlice(s, FindStart(s, hdr)) == Some(p)
      && hdr < p && (FindStart(s, hdr) < p ==> FindStart(s, hdr) + StartCode(s, FindStart(s, hdr)) <= p)
  {
    var hdr := pos + StartCode(s, pos);
    if hdr < |s| {
      var next := FindStart(s, hdr);
      FindStartFirst(s, hdr);
      SliceHasCode(s, next, p);
      CodeIsZero(s, p);
    }
  }

  lemma CodeIsZero(s: seq<byte>, p: nat)
    requires StartCode(s, p) > 0
    ensures p + 2 < |s| && s[p] == 0
  {
  }

  lemma {:induction false} SliceHasCode(s: seq<byte>, pos: nat, p: nat)
    requires pos <= |s| && FirstSlice(s, pos) == Some(p)
    ensures pos < |s| && StartCode(s, pos) > 0 && StartCode(s, p) > 0
    ensures pos < p ==> pos + StartCode(s, pos) <= p
    decreases |s| - pos
  {
    var hdr := pos + StartCode(s, pos);
    if pos != p {
      SliceHasCode(s, FindStart(s, hdr), p);
    }
  }

  /** Parsing from a start code ahead of the first slice. */
  lemma {:induction false} ParseInserted(s: seq<byte>, s': seq<byte>, pos: nat, p: nat, t: Timing)
    requires pos <= |s| && FirstSlice(s, pos) == Some(p) && t.version == VERSION
    requires InsertedAt(s, s', p, SeiNal(t, PREFIX_SEI))
    ensures pos <= |s'|
    ensures ParseUpTo(s', pos, false, |s'|)
            == (var own := ParseUpTo(s, pos, false, p); if own.Some? then own else Some(t))
    decreases |s| - pos
  {
    hide Own, StartCode, Escape, Rbsp, InsertedAt;
    var nal := SeiNal(t, PREFIX_SEI);
    if pos == p {
      InsertedEnds(s, s', p, nal);
      ParseOwn(s', p, t, false, PREFIX_SEI, |s'|);
    } else {
      ChainStep(s, pos, p);
      ChainSame(s, s', pos, p, nal);
      var hdr := pos + StartCode(s, pos);
      ParseInserted(s, s', FindStart(s, hdr), p, t);
    }
  }

  /** The NAL at a start code ahead of the insertion looks the same before and after. */
  lemma ChainSame(s: seq<byte>, s': seq<byte>, pos: nat, p: nat, nal: seq<byte>)
    requires InsertedAt(s, s', p, nal) && pos < p && FirstSlice(s, pos) == Some(p)
    ensures pos < |s'| && 0 < StartCode(s, pos) == StartCode(s', pos) && pos + StartCode(s, pos) < |s'|
    ensures var hdr := pos + StartCode(s, pos);
      && hdr < p && FindStart(s', hdr) == FindStart(s, hdr) <= p && s'[hdr] == s[hdr]
      && (hdr + 2 < FindStart(s, hdr) ==> s'[hdr + 2..FindStart(s, hdr)] == s[hdr + 2..FindStart(s, hdr)])
  {
    hide StartCode, FirstSlice, FindStart, InsertedAt;
    ChainStep(s, pos, p);
    var hdr := pos + StartCode(s, pos);
    CodesBefore(s, s', p, nal, pos);
    FindBefore(s, s', p, nal, hdr);
    BytesBefore(s, s', p, nal, hdr);
    if hdr + 2 < FindStart(s, hdr) {
      SliceBefore(s, s', p, nal, hdr + 2, FindStart(s, hdr));
    }
  }

  lemma SliceBefore(s: seq<byte>, s': seq<byte>, p: nat, nal: seq<byte>, i: nat, j: nat)
    requires InsertedAt(s, s', p, nal) && i <= j <= p
    ensures j <= |s'| && s'[i..j] == s[i..j]
  {
  }

  /** A start code with our SEI behind it, of the kind that is wanted there. */
  lemma ParseOwn(s: seq<byte>, p: nat, t: Timing, seen: bool, nalType: byte, limit: nat)
    requires 32 <= nalType < 64 && t.version == VERSION && RightKind(seen, nalType)
    requires var nal := SeiNal(t, nalType);
      && p + 4 + |nal| <= |s| && p < limit && StartCode(s, p) == 4
      && FindStart(s, p + 4) == p + 4 + |nal| && s[p + 4..p + 4 + |nal|] == nal
    ensures ParseUpTo(s, p, seen, limit) == Some(t)
  {
    hide Own, Escape, Rbsp;
    OwnMessage(t);
    var nal := SeiNal(t, nalType);
    var e := Escape(0, Rbsp(t));
    assert s[p + 4] == nal[0] == nalType * 2;
    assert s[p + 6..p + 4 + |nal|] == nal[2..] == e;
    NonEmptySei(t);
  }

  lemma NonEmptySei(t: Timing)
    ensures Escape(0, Rbsp(t)) != []
  {
    EscapedLast(0, Rbsp(t));
  }

  /**
   For every buffer with a slice: after inserting, parsing returns what was inserted, unless
   a message of ours was there ahead of the first slice already, which is then returned as
   before. Cutting the insertion out again restores the buffer.
   */
  lemma InsertThenParse(s: seq<byte>, t: Timing)
    requires SlicePos(s).Some? && t.version == VERSION
    ensures var p := SlicePos(s).value;
      var s' := Inserted(s, p, Sei(t, PREFIX_SEI));
      && Parse(s') == (var own := ParseUpTo(s, FindStart(s, 0), false, p); if own.Some? then own else Some(t))
      && s'[..p] + s'[p + |Sei(t, PREFIX_SEI)|..] == s
  {
    hide StartCode, ParseUpTo, SeiNal, InsertedAt, FirstSlice, FindStart;
    var p := SlicePos(s).value;
    var nal := SeiNal(t, PREFIX_SEI);
    var s' := Inserted(s, p, Sei(t, PREFIX_SEI));
    SeiIsSafe(t, PREFIX_SEI);
    SliceHasCode(s, FindStart(s, 0), p);
    IsInserted(s, p, nal);
    FindBefore(s, s', p, nal, 0);
    ParseInserted(s, s', FindStart(s, 0), p, t);
    CutOut(s, p, Sei(t, PREFIX_SEI));
  }

  lemma IsInserted(s: seq<byte>, p: nat, nal: seq<byte>)
    requires p < |s| && StartCode(s, p) > 0 && Clean(nal)
    ensures InsertedAt(s, Inserted(s, p, StartBytes(true) + nal), p, nal)
  {
  }

  lemma CutOut(s: seq<byte>, p: nat, ins: seq<byte>)
    requires p <= |s|
    ensures var s' := Inserted(s, p, ins); |s'| == |s| + |ins| && s'[..p] + s'[p + |ins|..] == s
  {
  }

  // Access units as lists of NALs

  /** What parsing finds in a list of NALs. */
  function ParseNals(nals: seq<seq<byte>>, seen: bool): Option<Timing>
    requires forall k :: 0 <= k < |nals| ==> |nals[k]| >= 2
    decreases |nals|
  {
    if nals == [] then None
    else
      var nal := nals[0];
      var seen' := seen || nal[0] / 2 % 64 <= 31;
      if |nal| > 2 && RightKind(seen', nal[0] / 2 % 64) && Own(nal[2..]).Some? then Own(nal[2..])
      else ParseNals(nals[1..], seen')
  }

  lemma {:induction false} ParseStream(s: seq<byte>, from: nat, nals: seq<seq<byte>>, long: seq<bool>, seen: bool)
    requires |nals| == |long| && from <= |s| && s[from..] == ByteStream(nals, long)
    requires forall k :: 0 <= k < |nals| ==> Clean(nals[k])
    ensures forall k :: 0 <= k < |nals| ==> |nals[k]| >= 2
    ensures ParseUpTo(s, from, seen, |s|) == ParseNals(nals, seen)
    ensures nals == [] ==> from == |s|
    ensures nals != [] ==> StartCode(s, from) > 0
    decreases |nals|
  {
    hide StartCode, Clean, StartBytes, Own, ParseUpTo, RightKind;
    CleanIsLong(nals);
    if nals == [] {
      assert |s[from..]| == 0;
      ParseNothing(s, from, seen);
    } else {
      Layout(s, from, StartBytes(long[0]), nals[0], ByteStream(nals[1..], long[1..]));
      var end := from + |StartBytes(long[0])| + |nals[0]|;
      ParseStream(s, end, nals[1..], long[1..], seen || nals[0][0] / 2 % 64 <= 31);
      ParseHead(s, from, long[0], nals[0], seen);
    }
  }

  lemma ParseNothing(s: seq<byte>, from: nat, seen: bool)
    requires from == |s|
    ensures ParseUpTo(s, from, seen, |s|) == None
  {
  }

  /** One turn of the parser over a clean NAL. */
  lemma ParseHead(s: seq<byte>, from: nat, long: bool, nal: seq<byte>, seen: bool)
    requires var st := from + |StartBytes(long)|;
      && st + |nal| <= |s| && s[from..st] == StartBytes(long) && s[st..st + |nal|] == nal
      && (st + |nal| == |s| || StartCode(s, st + |nal|) > 0)
    requires Clean(nal)
    ensures |nal| >= 2 && StartCode(s, from) > 0
    ensures var seen' := seen || nal[0] / 2 % 64 <= 31;
      ParseUpTo(s, from, seen, |s|)
      == if |nal| > 2 && RightKind(seen', nal[0] / 2 % 64) && Own(nal[2..]).Some? then Own(nal[2..])
         else ParseUpTo(s, from + |StartBytes(long)| + |nal|, seen', |s|)
  {
    hide Own, RightKind;
    var st := from + |StartBytes(long)|;
    var end := st + |nal|;
    StartCodeHere(s, from, long);
    NalEnds(s, st, nal);
    assert s[st] == s[st..end][0];
    if |nal| > 2 {
      assert s[st + 2..end] == s[st..end][2..];
    }
  }

  lemma CleanIsLong(nals: seq<seq<byte>>)
    requires forall k :: 0 <= k < |nals| ==> Clean(nals[k])
    ensures forall k :: 0 <= k < |nals| ==> |nals[k]| >= 2
  {
  }

  predicate AnyVcl(nals: seq<seq<byte>>) {
    exists k :: 0 <= k < |nals| && IsVcl(nals[k])
  }

  lemma {:induction false} ParseNalsBehind(a: seq<seq<byte>>, nal: seq<byte>, b: seq<seq<byte>>, seen: bool)
    requires forall k :: 0 <= k < |a| ==> |a[k]| >= 2
    requires forall k :: 0 <= k < |b| ==> |b[k]| >= 2
    requires |nal| > 2 && nal[0] / 2 % 64 > 31
    requires RightKind(seen || AnyVcl(a), nal[0] / 2 % 64) && Own(nal[2..]).Some?
    ensures forall k :: 0 <= k < |a + [nal] + b| ==> |(a + [nal] + b)[k]| >= 2
    ensures ParseNals(a + [nal] + b, seen)
            == if ParseNals(a, seen).Some? then ParseNals(a, seen) else Own(nal[2..])
    decreases |a|
  {
    hide Own, RightKind;
    var all := a + [nal] + b;
    if a == [] {
      assert all[0] == nal;
    } else {
      var seen' := seen || a[0][0] / 2 % 64 <= 31;
      assert all[0] == a[0] && all[1..] == a[1..] + [nal] + b;
      assert AnyVcl(a) <==> a[0][0] / 2 % 64 <= 31 || AnyVcl(a[1..]) by {
        if AnyVcl(a) && a[0][0] / 2 % 64 > 31 {
          var k :| 0 <= k < |a| && a[k][0] / 2 % 64 <= 31;
          assert a[1..][k - 1] == a[k];
        }
        if AnyVcl(a[1..]) {
          var k :| 0 <= k < |a[1..]| && a[1..][k][0] / 2 % 64 <= 31;
          assert a[k + 1] == a[1..][k];
        }
      }
      ParseNalsBehind(a[1..], nal, b, seen');
    }
  }

  /**
   The suffix form is found wherever it stands after a slice, and the prefix form wherever it
   stands ahead of the first one, if no message of ours comes before it.
   */
  lemma SeiIsFound(a: seq<seq<byte>>, b: seq<seq<byte>>, long: seq<bool>, t: Timing, nalType: byte)
    requires forall k :: 0 <= k < |a| ==> Clean(a[k])
    requires forall k :: 0 <= k < |b| ==> Clean(b[k])
    requires |long| == |a| + 1 + |b| && t.version == VERSION
    requires forall k :: 0 <= k < |a| ==> |a[k]| >= 2
    requires nalType == if AnyVcl(a) then SUFFIX_SEI else PREFIX_SEI
    ensures Parse(ByteStream(a + [SeiNal(t, nalType)] + b, long))
            == if ParseNals(a, false).Some? then ParseNals(a, false) else Some(t)
  {
    hide Own, Clean, SeiNal, ParseNals, AnyVcl, StartCode;
    var nal := SeiNal(t, nalType);
    var nals := a + [nal] + b;
    var s := ByteStream(nals, long);
    SeiIsSafe(t, nalType);
    SeiBody(t, nalType);
    OwnMessage(t);
    assert forall k :: 0 <= k < |nals| ==> Clean(nals[k]);
    CleanIsLong(b);
    assert s[0..] == s;
    ParseStream(s, 0, nals, long, false);
    StartAtZero(s);
    ParseNalsBehind(a, nal, b, false);
  }

  lemma SeiBody(t: Timing, nalType: byte)
    requires 32 <= nalType < 64
    ensures var nal := SeiNal(t, nalType);
      |nal| > 2 && nal[0] / 2 % 64 == nalType && nal[2..] == Escape(0, Rbsp(t))
  {
    hide Escape, Rbsp;
    NonEmptySei(t);
  }

  lemma StartAtZero(s: seq<byte>)
    requires StartCode(s, 0) > 0
    ensures FindStart(s, 0) == 0
  {
  }
}
