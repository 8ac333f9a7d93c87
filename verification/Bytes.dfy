/** Machine integers, and the byte orders the wire formats use. */
module Bytes {

  type byte = x: int | 0 <= x < 0x100
  type u16 = x: int | 0 <= x < 0x1_0000
  type u32 = x: int | 0 <= x < 0x1_0000_0000
  type u64 = x: int | 0 <= x < 0x1_0000_0000_0000_0000

  datatype Option<+T> = None | Some(value: T)

  function GetLe16(s: seq<byte>, at: nat): u16
    requires at + 2 <= |s|
  {
    s[at] as int + 0x100 * (s[at + 1] as int)
  }

  function GetLe32(s: seq<byte>, at: nat): u32
    requires at + 4 <= |s|
  {
    GetLe16(s, at) as int + 0x1_0000 * (GetLe16(s, at + 2) as int)
  }

  function GetLe64(s: seq<byte>, at: nat): u64
    requires at + 8 <= |s|
  {
    GetLe32(s, at) as int + 0x1_0000_0000 * (GetLe32(s, at + 4) as int)
  }

  function GetBe32(s: seq<byte>, at: nat): u32
    requires at + 4 <= |s|
  {
    0x1_0000 * (GetBe16(s, at) as int) + GetBe16(s, at + 2)
  }

  function GetBe16(s: seq<byte>, at: nat): u16
    requires at + 2 <= |s|
  {
    0x100 * (s[at] as int) + s[at + 1]
  }

  function PutLe16(x: u16): (s: seq<byte>)
    ensures |s| == 2 && GetLe16(s, 0) == x
  {
    [x % 0x100, x / 0x100]
  }

  function PutLe32(x: u32): (s: seq<byte>)
    ensures |s| == 4 && GetLe32(s, 0) == x
  {
    PutLe16(x % 0x1_0000) + PutLe16(x / 0x1_0000)
  }

  function PutLe64(x: u64): (s: seq<byte>)
    ensures |s| == 8 && GetLe64(s, 0) == x
  {
    PutLe32(x % 0x1_0000_0000) + PutLe32(x / 0x1_0000_0000)
  }

  function PutBe16(x: u16): (s: seq<byte>)
    ensures |s| == 2 && GetBe16(s, 0) == x
  {
    [x / 0x100, x % 0x100]
  }

  function PutBe32(x: u32): (s: seq<byte>)
    ensures |s| == 4 && GetBe32(s, 0) == x
  {
    PutBe16(x / 0x1_0000) + PutBe16(x % 0x1_0000)
  }

  lemma Le16Inside(s: seq<byte>, at: nat)
    requires at + 2 <= |s|
    ensures GetLe16(s, at) == GetLe16(s[at..at + 2], 0)
  {
  }

  lemma Le32Inside(s: seq<byte>, at: nat)
    requires at + 4 <= |s|
    ensures GetLe32(s, at) == GetLe32(s[at..at + 4], 0)
  {
  }

  lemma Le64Inside(s: seq<byte>, at: nat)
    requires at + 8 <= |s|
    ensures GetLe64(s, at) == GetLe64(s[at..at + 8], 0)
  {
  }

  lemma Be32Inside(s: seq<byte>, at: nat)
    requires at + 4 <= |s|
    ensures GetBe32(s, at) == GetBe32(s[at..at + 4], 0)
  {
  }

  function Pow2(n: nat): nat { if n == 0 then 1 else 2 * Pow2(n - 1) }

  function One(b: bool): nat { if b then 1 else 0 }

  lemma Regroup<T>(a: seq<T>, b: seq<T>, c: seq<T>)
    ensures a + b + c == a + (b + c)
  {
  }

  /** Concatenation of a list of byte strings. */
  function Concat(parts: seq<seq<byte>>): seq<byte>
  {
    if parts == [] then [] else parts[0] + Concat(parts[1..])
  }

  lemma {:induction false} ConcatAppend(a: seq<seq<byte>>, b: seq<seq<byte>>)
    ensures Concat(a + b) == Concat(a) + Concat(b)
  {
    if a == [] {
      assert a + b == b;
    } else {
      assert (a + b)[0] == a[0] && (a + b)[1..] == a[1..] + b;
      ConcatAppend(a[1..], b);
    }
  }

  lemma ConcatSnoc(a: seq<seq<byte>>, x: seq<byte>)
    ensures Concat(a + [x]) == Concat(a) + x
  {
    ConcatAppend(a, [x]);
    assert Concat([x]) == x + Concat([]);
  }
}
