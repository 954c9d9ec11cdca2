/** Bytes, fixed-width words in network byte order, and small result types. */
module Bytes {

  type byte = x: int | 0 <= x < 0x100

  type u16 = x: int | 0 <= x < 0x1_0000

  type u32 = x: int | 0 <= x < 0x1_0000_0000

  datatype Option<+T> = None | Some(value: T)

  function Min(a: int, b: int): int {
    if a <= b then a else b
  }

  function Zeros(n: nat): (r: seq<byte>)
    ensures |r| == n && forall i :: 0 <= i < n ==> r[i] == 0
  {
    seq(n, _ => 0 as byte)
  }

  /** `data` followed by as many zero bytes as are missing from `width`. */
  function Pad(data: seq<byte>, width: nat): (r: seq<byte>)
    requires |data| <= width
    ensures |r| == width && r[..|data|] == data
    ensures forall i :: |data| <= i < width ==> r[i] == 0
  {
    data + Zeros(width - |data|)
  }

  /** Most significant byte first. */
  function U16(n: u16): (r: seq<byte>)
    ensures |r| == 2 && r[0] as int * 0x100 + r[1] == n
  {
    [n / 0x100, n % 0x100]
  }

  function U32(n: u32): (r: seq<byte>)
    ensures |r| == 4
    ensures r[0] as int * 0x100_0000 + r[1] as int * 0x1_0000 + r[2] as int * 0x100 + r[3] == n
  {
    U16(n / 0x1_0000) + U16(n % 0x1_0000)
  }

  function ReadU16(s: seq<byte>): u16
    requires |s| == 2
  {
    s[0] as int * 0x100 + s[1] as int
  }

  function ReadU32(s: seq<byte>): u32
    requires |s| == 4
  {
    ReadU16(s[..2]) as int * 0x1_0000 + ReadU16(s[2..])
  }

  lemma U16RoundTrip(n: u16)
    ensures ReadU16(U16(n)) == n
  {}

  lemma U32RoundTrip(n: u32)
    ensures ReadU32(U32(n)) == n
  {
    U16RoundTrip(n / 0x1_0000);
    U16RoundTrip(n % 0x1_0000);
    assert U32(n)[..2] == U16(n / 0x1_0000) && U32(n)[2..] == U16(n % 0x1_0000);
  }

  /** The bytes of a text in ASCII. */
  function Ascii(s: string): (r: seq<byte>)
    requires forall i :: 0 <= i < |s| ==> s[i] as int < 0x80
    ensures |r| == |s| && forall i :: 0 <= i < |s| ==> r[i] == s[i] as int
  {
    seq(|s|, i requires 0 <= i < |s| => s[i] as int)
  }

  function Flatten<T>(parts: seq<seq<T>>): seq<T> {
    if parts == [] then [] else parts[0] + Flatten(parts[1..])
  }

  /** `s[lo..hi]`, cut off at the end of `s`. */
  function Slice<T>(s: seq<T>, lo: nat, hi: nat): (r: seq<T>)
    requires lo <= hi
    ensures |r| <= hi - lo
  {
    s[Min(|s|, lo)..Min(|s|, hi)]
  }

  lemma SliceOfRest<T>(s: seq<T>, n: nat, lo: nat, hi: nat)
    requires n <= |s| && lo <= hi
    ensures Slice(s[n..], lo, hi) == Slice(s, n + lo, n + hi)
  {}

  lemma ThreeMore<T>(s: seq<T>, a: T, b: T, c: T)
    ensures s + [a] + [b] == s + [a, b] && s + [a] + [b] + [c] == s + [a, b, c]
  {}

  lemma ConcatAssociates<T>(a: seq<T>, b: seq<T>, c: seq<T>)
    ensures a + (b + c) == (a + b) + c
  {}
}
