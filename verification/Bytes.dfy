/** Machine integers and byte strings: Go's byte, uint32 and fixed-size arrays, and
    the big-endian conversions of encoding/binary. */
module Bytes {
  type byte = x: int | 0 <= x < 256
  type uint32 = x: int | 0 <= x < 0x1_0000_0000

  const MAX_UINT32: uint32 := 0xFFFF_FFFF

  type Bytes2 = s: seq<byte> | |s| == 2 witness [0, 0]
  type Bytes4 = s: seq<byte> | |s| == 4 witness [0, 0, 0, 0]
  type Bytes6 = s: seq<byte> | |s| == 6 witness [0, 0, 0, 0, 0, 0]
  type Bytes8 = s: seq<byte> | |s| == 8 witness [0, 0, 0, 0, 0, 0, 0, 0]

  /** uint32 addition wraps around. */
  function AddUint32(a: uint32, b: uint32): (sum: uint32)
    ensures sum == a + b || sum == a + b - 0x1_0000_0000
  {
    (a + b) % 0x1_0000_0000
  }

  lemma AddUint32Fits(a: uint32, b: uint32)
    requires a + b <= MAX_UINT32
    ensures AddUint32(a, b) == a + b
  {
  }

  function Uint32(b: Bytes4): uint32 {
    (((b[0] as int) * 256 + b[1] as int) * 256 + b[2] as int) * 256 + b[3] as int
  }

  function PutUint32(n: uint32): Bytes4 {
    [n / 0x100_0000, n / 0x1_0000 % 256, n / 0x100 % 256, n % 256]
  }

  function Uint64(b: Bytes8): nat {
    Uint32(b[..4]) * 0x1_0000_0000 + Uint32(b[4..])
  }

  lemma Uint32RoundTrip(n: uint32)
    ensures Uint32(PutUint32(n)) == n
  {
  }

  lemma Uint32Injective(a: Bytes4, b: Bytes4)
    requires Uint32(a) == Uint32(b)
    ensures a == b
  {
    assert a[3] == b[3];
    assert a[2] == b[2];
    assert a[1] == b[1];
    assert a[0] == b[0];
  }

  lemma Uint64Injective(a: Bytes8, b: Bytes8)
    requires Uint64(a) == Uint64(b)
    ensures a == b
  {
    Uint32Injective(a[..4], b[..4]);
    Uint32Injective(a[4..], b[4..]);
    assert a == a[..4] + a[4..] && b == b[..4] + b[4..];
  }

  /** a stands before b in lexicographic order. */
  predicate Before(a: seq<byte>, b: seq<byte>) {
    a != [] && b != [] && (a[0] < b[0] || (a[0] == b[0] && Before(a[1..], b[1..])))
  }

  lemma BeforeCons(x: byte, a: seq<byte>, y: byte, b: seq<byte>)
    ensures Before([x] + a, [y] + b) <==> x < y || (x == y && Before(a, b))
  {
    assert ([x] + a)[1..] == a && ([y] + b)[1..] == b;
  }

  lemma BeforeOfFour(a: Bytes4, b: Bytes4)
    ensures Before(a, b) <==>
      (a[0] < b[0] || (a[0] == b[0] && (a[1] < b[1] || (a[1] == b[1] &&
        (a[2] < b[2] || (a[2] == b[2] && a[3] < b[3]))))))
  {
    assert a == [a[0]] + a[1..] && a[1..] == [a[1]] + a[2..] && a[2..] == [a[2]] + a[3..] && a[3..] == [a[3]] + [];
    assert b == [b[0]] + b[1..] && b[1..] == [b[1]] + b[2..] && b[2..] == [b[2]] + b[3..] && b[3..] == [b[3]] + [];
    BeforeCons(a[0], a[1..], b[0], b[1..]);
    BeforeCons(a[1], a[2..], b[1], b[2..]);
    BeforeCons(a[2], a[3..], b[2], b[3..]);
    BeforeCons(a[3], [], b[3], []);
  }

  /** Big-endian: the order of the numbers is the order of the bytes, first byte first. */
  lemma Uint32KeepsOrder(a: Bytes4, b: Bytes4)
    ensures Before(a, b) <==> Uint32(a) < Uint32(b)
  {
    BeforeOfFour(a, b);
  }

  lemma {:induction false} BeforeConcat(a: seq<byte>, b: seq<byte>, c: seq<byte>, d: seq<byte>)
    requires |a| == |b|
    ensures Before(a + c, b + d) <==> Before(a, b) || (a == b && Before(c, d))
  {
    if a == [] {
      assert a + c == c && b + d == d;
    } else {
      BeforeConcat(a[1..], b[1..], c, d);
      assert (a + c)[1..] == a[1..] + c && (b + d)[1..] == b[1..] + d;
      assert a == [a[0]] + a[1..] && b == [b[0]] + b[1..];
    }
  }

  lemma HalvesOrder(p: uint32, q: uint32, x: uint32, y: uint32)
    ensures p * 0x1_0000_0000 + q < x * 0x1_0000_0000 + y <==> p < x || (p == x && q < y)
  {
  }

  /** The same for eight bytes: keys are ordered as LSP IDs are. */
  lemma Uint64KeepsOrder(a: Bytes8, b: Bytes8)
    ensures Before(a, b) <==> Uint64(a) < Uint64(b)
    ensures Uint64(a) < 0x1_0000_0000_0000_0000
  {
    assert a == a[..4] + a[4..] && b == b[..4] + b[4..];
    BeforeConcat(a[..4], b[..4], a[4..], b[4..]);
    Uint32KeepsOrder(a[..4], b[..4]);
    Uint32KeepsOrder(a[4..], b[4..]);
    if Uint32(a[..4]) == Uint32(b[..4]) {
      Uint32Injective(a[..4], b[..4]);
    }
    HalvesOrder(Uint32(a[..4]), Uint32(a[4..]), Uint32(b[..4]), Uint32(b[4..]));
  }
}
