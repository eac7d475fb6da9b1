/** Bytes, little-endian integers and decimal digits: what the kernel's memory
    and its formatted output are made of. */
module Bytes {

  type Byte = b: int | 0 <= b < 256

  const NEWLINE: Byte := 10
  const SPACE: Byte := 32

  function Min(a: int, b: int): int { if a < b then a else b }

  function Max(a: int, b: int): int { if a < b then b else a }

  function Zeros(n: nat): (s: seq<Byte>)
    ensures |s| == n && forall i :: 0 <= i < n ==> s[i] == 0
  {
    seq(n, _ => 0)
  }

  // ---- little-endian integers ----

  function U16(m: seq<Byte>, i: nat): (v: nat)
    requires i + 2 <= |m|
    ensures v < 0x1_0000
  {
    m[i] as int + 0x100 * (m[i + 1] as int)
  }

  function U32(m: seq<Byte>, i: nat): (v: nat)
    requires i + 4 <= |m|
    ensures v < 0x1_0000_0000
  {
    U16(m, i) + 0x1_0000 * U16(m, i + 2)
  }

  function U64(m: seq<Byte>, i: nat): (v: nat)
    requires i + 8 <= |m|
  {
    U32(m, i) + 0x1_0000_0000 * U32(m, i + 4)
  }

  /** A u16 store truncates the value to its low 16 bits. */
  method PutU16(a: array<Byte>, i: nat, v: nat)
    requires i + 2 <= a.Length
    modifies a
    ensures U16(a[..], i) == v % 0x1_0000
    ensures forall k :: 0 <= k < a.Length && !(i <= k < i + 2) ==> a[k] == old(a[k])
  {
    a[i] := v % 0x100;
    a[i + 1] := v / 0x100 % 0x100;
    assert v == v % 0x100 + 0x100 * (v / 0x100 % 0x100) + 0x1_0000 * (v / 0x100 / 0x100);
  }

  method PutU32(a: array<Byte>, i: nat, v: nat)
    requires i + 4 <= a.Length && v < 0x1_0000_0000
    modifies a
    ensures U32(a[..], i) == v
    ensures forall k :: 0 <= k < a.Length && !(i <= k < i + 4) ==> a[k] == old(a[k])
  {
    PutU16(a, i, v % 0x1_0000);
    ghost var low := a[..];
    PutU16(a, i + 2, v / 0x1_0000);
    assert U16(a[..], i) == U16(low, i);
  }

  method PutU64(a: array<Byte>, i: nat, v: nat)
    requires i + 8 <= a.Length && v < 0x1_0000_0000_0000_0000
    modifies a
    ensures U64(a[..], i) == v
    ensures forall k :: 0 <= k < a.Length && !(i <= k < i + 8) ==> a[k] == old(a[k])
  {
    PutU32(a, i, v % 0x1_0000_0000);
    ghost var low := a[..];
    PutU32(a, i + 4, v / 0x1_0000_0000);
    U32Frame(low, a[..], i);
  }

  lemma U16Frame(m: seq<Byte>, m': seq<Byte>, i: nat)
    requires i + 2 <= |m| <= |m'|
    requires forall k :: i <= k < i + 2 ==> m[k] == m'[k]
    ensures U16(m, i) == U16(m', i)
  {
  }

  lemma U64Frame(m: seq<Byte>, m': seq<Byte>, i: nat)
    requires i + 8 <= |m| <= |m'|
    requires forall k :: i <= k < i + 8 ==> m[k] == m'[k]
    ensures U64(m, i) == U64(m', i)
  {
  }

  lemma U32Frame(m: seq<Byte>, m': seq<Byte>, i: nat)
    requires i + 4 <= |m| <= |m'|
    requires forall k :: i <= k < i + 4 ==> m[k] == m'[k]
    ensures U32(m, i) == U32(m', i)
  {
  }

  // ---- decimal digits ----

  function Pow10(n: nat): (p: nat)
    ensures p > 0
  {
    if n == 0 then 1 else 10 * Pow10(n - 1)
  }

  /** The "%u" conversion. */
  function Decimal(n: nat): (s: seq<Byte>)
    ensures |s| > 0
    ensures forall i :: 0 <= i < |s| ==> 48 <= s[i] < 58
  {
    if n < 10 then [48 + n] else Decimal(n / 10) + [48 + n % 10]
  }

  lemma {:induction false} DecimalLength(n: nat, k: nat)
    requires k > 0 && n < Pow10(k)
    ensures |Decimal(n)| <= k
  {
    if n >= 10 {
      assert Pow10(1) == 10 * Pow10(0);
      assert k > 1;
      DecimalLength(n / 10, k - 1);
    }
  }

  lemma Pow10Values()
    ensures Pow10(4) == 10_000 && Pow10(6) == 1_000_000
    ensures Pow10(10) == 10_000_000_000 && Pow10(11) == 100_000_000_000
  {
    assert Pow10(1) == 10;
    assert Pow10(2) == 100;
    assert Pow10(3) == 1000;
    assert Pow10(5) == 10 * Pow10(4);
    assert Pow10(7) == 10 * Pow10(6);
    assert Pow10(8) == 10 * Pow10(7);
    assert Pow10(9) == 10 * Pow10(8);
  }

  /** The value of decimal digits; blanks count as zeros. */
  function Number(s: seq<Byte>): nat {
    if s == [] then 0 else 10 * Number(s[..|s| - 1]) + (if s[|s| - 1] >= 48 then s[|s| - 1] - 48 else 0)
  }

  lemma {:induction false} NumberDecimal(n: nat)
    ensures Number(Decimal(n)) == n
  {
    if n < 10 {
      assert Number([48 + n][..0]) == 0;
    } else {
      NumberDecimal(n / 10);
      Snoc(Decimal(n / 10), 48 + n % 10);
    }
  }

  /** A field padded on the left to at least `width` bytes. */
  function PadLeft(s: seq<Byte>, width: nat, fill: Byte): (r: seq<Byte>)
    ensures |r| == Max(|s|, width)
  {
    seq(Max(width - |s|, 0), _ => fill) + s
  }

  /** A number padded with blanks or zeros is the same number. */
  lemma {:induction false} NumberPad(s: seq<Byte>, width: nat, fill: Byte)
    requires fill in {SPACE, 48}
    ensures Number(PadLeft(s, width, fill)) == Number(s)
    decreases |s|, width
  {
    var p := PadLeft(s, width, fill);
    if s != [] {
      NumberPad(s[..|s| - 1], Max(width - 1, 0), fill);
      assert p[..|p| - 1] == PadLeft(s[..|s| - 1], Max(width - 1, 0), fill);
    } else if width > 0 {
      NumberPad(s, width - 1, fill);
      assert p[..|p| - 1] == PadLeft(s, width - 1, fill);
    }
  }

  // ---- memory ----

  lemma Assoc<T>(a: seq<T>, b: seq<T>, c: seq<T>)
    ensures a + b + c == a + (b + c)
  {
  }

  lemma Snoc<T>(s: seq<T>, x: T)
    ensures (s + [x])[..|s|] == s && (s + [x])[|s|] == x && s + [x] != []
  {
  }

  lemma SliceOfSlice<T>(s: seq<T>, a: nat, b: nat, i: nat, j: nat)
    requires a <= b <= |s| && i <= j <= b - a
    ensures s[a..b][i..j] == s[a + i..a + j]
  {
    var u, v := s[a..b][i..j], s[a + i..a + j];
    forall k | 0 <= k < j - i
      ensures u[k] == v[k]
    {
      assert u[k] == s[a..b][i + k] == s[a + (i + k)];
      assert v[k] == s[(a + i) + k];
    }
    assert u == v;
  }

  /** memcpy, and memset when `src` is constant. */
  method Memcpy(a: array<Byte>, off: nat, src: seq<Byte>)
    requires off + |src| <= a.Length
    modifies a
    ensures forall k :: off <= k < off + |src| ==> a[k] == src[k - off]
    ensures forall k :: 0 <= k < a.Length && !(off <= k < off + |src|) ==> a[k] == old(a[k])
  {
    forall k | off <= k < off + |src| {
      a[k] := src[k - off];
    }
  }

  // ---- proofs ----

  /** What a proof may be kept from looking into. */
  datatype Seal =
    | Memory | Operations
    | Position | NextOps | OneLook | OneRead | ReadLoop | Delivered | Dump | DumpLoop
    | Console | ConsoleLoop
    | Packets | PacketQueue | AllQueues | ReceiveCall

  /** Always true. A predicate that says `forall k {:trigger Opened(s, k)} ::
      Opened(s, k) ==> P` is P, but a proof looks at P only if it mentions
      `Opened(s, 0)`. */
  predicate Opened(s: Seal, k: int) { true }
}
