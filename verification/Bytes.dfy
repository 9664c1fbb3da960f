/** Bytes, machine integers, results, and fixed-width integer encodings. */
module Bytes {

  type byte = b: int | 0 <= b < 0x100
  type bytes = seq<byte>

  const U16: int := 0x1_0000
  const U32: int := 0x1_0000_0000
  const U64: int := 0x1_0000_0000_0000_0000
  const I64: int := 0x8000_0000_0000_0000

  type u16 = n: int | 0 <= n < 0x1_0000
  type u32 = n: int | 0 <= n < 0x1_0000_0000
  type u64 = n: int | 0 <= n < 0x1_0000_0000_0000_0000
  type i64 = n: int | -0x8000_0000_0000_0000 <= n < 0x8000_0000_0000_0000

  datatype Option<+T> = None | Some(value: T)

  /** Why an operation gives no result. The last three are not error values but crashes, which no caller catches. */
  datatype Error =
    | UnexpectedEof
    | VarintOverflow
    | InvalidUtf8
    | UnsupportedNumber
    | ExpectedArray
    | TooShort
    | InvalidArgument
    | BadName
    | BadChannelFrame
    | RpcFailed
    | BadRoutingKey
    | CapacityOverflow
    | IndexOutOfRange
    | StackOverflow

  datatype Result<+T> = Ok(value: T) | Err(error: Error) {
    predicate IsFailure() { Err? }

    function PropagateFailure<U>(): (r: Result<U>)
      requires Err?
    {
      Err(error)
    }

    function Extract(): T
      requires Ok?
    {
      value
    }
  }

  /** 256 to the power k. */
  function Pow256(k: nat): (r: nat)
    ensures r > 0
  {
    if k == 0 then 1 else 0x100 * Pow256(k - 1)
  }

  /** The k low bytes of n, most significant first. */
  function BigEndian(n: nat, k: nat): (r: bytes)
    ensures |r| == k
  {
    if k == 0 then [] else BigEndian(n / 0x100, k - 1) + [n % 0x100]
  }

  function FromBigEndian(s: bytes): nat {
    if s == [] then 0 else FromBigEndian(s[..|s| - 1]) * 0x100 + s[|s| - 1]
  }

  /** The k low bytes of n, least significant first. */
  function LittleEndian(n: nat, k: nat): (r: bytes)
    ensures |r| == k
  {
    if k == 0 then [] else [n % 0x100] + LittleEndian(n / 0x100, k - 1)
  }

  function FromLittleEndian(s: bytes): nat {
    if s == [] then 0 else s[0] + 0x100 * FromLittleEndian(s[1..])
  }

  lemma {:induction false} BigEndianRoundTrip(n: nat, k: nat)
    requires n < Pow256(k)
    ensures FromBigEndian(BigEndian(n, k)) == n
  {
    if k > 0 {
      BigEndianRoundTrip(n / 0x100, k - 1);
      var s := BigEndian(n, k);
      assert s[..k - 1] == BigEndian(n / 0x100, k - 1);
    }
  }

  lemma {:induction false} FromBigEndianBound(s: bytes)
    ensures FromBigEndian(s) < Pow256(|s|)
  {
    if s != [] {
      FromBigEndianBound(s[..|s| - 1]);
    }
  }

  lemma {:induction false} LittleEndianRoundTrip(n: nat, k: nat)
    requires n < Pow256(k)
    ensures FromLittleEndian(LittleEndian(n, k)) == n
  {
    if k > 0 {
      LittleEndianRoundTrip(n / 0x100, k - 1);
      assert LittleEndian(n, k)[1..] == LittleEndian(n / 0x100, k - 1);
    }
  }

  lemma {:induction false} FromLittleEndianBound(s: bytes)
    ensures FromLittleEndian(s) < Pow256(|s|)
  {
    if s != [] {
      FromLittleEndianBound(s[1..]);
    }
  }

  lemma Pow256Values()
    ensures Pow256(2) == U16 && Pow256(4) == U32 && Pow256(8) == U64
  {
    assert Pow256(1) == 0x100;
    assert Pow256(3) == 0x100_0000;
    assert Pow256(5) == 0x100_0000_0000;
    assert Pow256(6) == 0x1_0000_0000_0000;
    assert Pow256(7) == 0x100_0000_0000_0000;
  }

  lemma DivideTwice(n: nat, a: nat, b: nat)
    requires a > 0 && b > 0
    ensures a * b > 0 && n / a / b == n / (a * b)
  {
    var q := n / a;
    var p := q / b;
    Floor(n, a);
    Floor(q, b);
    Nested(n, a, b, q, p);
    Quotient(n, a * b, p);
  }

  lemma Floor(n: nat, d: nat)
    requires d > 0
    ensures n / d * d <= n < (n / d + 1) * d
  {
  }

  lemma Nested(n: nat, a: nat, b: nat, q: nat, p: nat)
    requires a > 0 && b > 0 && q * a <= n < (q + 1) * a && p * b <= q < (p + 1) * b
    ensures a * b > 0 && p * (a * b) <= n < (p + 1) * (a * b)
  {
    Monotone(p * b, q, a);
    Monotone(q + 1, (p + 1) * b, a);
    Regrouped(p, a, b);
    Regrouped(p + 1, a, b);
  }

  lemma Regrouped(p: nat, a: nat, b: nat)
    requires a > 0 && b > 0
    ensures p * b * a == p * (a * b) && a * b > 0
  {
  }

  lemma Monotone(a: nat, b: nat, c: nat)
    requires a <= b
    ensures a * c <= b * c
  {
  }

  lemma Quotient(n: nat, d: nat, q: nat)
    requires d > 0 && q * d <= n < (q + 1) * d
    ensures n / d == q
  {
    var p := n / d;
    Floor(n, d);
    if p < q {
      Monotone(p + 1, q, d);
    } else if p > q {
      Monotone(q + 1, p, d);
    }
  }

  /** Byte i of k holds the digit of weight 256 to the power k - 1 - i. */
  lemma {:induction false} BigEndianDigits(n: nat, k: nat, i: nat)
    requires i < k
    ensures BigEndian(n, k)[i] == n / Pow256(k - 1 - i) % 0x100
  {
    if i < k - 1 {
      BigEndianDigits(n / 0x100, k - 1, i);
      DivideTwice(n, 0x100, Pow256(k - 2 - i));
    }
  }

  /** Byte i holds the digit of weight 256 to the power i. */
  lemma {:induction false} LittleEndianDigits(n: nat, k: nat, i: nat)
    requires i < k
    ensures LittleEndian(n, k)[i] == n / Pow256(i) % 0x100
  {
    if i > 0 {
      LittleEndianDigits(n / 0x100, k - 1, i - 1);
      DivideTwice(n, 0x100, Pow256(i - 1));
    }
  }

  /** Reading four bytes as an unsigned little-endian number, as the chunk headers do. */
  function U32At(s: bytes, i: nat): (r: u32)
    requires i + 4 <= |s|
  {
    FromLittleEndianBound(s[i..i + 4]);
    Pow256Values();
    FromLittleEndian(s[i..i + 4])
  }

  /** Reading two bytes as an unsigned big-endian number. */
  function U16At(s: bytes, i: nat): (r: u16)
    requires i + 2 <= |s|
  {
    var hi: int := s[i];
    hi * 0x100 + s[i + 1]
  }

  /** The i64 whose two's complement bit pattern is n. */
  function AsI64(n: u64): (r: i64) {
    if n < I64 then n else n - U64
  }

  // ---- UTF-8 (section 4 of RFC 3629) ----

  predicate Continuation(b: byte) { 0x80 <= b < 0xC0 }

  /** Length of the well-formed sequence at the head of s, or 0 when there is none. */
  function CharLength(s: bytes): (n: nat)
    requires s != []
    ensures n <= |s|
  {
    if s[0] < 0x80 then 1
    else if 0xC2 <= s[0] < 0xE0 && |s| >= 2 && Continuation(s[1]) then 2
    else if 0xE0 <= s[0] < 0xF0 && |s| >= 3 && Continuation(s[1]) && Continuation(s[2])
            && (s[0] == 0xE0 ==> s[1] >= 0xA0) && (s[0] == 0xED ==> s[1] < 0xA0) then 3
    else if 0xF0 <= s[0] < 0xF5 && |s| >= 4 && Continuation(s[1]) && Continuation(s[2]) && Continuation(s[3])
            && (s[0] == 0xF0 ==> s[1] >= 0x90) && (s[0] == 0xF4 ==> s[1] < 0x90) then 4
    else 0
  }

  predicate ValidUtf8(s: bytes) {
    s == [] || (CharLength(s) > 0 && ValidUtf8(s[CharLength(s)..]))
  }

  /** A string is its UTF-8 bytes. */
  type utf8 = s: bytes | ValidUtf8(s) witness []

  lemma {:induction false} AsciiIsUtf8(s: bytes)
    requires forall i :: 0 <= i < |s| ==> s[i] < 0x80
    ensures ValidUtf8(s)
  {
    if s != [] {
      AsciiIsUtf8(s[1..]);
    }
  }

  /** Cutting a string at an ASCII byte leaves two strings. */
  lemma {:induction false} Utf8SplitAtAscii(a: bytes, c: byte, b: bytes)
    requires c < 0x80
    requires ValidUtf8(a + [c] + b)
    ensures ValidUtf8(a) && ValidUtf8(b)
    decreases |a|
  {
    var s := a + [c] + b;
    var k := CharLength(s);
    if a == [] {
      assert s[1..] == b;
    } else {
      assert s[|a|] == c;
      assert k <= |a|;
      assert s[k..] == a[k..] + [c] + b;
      Utf8SplitAtAscii(a[k..], c, b);
      assert forall i :: 0 <= i < k ==> a[i] == s[i];
    }
  }
}
