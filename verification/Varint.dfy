/** The variable-length integer of the wire format: unsigned LEB128, section 7.6 of DWARF 5. */
module Varint {
  import opened Bytes
  import opened Cursors

  function Pow128(k: nat): (r: nat)
    ensures r > 0
  {
    if k == 0 then 1 else 0x80 * Pow128(k - 1)
  }

  /** Two to the power k, the weight of a left shift by k. */
  function Pow2(k: nat): (r: nat)
    ensures r > 0
  {
    if k == 0 then 1 else 2 * Pow2(k - 1)
  }

  // ---- Specification ----

  function EncodeVarint(n: nat): (r: bytes)
    ensures r != []
  {
    if n < 0x80 then [n] else [n % 0x80 + 0x80] + EncodeVarint(n / 0x80)
  }

  /** The number a group of seven-bit digits stands for. */
  function LebValue(s: bytes): nat {
    if s == [] then 0 else s[0] % 0x80 + 0x80 * LebValue(s[1..])
  }

  /** How many bytes s has up to and including the first one below 0x80; 0 when there is none. */
  function LebLength(s: bytes): (n: nat)
    ensures n <= |s|
    ensures n > 0 ==> s[n - 1] < 0x80 && forall i :: 0 <= i < n - 1 ==> s[i] >= 0x80
    ensures n == 0 ==> forall i :: 0 <= i < |s| ==> s[i] >= 0x80
  {
    if s == [] then 0
    else if s[0] < 0x80 then 1
    else
      var n := LebLength(s[1..]);
      if n == 0 then 0 else n + 1
  }

  /** The value at the head of s and the number of bytes it takes. */
  function DecodeVarint(s: bytes): (r: Result<(u64, nat)>)
    ensures r.Ok? ==> 1 <= r.value.1 <= 10 && r.value.1 <= |s|
  {
    var n := LebLength(s);
    if 1 <= n <= 10 then Ok((LebValue(s[..n]) % U64, n))
    else if |s| <= 10 then Err(UnexpectedEof)
    else Err(VarintOverflow)
  }

  // ---- Properties of the digits ----

  lemma {:induction false} LebLengthUnique(s: bytes, n: nat)
    requires 1 <= n <= |s| && s[n - 1] < 0x80
    requires forall i :: 0 <= i < n - 1 ==> s[i] >= 0x80
    ensures LebLength(s) == n
  {
    assert s[n - 1] < 0x80;
    assert LebLength(s) > 0;
  }

  lemma {:induction false} LebAppend(s: bytes, b: byte)
    ensures LebValue(s + [b]) == LebValue(s) + (b % 0x80) * Pow128(|s|)
  {
    if s == [] {
      assert LebValue([b][1..]) == 0;
    } else {
      assert (s + [b])[1..] == s[1..] + [b];
      LebAppend(s[1..], b);
    }
  }

  lemma {:induction false} LebBound(s: bytes)
    ensures LebValue(s) < Pow128(|s|)
  {
    if s != [] {
      LebBound(s[1..]);
    }
  }

  lemma {:induction false} EncodingShape(n: nat)
    ensures LebValue(EncodeVarint(n)) == n
    ensures LebLength(EncodeVarint(n)) == |EncodeVarint(n)|
  {
    if n >= 0x80 {
      EncodingShape(n / 0x80);
      var rest := EncodeVarint(n / 0x80);
      assert EncodeVarint(n) == [n % 0x80 + 0x80] + rest;
      hide EncodeVarint;
      assert EncodeVarint(n)[1..] == rest;
    }
  }

  /** The encoding of n takes at most k bytes exactly when n has at most k base-128 digits. */
  lemma {:induction false} EncodingLength(n: nat, k: nat)
    requires k > 0
    ensures |EncodeVarint(n)| <= k <==> n < Pow128(k)
  {
    if n < 0x80 {
      PowersGrow(1, k);
    } else if k == 1 {
      assert Pow128(1) == 0x80;
    } else {
      EncodingLength(n / 0x80, k - 1);
    }
  }

  lemma {:induction false} PowersGrow(j: nat, k: nat)
    requires j <= k
    ensures Pow128(j) <= Pow128(k)
  {
    if j < k {
      PowersGrow(j, k - 1);
    }
  }

  lemma {:induction false} Pow2IsPow128(k: nat)
    ensures Pow2(7 * k) == Pow128(k)
  {
    if k > 0 {
      Pow2IsPow128(k - 1);
      var m := 7 * (k - 1);
      assert Pow2(m + 7) == 2 * Pow2(m + 6) == 4 * Pow2(m + 5) == 8 * Pow2(m + 4)
          == 16 * Pow2(m + 3) == 32 * Pow2(m + 2) == 64 * Pow2(m + 1) == 128 * Pow2(m);
    }
  }

  lemma Pow128Values()
    ensures Pow128(9) == I64 && Pow128(10) == 0x40 * U64
  {
    assert Pow128(1) == 0x80;
    assert Pow128(3) == 0x20_0000;
    assert Pow128(5) == 0x8_0000_0000;
    assert Pow128(7) == 0x2_0000_0000_0000;
  }

  // ---- Main results ----

  /** Decoding an encoding followed by anything gives the value back and stops right after it. */
  lemma DecodeAfterEncode(v: u64, t: bytes)
    ensures DecodeVarint(EncodeVarint(v) + t) == Ok((v, |EncodeVarint(v)|))
  {
    EncodingShape(v);
    VarintLength(v);
    DecodeGroup(EncodeVarint(v), v, t);
  }

  lemma DecodeGroup(e: bytes, v: u64, t: bytes)
    requires 1 <= |e| <= 10 && LebLength(e) == |e| && LebValue(e) == v
    ensures DecodeVarint(e + t) == Ok((v, |e|))
  {
    hide LebLength, LebValue;
    LebLengthUnique(e + t, |e|);
    assert (e + t)[..|e|] == e;
  }

  lemma VarintLength(v: u64)
    ensures 1 <= |EncodeVarint(v)| <= 10
  {
    EncodingLength(v, 10);
    Pow128Values();
  }

  /** Byte i of an encoding holds base-128 digit i, least significant first, and 0x80 more unless it is the last one. */
  lemma {:induction false} EncodingDigits(n: nat, i: nat)
    requires i < |EncodeVarint(n)|
    ensures EncodeVarint(n)[i]
         == n / Pow128(i) % 0x80 + if i < |EncodeVarint(n)| - 1 then 0x80 else 0
  {
    if i > 0 {
      EncodingDigits(n / 0x80, i - 1);
      DivideTwice(n, 0x80, Pow128(i - 1));
    }
  }

  /** Digit i of the value of some bytes is the low seven bits of byte i. */
  lemma {:induction false} ValueDigits(s: bytes, i: nat)
    requires i < |s|
    ensures LebValue(s) / Pow128(i) % 0x80 == s[i] % 0x80
  {
    var rest := LebValue(s[1..]);
    if i > 0 {
      ValueDigits(s[1..], i - 1);
      assert (s[0] % 0x80 + 0x80 * rest) / 0x80 == rest;
      DivideTwice(LebValue(s), 0x80, Pow128(i - 1));
    }
  }

  /** What decoding makes of any bytes: the value of the first ones up to one below 0x80, or why there is none. */
  lemma DecodingIsExact(s: bytes, v: u64, n: nat)
    ensures DecodeVarint(s) == Ok((v, n)) <==>
              && 1 <= n <= 10 && n <= |s| && s[n - 1] < 0x80 && (forall i :: 0 <= i < n - 1 ==> s[i] >= 0x80)
              && v == LebValue(s[..n]) % U64
    ensures DecodeVarint(s) == Err(UnexpectedEof) <==> |s| <= 10 && forall i :: 0 <= i < |s| ==> s[i] >= 0x80
    ensures DecodeVarint(s) == Err(VarintOverflow) <==> |s| > 10 && forall i :: 0 <= i < 10 ==> s[i] >= 0x80
  {
    hide LebLength, LebValue;
    if 1 <= n <= |s| && s[n - 1] < 0x80 && forall i :: 0 <= i < n - 1 ==> s[i] >= 0x80 {
      LebLengthUnique(s, n);
    }
  }

  /** No byte sequence that decodes to v is shorter than the encoding of v. */
  lemma EncodingIsShortest(t: bytes, v: u64, n: nat)
    requires DecodeVarint(t) == Ok((v, n))
    ensures |EncodeVarint(v)| <= n
  {
    VarintLength(v);
    if n <= 9 {
      LebBound(t[..n]);
      PowersGrow(n, 9);
      Pow128Values();
      EncodingLength(v, n);
    }
  }

  /** No encoding is a proper prefix of another one. */
  lemma EncodingPrefixFree(a: u64, b: u64)
    requires EncodeVarint(a) <= EncodeVarint(b)
    ensures a == b
  {
    var x, y := EncodeVarint(a), EncodeVarint(b);
    assert x + y[|x|..] == y;
    DecodeAfterEncode(a, y[|x|..]);
    DecodeAfterEncode(b, []);
    assert y + [] == y;
  }

  // ---- The loops ----

  method VarintEncode(v: u64) returns (buf: bytes)
    ensures buf == EncodeVarint(v)
    ensures 1 <= |buf| <= 10
  {
    VarintLength(v);
    var value := v;
    buf := [];
    while value >= 0x80
      invariant 0 <= value
      invariant buf + EncodeVarint(value) == EncodeVarint(v)
    {
      // `(value as u8) | 0x80`: the low seven bits with the top bit set.
      buf := buf + [value % 0x80 + 0x80];
      value := value / 0x80;
    }
    buf := buf + [value];
  }

  /** On failure the cursor stays inside the input; callers give up on it. */
  method VarintDecode(r: Cursor) returns (v: Result<(u64, nat)>)
    requires r.Valid()
    modifies r
    ensures r.Valid()
    ensures v == DecodeVarint(old(r.Rest()))
    ensures v.Ok? ==> r.Rest() == old(r.Rest())[v.value.1..]
    ensures v.Ok? ==> r.pos == old(r.pos) + v.value.1
  {
    hide Pow2, LebValue, LebLength;
    ghost var s := r.Rest();
    var result: u64 := 0;
    var shift := 0;
    var bytesRead := 0;
    NoDigits(s[..0]);
    while true
      invariant r.Valid() && r.pos == old(r.pos) + bytesRead
      invariant bytesRead <= 10 && bytesRead <= |s| && r.Rest() == s[bytesRead..]
      invariant shift == 7 * bytesRead
      invariant result == LebValue(s[..bytesRead]) % U64
      invariant bytesRead <= 9 ==> result == LebValue(s[..bytesRead])
      invariant forall i :: 0 <= i < bytesRead ==> s[i] >= 0x80
      decreases |s| - bytesRead
    {
      var b := r.ReadU8();
      if b.Err? {
        return Err(b.error);
      }
      if shift >= 64 {
        return Err(VarintOverflow);
      }
      NextDigit(s, bytesRead);
      // The bits set so far lie below `shift`, so `|=` adds; the shift drops what leaves 64 bits.
      assert result < Pow2(shift);
      result := result + ((b.value % 0x80) * Pow2(shift)) % U64;
      bytesRead := bytesRead + 1;
      if b.value < 0x80 {
        LebLengthUnique(s, bytesRead);
        return Ok((result, bytesRead));
      }
      shift := shift + 7;
    }
  }

  /** One more digit: the bits below the shift are untouched and the sum is the value modulo 2^64. */
  lemma NextDigit(s: bytes, k: nat)
    requires k <= 9 && k < |s|
    ensures LebValue(s[..k]) < Pow2(7 * k)
    ensures LebValue(s[..k + 1]) % U64 == LebValue(s[..k]) + ((s[k] % 0x80) * Pow2(7 * k)) % U64
    ensures k <= 8 ==> LebValue(s[..k + 1]) < U64
  {
    Pow2IsPow128(k);
    assert s[..k + 1] == s[..k] + [s[k]];
    LebAppend(s[..k], s[k]);
    LebBound(s[..k]);
    LebBound(s[..k + 1]);
    AddDigit(LebValue(s[..k]), s[k] % 0x80, k);
  }

  lemma NoDigits(s: bytes)
    requires s == []
    ensures LebValue(s) == 0
  {
  }

  lemma AddDigit(low: nat, digit: nat, k: nat)
    requires k <= 9 && low < Pow128(k) && digit < 0x80
    requires low + digit * Pow128(k) < Pow128(k + 1)
    ensures (low + digit * Pow128(k)) % U64 == low + (digit * Pow128(k)) % U64
    ensures k <= 8 ==> low + digit * Pow128(k) < U64
  {
    Pow128Values();
    hide Pow128;
    var high := digit * Pow128(k);
    assert high >= 0;
    if k <= 8 {
      PowersGrow(k + 1, 9);
      SmallSum(low, high);
    } else {
      TopDigit(low, digit);
    }
  }

  lemma SmallSum(low: nat, high: nat)
    requires low + high < U64
    ensures (low + high) % U64 == low + high % U64
  {
  }

  /** The tenth digit has room for one bit only. */
  lemma TopDigit(low: nat, digit: nat)
    requires low < I64
    ensures (low + digit * I64) % U64 == low + (digit * I64) % U64
  {
    var half, bit := digit / 2, digit % 2;
    assert digit * I64 == half * U64 + bit * I64;
    ModOfSum(half, bit * I64);
    ModOfSum(half, low + bit * I64);
  }

  lemma {:induction false} ModOfSum(k: nat, r: nat)
    requires r < U64
    ensures (k * U64 + r) % U64 == r
  {
  }
}
