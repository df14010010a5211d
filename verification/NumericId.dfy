/** Numeric ids of legacy UUIDs: base-128 variable-length integers and zigzag signs on 64-bit words.
    A word is the unsigned reading of its 64 bits; `ToSigned` gives the signed one. */
module NumericId {

  type byte = b: nat | b < 256

  const TWO_64: int := 0x1_0000_0000_0000_0000
  const TWO_63: int := 0x8000_0000_0000_0000

  type word = w: nat | w < TWO_64

  function ToSigned(w: word): (n: int)
    ensures -TWO_63 <= n < TWO_63
  {
    if w < TWO_63 then w else w - TWO_64
  }

  function Pow2(n: nat): (p: nat)
    ensures p > 0
  {
    if n == 0 then 1 else 2 * Pow2(n - 1)
  }

  // ---------------------------------------------------------------------------
  // Bitwise operations
  // ---------------------------------------------------------------------------

  function BitOr(a: nat, b: nat): nat
    decreases a + b
  {
    if a == 0 && b == 0 then 0
    else (if a % 2 == 1 || b % 2 == 1 then 1 else 0) + 2 * BitOr(a / 2, b / 2)
  }

  function BitXor(a: nat, b: nat): nat
    decreases a + b
  {
    if a == 0 && b == 0 then 0
    else (if a % 2 != b % 2 then 1 else 0) + 2 * BitXor(a / 2, b / 2)
  }

  /** Shifting left drops what leaves the word. */
  function ShiftLeft(x: nat, n: nat): word {
    x * Pow2(n) % TWO_64
  }

  lemma {:induction false} OrZero(b: nat)
    ensures BitOr(0, b) == b
    decreases b
  {
    if b > 0 {
      OrZero(b / 2);
    }
  }

  /** Or adds when one operand lies below the lowest bit of the other. */
  lemma {:induction false} OrDisjoint(a: nat, c: nat, k: nat)
    requires a < Pow2(k)
    ensures BitOr(a, c * Pow2(k)) == a + c * Pow2(k)
    decreases k
  {
    if k == 0 {
      OrZero(c);
    } else {
      var b := c * Pow2(k);
      assert b == 2 * (c * Pow2(k - 1));
      OrDisjoint(a / 2, c, k - 1);
    }
  }

  /** Exclusive or with all ones flips every bit. */
  lemma {:induction false} XorFlips(x: nat, k: nat)
    requires x < Pow2(k)
    ensures BitXor(x, Pow2(k) - 1) == Pow2(k) - 1 - x
    decreases k
  {
    if k > 0 {
      var ones, half := Pow2(k) - 1, Pow2(k - 1) - 1;
      XorFlips(x / 2, k - 1);
      assert ones == 2 * half + 1 && ones / 2 == half && ones % 2 == 1;
      assert BitXor(x, ones) == (if x % 2 != 1 then 1 else 0) + 2 * BitXor(x / 2, half);
    }
  }

  lemma {:induction false} Pow2Add(a: nat, b: nat)
    ensures Pow2(a + b) == Pow2(a) * Pow2(b)
    decreases a
  {
    if a > 0 {
      Pow2Add(a - 1, b);
      assert Pow2(a + b) == 2 * Pow2(a - 1 + b);
      assert Pow2(a) * Pow2(b) == 2 * (Pow2(a - 1) * Pow2(b));
    }
  }

  lemma Pow2Is64()
    ensures Pow2(64) == TWO_64
  {
    assert Pow2(8) == 256;
    Pow2Add(8, 8);
    Pow2Add(16, 16);
    Pow2Add(32, 32);
  }

  // ---------------------------------------------------------------------------
  // Variable-length integers
  // ---------------------------------------------------------------------------

  /** The integer in `buf`: 7-bit groups, least significant first, up to the first byte below 128. */
  function Groups(buf: seq<byte>): nat {
    if buf == [] then 0
    else if buf[0] < 128 then buf[0]
    else buf[0] - 128 + 128 * Groups(buf[1..])
  }

  /** The groups of the first `n` bytes, whatever their continuation bits. */
  function Low(buf: seq<byte>, n: nat): nat
    requires n <= |buf|
  {
    if n == 0 then 0 else Low(buf, n - 1) + buf[n - 1] % 128 * Pow2(7 * (n - 1))
  }

  predicate Continues(buf: seq<byte>, n: nat)
    requires n <= |buf|
  {
    forall i :: 0 <= i < n ==> buf[i] >= 128
  }

  lemma {:induction false} LowBound(buf: seq<byte>, n: nat)
    requires n <= |buf|
    ensures Low(buf, n) < Pow2(7 * n)
    decreases n
  {
    if n > 0 {
      LowBound(buf, n - 1);
      Pow2Add(7, 7 * (n - 1));
      assert Pow2(7) == 128;
      GroupBound(Low(buf, n - 1), buf[n - 1] % 128, Pow2(7 * (n - 1)));
    }
  }

  lemma GroupBound(low: nat, g: nat, p: nat)
    requires low < p && g < 128
    ensures low + g * p < 128 * p
  {
    assert (127 - g) * p >= 0;
  }

  /** While the continuation bits last, the value is what has been read plus what is left, shifted. */
  lemma {:induction false} GroupsSplit(buf: seq<byte>, n: nat)
    requires n <= |buf| && Continues(buf, n)
    ensures Groups(buf) == Low(buf, n) + Pow2(7 * n) * Groups(buf[n..])
    decreases n
  {
    if n == 0 {
      assert buf[0..] == buf;
    } else {
      GroupsSplit(buf, n - 1);
      var rest, p := buf[n - 1..], Pow2(7 * (n - 1));
      assert rest[1..] == buf[n..];
      assert Groups(rest) == buf[n - 1] % 128 + 128 * Groups(buf[n..]);
      Pow2Add(7, 7 * (n - 1));
      assert Pow2(7) == 128;
      Distribute(p, buf[n - 1] % 128, Groups(buf[n..]));
    }
  }

  lemma Distribute(p: nat, a: nat, b: nat)
    ensures p * (a + 128 * b) == a * p + (128 * p) * b
  {
  }

  lemma ModIs(x: nat, m: nat, q: nat, r: nat)
    requires r < m && x == q * m + r
    ensures x % m == r
  {
    var d := q - x / m;
    assert d * m == x % m - r;
    MultipleOf(d, m);
  }

  lemma MultipleOf(d: int, m: nat)
    ensures d >= 1 ==> d * m >= m
    ensures d <= -1 ==> d * m + m <= 0
  {
  }

  /** Scaling moves out of the remainder. */
  lemma ScaledMod(g: nat, p: nat, d: nat)
    requires p > 0 && d > 0
    ensures g * p % (p * d) == g % d * p
  {
    var q, r := g / d, g % d;
    Regroup(q, d, r, p);
    GroupsFit(r, d, p);
    ModIs(g * p, p * d, q, r * p);
  }

  lemma Regroup(q: nat, d: nat, r: nat, p: nat)
    ensures (q * d + r) * p == q * (p * d) + r * p
  {
    assert (q * d + r) * p == q * d * p + r * p;
    assert q * d * p == q * (d * p);
  }

  lemma GroupsFit(r: nat, d: nat, p: nat)
    requires r < d && p > 0
    ensures r * p + p <= p * d
  {
    MultipleOf(d - r, p);
    assert p * d == (d - r) * p + r * p;
  }

  /** Combining the next group with or is addition modulo 2^64. */
  lemma OrStep(low: nat, g: nat, shift: nat)
    requires low < Pow2(shift)
    ensures BitOr(low % TWO_64, ShiftLeft(g, shift)) == (low + g * Pow2(shift)) % TWO_64
  {
    Pow2Is64();
    if shift < 64 {
      Pow2Add(shift, 64 - shift);
      OrStepInWord(low, g, shift, Pow2(64 - shift));
    } else {
      Pow2Add(shift - 64, 64);
      OrStepBeyondWord(low, g, shift, g * Pow2(shift - 64));
    }
  }

  lemma OrStepInWord(low: nat, g: nat, shift: nat, d: nat)
    requires low < Pow2(shift) && d > 0 && Pow2(shift) * d == TWO_64
    ensures BitOr(low % TWO_64, ShiftLeft(g, shift)) == (low + g * Pow2(shift)) % TWO_64
  {
    var p, r := Pow2(shift), g % d;
    var term, sum := g * p, low + g * p;
    assert term % TWO_64 == r * p by {
      ScaledMod(g, p, d);
    }
    assert low % TWO_64 == low && sum % TWO_64 == low + r * p by {
      LowFits(low, g, p, d);
    }
    assert BitOr(low, r * p) == low + r * p by {
      OrDisjoint(low, r, shift);
    }
  }

  lemma OrStepBeyondWord(low: nat, g: nat, shift: nat, q: nat)
    requires g * Pow2(shift) == q * TWO_64
    ensures BitOr(low % TWO_64, ShiftLeft(g, shift)) == (low + g * Pow2(shift)) % TWO_64
  {
    Pow2Is64();
    ModIs(g * Pow2(shift), TWO_64, q, 0);
    OrDisjoint(low % TWO_64, 0, 64);
    ModIs(low + g * Pow2(shift), TWO_64, q + low / TWO_64, low % TWO_64);
  }

  lemma LowFits(low: nat, g: nat, p: nat, d: nat)
    requires low < p && d > 0
    ensures low < p * d && low + g % d * p < p * d
    ensures (low + g * p) % (p * d) == low + g % d * p
  {
    var q, r := g / d, g % d;
    GroupsFit(r, d, p);
    assert r * p >= 0;
    assert low + g * p == q * (p * d) + (low + r * p) by {
      Regroup(q, d, r, p);
      assert q * d + r == g;
    }
    ModIs(low + g * p, p * d, q, low + r * p);
  }

  /** Decodes the integer at the start of the first `n` bytes of `buf`. */
  method VarInt(buf: array<byte>, n: nat) returns (result: word)
    requires 0 < n <= buf.Length
    ensures result == Groups(buf[..n]) % TWO_64
  {
    var pos := 0;
    var nextByte: nat := buf[pos];
    pos := pos + 1;
    if nextByte < 128 {
      return nextByte;
    }
    result := nextByte % 128;
    var isContinuationBitSet := true;
    var shift := 0;
    ghost var bytes := buf[..n];
    FirstGroup(bytes);
    while isContinuationBitSet && pos < n
      invariant 1 <= pos <= n && shift == 7 * (pos - 1)
      invariant Continues(bytes, if isContinuationBitSet then pos else pos - 1)
      invariant !isContinuationBitSet ==> bytes[pos - 1] < 128
      invariant result == Low(bytes, pos) % TWO_64
    {
      LowBound(bytes, pos);
      nextByte := buf[pos];
      pos := pos + 1;
      isContinuationBitSet := nextByte >= 128;
      nextByte := nextByte % 128;
      shift := shift + 7;
      OrStep(Low(bytes, pos - 1), nextByte, shift);
      result := BitOr(result, ShiftLeft(nextByte, shift));
    }
    AllRead(bytes, pos);
  }

  lemma FirstGroup(buf: seq<byte>)
    requires buf != []
    ensures Low(buf, 1) == buf[0] % 128
  {
    assert Pow2(0) == 1;
    assert Low(buf, 1) == Low(buf, 0) + buf[0] % 128 * Pow2(7 * 0);
  }

  lemma AllRead(buf: seq<byte>, n: nat)
    requires 1 <= n <= |buf|
    requires (Continues(buf, n) && n == |buf|) || (Continues(buf, n - 1) && buf[n - 1] < 128)
    ensures Groups(buf) == Low(buf, n)
  {
    if Continues(buf, n) {
      GroupsSplit(buf, n);
      assert buf[n..] == [];
      Distribute(Pow2(7 * n), 0, 0);
    } else {
      LastGroup(buf, n - 1);
    }
  }

  lemma LastGroup(buf: seq<byte>, n: nat)
    requires n < |buf| && Continues(buf, n) && buf[n] < 128
    ensures Groups(buf) == Low(buf, n + 1)
  {
    GroupsSplit(buf, n);
    var rest := buf[n..];
    assert rest[0] == buf[n];
    assert Groups(rest) == buf[n] == buf[n] % 128;
    Distribute(Pow2(7 * n), buf[n], 0);
  }

  // ---------------------------------------------------------------------------
  // Encoding
  // ---------------------------------------------------------------------------

  /** Base-128 encoding: every group but the last has its high bit set. */
  function Encode(v: nat): (r: seq<byte>)
    ensures r != []
    decreases v
  {
    if v < 128 then [v] else [v % 128 + 128] + Encode(v / 128)
  }

  /** Decoding inverts encoding, whatever follows. */
  lemma {:induction false} DecodeEncode(v: nat, tail: seq<byte>)
    ensures Groups(Encode(v) + tail) == v
    decreases v
  {
    var buf := Encode(v) + tail;
    if v >= 128 {
      DecodeEncode(v / 128, tail);
      assert buf[1..] == Encode(v / 128) + tail;
    }
  }

  lemma {:induction false} EncodedLength(v: nat, n: nat)
    requires n > 0 && v < Pow2(7 * n)
    ensures |Encode(v)| <= n
    decreases n
  {
    if v >= 128 {
      assert Pow2(7) == 128;
      if n == 1 {
        assert false;
      }
      Pow2Add(7, 7 * (n - 1));
      assert v / 128 < Pow2(7 * (n - 1));
      EncodedLength(v / 128, n - 1);
    }
  }

  /** Every word is encoded in at most ten bytes and decodes to itself, so wrap-around never loses it. */
  lemma WordRoundTrip(w: word, tail: seq<byte>)
    ensures |Encode(w)| <= 10
    ensures Groups(Encode(w) + tail) % TWO_64 == w
  {
    DecodeEncode(w, tail);
    Pow2Is64();
    Pow2Add(64, 6);
    assert Pow2(6) == 64;
    EncodedLength(w, 10);
  }

  // ---------------------------------------------------------------------------
  // Zigzag
  // ---------------------------------------------------------------------------

  /** Halves the word; an odd word has all bits of its half flipped. */
  function ZigzagDecode(value: word): (r: int)
    ensures r == if value % 2 == 0 then value / 2 else -(value / 2) - 1
  {
    var uValueShifted: word := value / 2;
    if value % 2 == 0 then ToSigned(uValueShifted)
    else
      Pow2Is64();
      XorFlips(uValueShifted, 64);
      ToSigned(BitXor(uValueShifted, TWO_64 - 1))
  }

  function ZigzagEncode(n: int): word
    requires -TWO_63 <= n < TWO_63
  {
    if n >= 0 then 2 * n else -2 * n - 1
  }

  /** The zigzag code is a bijection between words and signed 64-bit integers. */
  lemma ZigzagBijection(w: word, n: int)
    requires -TWO_63 <= n < TWO_63
    ensures ZigzagDecode(ZigzagEncode(n)) == n
    ensures -TWO_63 <= ZigzagDecode(w) < TWO_63 && ZigzagEncode(ZigzagDecode(w)) == w
  {
  }

  // ---------------------------------------------------------------------------
  // Legacy ids
  // ---------------------------------------------------------------------------

  /** The ten bytes of a UUID that hold a legacy id. */
  function IdBytes(u: seq<byte>): seq<byte>
    requires |u| == 16
  {
    u[..6] + u[12..]
  }

  /** Decodes the id in a copy of the UUID. The last four bytes are appended to a slice of the first six
      that has room in the same copy, so they overwrite bytes 6 to 9; none of them is read afterwards
      from its old place. */
  method GetLegacyNumericID(uuid: seq<byte>) returns (id: int)
    requires |uuid| == 16
    ensures id == ZigzagDecode(Groups(IdBytes(uuid)) % TWO_64)
  {
    var u := new byte[16](i requires 0 <= i < 16 => uuid[i]);
    for i := 0 to 4
      invariant forall k :: 0 <= k < 6 || 10 <= k < 16 ==> u[k] == uuid[k]
      invariant forall k :: 6 <= k < 6 + i ==> u[k] == uuid[k + 6]
    {
      u[6 + i] := u[12 + i];
    }
    assert u[..10] == IdBytes(uuid);
    var value := VarInt(u, 10);
    id := ZigzagDecode(value);
  }

  /** A UUID that carries the code of a signed 64-bit integer in its id bytes yields that integer. */
  lemma LegacyIdRoundTrip(n: int, uuid: seq<byte>, tail: seq<byte>)
    requires -TWO_63 <= n < TWO_63 && |uuid| == 16
    requires IdBytes(uuid) == Encode(ZigzagEncode(n)) + tail
    ensures ZigzagDecode(Groups(IdBytes(uuid)) % TWO_64) == n
  {
    WordRoundTrip(ZigzagEncode(n), tail);
    ZigzagBijection(0, n);
  }
}
