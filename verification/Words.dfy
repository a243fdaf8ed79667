// A 128-bit address as its two 64-bit words: order, successor and masks as the Go code computes
// them, against the numbers they stand for.
module Words {
  import opened Bits
  import opened Prefixes
  import opened Octets

  const WORD := 0x1_0000_0000_0000_0000

  lemma Pow2Word()
    ensures Pow2(64) == WORD && Pow2(128) == WORD * WORD
  {
    Pow2Large();
    Pow2Add(32, 32);
    Pow2Add(64, 64);
  }

  function Wide(high: nat, low: nat): nat {
    high * WORD + low
  }

  function High(a: nat): nat {
    a / WORD
  }

  function Low(a: nat): (r: nat)
    ensures r < WORD
  {
    a % WORD
  }

  lemma WideParts(a: nat)
    requires a < Pow2(128)
    ensures High(a) < WORD && Wide(High(a), Low(a)) == a
  {
    Pow2Word();
  }

  // Shifting the address right by more than a word is shifting its high word.
  lemma ShrHigh(high: nat, low: nat, n: nat)
    requires low < WORD
    ensures Shr(Wide(high, low), 64 + n) == Shr(high, n)
  {
    Pow2Word();
    ShiftShift(Wide(high, low), 64, n);
    DivUnique(Wide(high, low), WORD, high);
  }

  function Cmp128(aHigh: nat, aLow: nat, bHigh: nat, bLow: nat): int {
    if aHigh != bHigh then if aHigh < bHigh then -1 else 1
    else if aLow != bLow then if aLow < bLow then -1 else 1
    else 0
  }

  // The word-by-word comparison is the comparison of the addresses.
  lemma Cmp128IsOrder(aHigh: nat, aLow: nat, bHigh: nat, bLow: nat)
    requires aLow < WORD && bLow < WORD
    ensures Cmp128(aHigh, aLow, bHigh, bLow) < 0 <==> Wide(aHigh, aLow) < Wide(bHigh, bLow)
    ensures Cmp128(aHigh, aLow, bHigh, bLow) == 0 <==> Wide(aHigh, aLow) == Wide(bHigh, bLow)
  {
  }

  // high, low and whether the address has a successor.
  function Inc128(high: nat, low: nat): (nat, nat, bool) {
    var sum, carry := (low + 1) % WORD, (low + 1) / WORD;
    if carry == 0 then (high, sum, true)
    else if high == WORD - 1 then (0, 0, false)
    else (high + 1, sum, true)
  }

  // The successor, refused exactly at the top address.
  lemma Inc128IsNext(high: nat, low: nat)
    requires high < WORD && low < WORD
    ensures Inc128(high, low).2 <==> Wide(high, low) + 1 < Pow2(128)
    ensures Inc128(high, low).2 ==> Wide(Inc128(high, low).0, Inc128(high, low).1) == Wide(high, low) + 1
    ensures Inc128(high, low).2 ==> Inc128(high, low).0 < WORD && Inc128(high, low).1 < WORD
  {
    Pow2Word();
  }

  // The last address of a masked prefix, the free bits of each word set.
  function LastWords(high: nat, low: nat, len: nat): (nat, nat)
    requires len <= 128
  {
    if len < 64 then (high + Pow2(64 - len) - 1, WORD - 1)
    else if len < 128 then (high, low + Pow2(128 - len) - 1)
    else (high, low)
  }

  lemma LastWordsIsLast(high: nat, low: nat, len: nat)
    requires len <= 128 && high < WORD && low < WORD && Valid(128, Prefix(Wide(high, low), len))
    ensures Wide(LastWords(high, low, len).0, LastWords(high, low, len).1) == Last(128, Prefix(Wide(high, low), len))
    ensures LastWords(high, low, len).0 < WORD && LastWords(high, low, len).1 < WORD
  {
    Pow2Word();
    ValidFits(128, Prefix(Wide(high, low), len));
    if len < 64 {
      Pow2Add(64 - len, 64);
      assert 64 - len + 64 == 128 - len;
      LowWordClear(high, low, Pow2(64 - len));
    } else {
      Pow2Add(len - 64, 128 - len);
      assert len - 64 + (128 - len) == 64;
      LowWordBlock(high, low, Pow2(len - 64), Pow2(128 - len));
    }
  }

  // A block that divides the word and is aligned in the address stays inside its low word.
  lemma LowWordBlock(high: nat, low: nat, n: nat, m: nat)
    requires m > 0 && n * m == WORD && low < WORD && Wide(high, low) % m == 0
    ensures low + m <= WORD
  {
    var q := Wide(high, low) / m;
    assert q * m == Wide(high, low);
    MulShuffle(high, n, m);
    TakeTimes(q, high * n, m);
    DivUnique(low, m, q - high * n);
    BlockFits(low, m, n, WORD);
  }

  // A multiple of a multiple of the word has a clear low word.
  lemma LowWordClear(high: nat, low: nat, m: nat)
    requires low < WORD && m > 0 && Wide(high, low) % (m * WORD) == 0
    ensures low == 0
  {
    var q := Wide(high, low) / (m * WORD);
    assert Wide(high, low) == q * (m * WORD);
    MulShuffle(q, m, WORD);
    DivUnique(Wide(high, low), WORD, high);
    DivUnique((q * m) * WORD, WORD, q * m);
  }

  // The containment test on two words: the low words are compared only past bit 64.
  predicate Covers6(keyHigh: nat, keyLow: nat, len: nat, high: nat, low: nat)
    requires len <= 128
  {
    if len <= 64 then Shr(high, 64 - len) == Shr(keyHigh, 64 - len)
    else high == keyHigh && Shr(low, 128 - len) == Shr(keyLow, 128 - len)
  }

  lemma Covers6IsCovers(keyHigh: nat, keyLow: nat, len: nat, high: nat, low: nat)
    requires len <= 128 && keyLow < WORD && low < WORD
    ensures Covers6(keyHigh, keyLow, len, high, low) <==> Covers(128, Prefix(Wide(keyHigh, keyLow), len), Wide(high, low))
  {
    if len <= 64 {
      ShrHigh(keyHigh, keyLow, 64 - len);
      ShrHigh(high, low, 64 - len);
    } else {
      Pow2Word();
      Pow2Add(len - 64, 128 - len);
      assert len - 64 + (128 - len) == 64;
      hide Wide;
      ShiftedWords(keyHigh, keyLow, len);
      ShiftedWords(high, low, len);
      TwoDigits(Shr(keyHigh, 0), Shr(keyLow, 128 - len), Shr(high, 0), Shr(low, 128 - len), Pow2(len - 64));
    }
  }

  // Shifting within the low word keeps the high word as the upper digit.
  lemma ShiftedWords(high: nat, low: nat, len: nat)
    requires 64 < len <= 128 && low < WORD
    ensures Shr(high, 0) == high && Shr(low, 128 - len) < Pow2(len - 64)
    ensures Shr(Wide(high, low), 128 - len) == high * Pow2(len - 64) + Shr(low, 128 - len)
  {
    Pow2Word();
    Pow2Add(len - 64, 128 - len);
    assert len - 64 + (128 - len) == 64;
    assert Pow2(0) == 1;
    hide Pow2;
    ShiftedSum(high, low, Pow2(128 - len), Pow2(len - 64));
    DivBracket(low, Pow2(128 - len));
    DigitFits(low, Pow2(128 - len), Pow2(len - 64));
  }

  lemma DigitFits(low: nat, m: nat, d: nat)
    requires m > 0 && low < d * m
    ensures low / m < d
  {
    DivBracket(low, m);
    if low / m >= d {
      MulMono(d, low / m, m);
    }
  }

  lemma TwoDigits(a: nat, b: nat, c: nat, e: nat, d: nat)
    requires b < d && e < d
    ensures a * d + b == c * d + e <==> a == c && b == e
  {
    DivUnique(a * d + b, d, a);
    DivUnique(c * d + e, d, c);
  }

  // A stride's octet taken from the word that holds it.
  function Byte6(high: nat, low: nat, stride: nat): nat
    requires stride < 16
  {
    if stride < 8 then Shr(high, 56 - 8 * stride) % 256 else Shr(low, 56 - 8 * (stride - 8)) % 256
  }

  lemma Byte6IsOctet(high: nat, low: nat, stride: nat)
    requires stride < 16 && low < WORD
    ensures Byte6(high, low, stride) == OctetAt(16, Wide(high, low), stride)
  {
    if stride < 8 {
      ShrHigh(high, low, 56 - 8 * stride);
      assert 64 + (56 - 8 * stride) == 8 * (16 - 1 - stride);
    } else {
      var n := 56 - 8 * (stride - 8);
      assert n == 8 * (16 - 1 - stride);
      LowOctet(high, low, n);
    }
  }

  // The high word only adds multiples of 256 above an octet of the low word.
  lemma LowOctet(high: nat, low: nat, n: nat)
    requires n <= 56 && low < WORD
    ensures Shr(Wide(high, low), n) % 256 == Shr(low, n) % 256
  {
    Pow2Word();
    Pow2Add(64 - n, n);
    Pow2Add(56 - n, 8);
    Pow2Small();
    assert 64 - n == 56 - n + 8;
    hide Pow2;
    ShiftedSum(high, low, Pow2(n), Pow2(56 - n) * 256);
    OctetOfSum(Shr(Wide(high, low), n), high, Pow2(56 - n), Shr(low, n));
  }

  lemma OctetOfSum(x: nat, h: nat, c: nat, y: nat)
    requires x == h * (c * 256) + y
    ensures x % 256 == y % 256
  {
    MulShuffle(h, c, 256);
    AddMultiple(h * c, y);
  }

  lemma AddMultiple(k: nat, x: nat)
    ensures (k * 256 + x) % 256 == x % 256
  {
  }

  lemma ShiftedSum(high: nat, low: nat, m: nat, d: nat)
    requires m > 0 && d * m == WORD
    ensures Wide(high, low) / m == high * d + low / m
  {
    MulShuffle(high, d, m);
    DivBracket(low, m);
    var q := high * d + low / m;
    assert q * m == (high * d) * m + (low / m) * m by { AddTimes(high * d, low / m, m); }
    DivUnique(Wide(high, low), m, q);
  }

}
