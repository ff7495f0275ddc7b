/**
 * Conversion between a decimal digit string and a little-endian vector of
 * 32-bit words (tools/module/big_number/input_out.cpp).  Both directions work
 * through a vector of base-10^9 blocks, least significant block first.
 */
module BigNumber {
  import opened Wrappers
  import opened Numerals
  import opened Size

  /** The base of one decimal block: nine decimal digits. */
  const BASE: nat := 1_000_000_000
  /** The base of one binary word, `1ULL << 32`. */
  const WORD: nat := 0x1_0000_0000

  lemma WordIsPow()
    ensures Pow(2, 32) == WORD
  {
    assert Pow(2, 8) == 256;
    PowAdd(2, 8, 8);
    PowAdd(2, 16, 16);
  }

  lemma BaseIsPow()
    ensures Pow(10, 9) == BASE
  {
  }

  /** The value of little-endian limbs in the given base. */
  function LimbValue(s: seq<nat>, base: nat): nat
  {
    if s == [] then 0 else s[0] + base * LimbValue(s[1..], base)
  }

  /** Every limb is a digit of the base. */
  predicate Limbs(s: seq<nat>, base: nat)
  {
    forall i :: 0 <= i < |s| ==> s[i] < base
  }

  /** No zero limb at the most significant end. */
  predicate NoLeadingZero(s: seq<nat>)
  {
    s == [] || s[|s| - 1] != 0
  }

  /** The number of binary digits of `v`. */
  function BitLength(v: nat): nat
  {
    if v == 0 then 0 else 1 + BitLength(v / 2)
  }

  lemma {:induction false} LimbValueAppend(s: seq<nat>, x: nat, base: nat)
    ensures LimbValue(s + [x], base) == LimbValue(s, base) + x * Pow(base, |s|)
  {
    if s == [] {
      assert [x][1..] == [];
    } else {
      assert (s + [x])[1..] == s[1..] + [x];
      LimbValueAppend(s[1..], x, base);
      calc {
        LimbValue(s + [x], base);
        s[0] + base * LimbValue(s[1..] + [x], base);
        s[0] + base * (LimbValue(s[1..], base) + x * Pow(base, |s| - 1));
        s[0] + base * LimbValue(s[1..], base) + x * (base * Pow(base, |s| - 1));
      }
    }
  }

  lemma {:induction false} LimbValueBound(s: seq<nat>, base: nat)
    requires Limbs(s, base)
    ensures LimbValue(s, base) < Pow(base, |s|)
  {
    if s != [] {
      LimbValueBound(s[1..], base);
      DigitBound(s[0], base, LimbValue(s[1..], base), Pow(base, |s| - 1));
    }
  }

  /** A digit plus `base` times a value below `p` is below `base * p`. */
  lemma DigitBound(d: nat, base: nat, v: nat, p: nat)
    requires d < base && v < p
    ensures d + base * v < base * p
  {
    MulMonotone(v + 1, p, base);
    assert (v + 1) * base == v * base + base;
  }

  /** Limbs whose top limb is nonzero have a positive value. */
  lemma LimbValuePositive(s: seq<nat>, base: nat)
    requires base > 0 && s != [] && NoLeadingZero(s)
    ensures LimbValue(s, base) > 0
  {
    LimbValueAppend(s[..|s| - 1], s[|s| - 1], base);
    assert s[..|s| - 1] + [s[|s| - 1]] == s;
  }

  lemma {:induction false} BitLengthLower(v: nat)
    requires v > 0
    ensures Pow(2, BitLength(v) - 1) <= v
  {
    if v > 1 {
      BitLengthLower(v / 2);
    }
  }

  /** One step of the halving loop on lines 29-33: the block value before equals twice the one after plus the remainder. */
  lemma HalvingStep(before: seq<nat>, after: seq<nat>, k: nat, remainder: nat, current: nat)
    requires k < |before| == |after|
    requires current == remainder * BASE + before[k]
    requires after[k] == current / 2
    requires LimbValue(before[k + 1..], BASE) == 2 * LimbValue(after[k + 1..], BASE) + remainder
    ensures LimbValue(before[k..], BASE) == 2 * LimbValue(after[k..], BASE) + current % 2
  {
    assert before[k..][1..] == before[k + 1..];
    assert after[k..][1..] == after[k + 1..];
  }

  /** The value still held in the blocks plus the bits already emitted. */
  ghost function Accounted(pending: nat, binary: seq<nat>, currentBlock: nat, currentBitCount: nat): nat
  {
    pending * Pow(2, 32 * |binary| + currentBitCount)
    + LimbValue(binary, WORD) + currentBlock * Pow(2, 32 * |binary|)
  }

  lemma EmitArith(half: int, remainder: int, block: int, low: int, p: int, q: int, r: int, p2: int)
    requires p == r * q && p2 == 2 * p
    ensures half * p2 + low + (block + remainder * q) * r == (2 * half + remainder) * p + low + block * r
  {
    assert (2 * half + remainder) * p == half * (2 * p) + remainder * p;
    assert remainder * p == (remainder * q) * r;
    assert (block + remainder * q) * r == block * r + (remainder * q) * r;
  }

  /** Emitting the remainder of a halving as the next bit keeps the accounted value. */
  lemma EmitBit(before: seq<nat>, after: seq<nat>, remainder: nat, binary: seq<nat>, currentBlock: nat, currentBitCount: nat)
    requires LimbValue(before, BASE) == 2 * LimbValue(after, BASE) + remainder
    ensures Accounted(LimbValue(after, BASE), binary, currentBlock + remainder * Pow(2, currentBitCount), currentBitCount + 1)
         == Accounted(LimbValue(before, BASE), binary, currentBlock, currentBitCount)
  {
    var w := 32 * |binary|;
    assert Pow(2, w + currentBitCount) == Pow(2, w) * Pow(2, currentBitCount) by {
      PowAdd(2, w, currentBitCount);
    }
    assert Pow(2, w + currentBitCount + 1) == 2 * Pow(2, w + currentBitCount) by {
      PowAdd(2, w + currentBitCount, 1);
    }
    EmitArith(LimbValue(after, BASE), remainder, currentBlock, LimbValue(binary, WORD),
              Pow(2, w + currentBitCount), Pow(2, currentBitCount), Pow(2, w), Pow(2, w + currentBitCount + 1));
  }

  /** Storing a full 32-bit block as the next word keeps the accounted value. */
  lemma FlushWord(pending: nat, binary: seq<nat>, currentBlock: nat)
    ensures Accounted(pending, binary + [currentBlock], 0, 0) == Accounted(pending, binary, currentBlock, 32)
  {
    WordIsPow();
    PowMul(2, 32, |binary|);
    LimbValueAppend(binary, currentBlock, WORD);
    assert 32 * |binary + [currentBlock]| + 0 == 32 * |binary| + 32;
  }

  /** Appending the last, partially filled block as a word keeps the accounted value. */
  lemma FlushLastWord(binary: seq<nat>, currentBlock: nat)
    ensures LimbValue(binary + [currentBlock], WORD) == LimbValue(binary, WORD) + currentBlock * Pow(2, 32 * |binary|)
  {
    WordIsPow();
    PowMul(2, 32, |binary|);
    LimbValueAppend(binary, currentBlock, WORD);
  }

  /** Taking the next (up to) nine digits from the right extends the block value. */
  lemma SplitStep(decimal: string, blocks: seq<nat>, start: nat, i: nat)
    requires AllDigits(decimal) && start <= i <= |decimal| && i - start <= 9
    requires |decimal| - i == 9 * |blocks|
    requires LimbValue(blocks, BASE) == DecimalValue(decimal[i..])
    ensures DecimalValue(decimal[start..i]) < BASE
    ensures LimbValue(blocks + [DecimalValue(decimal[start..i])], BASE) == DecimalValue(decimal[start..])
  {
    var chunk := decimal[start..i];
    DecimalValueBound(chunk);
    PowMonotone(10, |chunk|, 9);
    DecimalValueAppend(chunk, decimal[i..]);
    assert chunk + decimal[i..] == decimal[start..];
    BaseIsPow();
    PowMul(10, 9, |blocks|);
    LimbValueAppend(blocks, DecimalValue(chunk), BASE);
  }

  /**
   * One pass of the long division by two on lines 29-33, from the most
   * significant block down: each block becomes its quotient and the
   * remainder carries into the next lower block.
   */
  method HalveBlocks(blocks: seq<U64>) returns (halved: seq<U64>, remainder: U64)
    requires Limbs(blocks, BASE)
    ensures |halved| == |blocks| && Limbs(halved, BASE) && remainder < 2
    ensures LimbValue(blocks, BASE) == 2 * LimbValue(halved, BASE) + remainder
  {
    halved := blocks;
    remainder := 0;
    var k: int := |halved| - 1;
    while k >= 0
      invariant -1 <= k < |halved| == |blocks|
      invariant remainder < 2
      invariant Limbs(halved, BASE)
      invariant halved[..k + 1] == blocks[..k + 1]
      invariant LimbValue(blocks[k + 1..], BASE) == 2 * LimbValue(halved[k + 1..], BASE) + remainder
    {
      var current: U64 := remainder * BASE + halved[k];  // below 2 * 10^9: no u64 overflow
      ghost var prev := halved;
      halved := halved[k := current / 2];                // current >> 1
      HalvingStep(blocks, halved, k, remainder, current);
      assert prev[k + 1..] == halved[k + 1..];
      remainder := current % 2;                          // current & 1
      k := k - 1;
    }
    assert blocks[0..] == blocks && halved[0..] == halved;
  }

  /** Lines 47-49: drop zero blocks from the most significant end. */
  method PopZeroBlocks(blocks: seq<U64>) returns (stripped: seq<U64>)
    requires Limbs(blocks, BASE)
    ensures |stripped| <= |blocks| && stripped == blocks[..|stripped|] && NoLeadingZero(stripped)
    ensures Limbs(stripped, BASE) && LimbValue(stripped, BASE) == LimbValue(blocks, BASE)
  {
    stripped := blocks;
    while stripped != [] && stripped[|stripped| - 1] == 0
      invariant |stripped| <= |blocks| && stripped == blocks[..|stripped|]
      invariant Limbs(stripped, BASE) && LimbValue(stripped, BASE) == LimbValue(blocks, BASE)
    {
      LimbValueAppend(stripped[..|stripped| - 1], 0, BASE);
      assert stripped[..|stripped| - 1] + [0] == stripped;
      stripped := stripped[..|stripped| - 1];
    }
  }

  /** Lines 14-17: cut the digit string from the right into blocks of nine digits. */
  method SplitDecimal(decimal: string) returns (blocks: seq<U64>)
    requires AllDigits(decimal)
    ensures Limbs(blocks, BASE) && LimbValue(blocks, BASE) == DecimalValue(decimal)
    ensures |blocks| == (|decimal| + 8) / 9
  {
    blocks := [];
    var i: int := |decimal|;
    while i > 0
      invariant i == |decimal| - 9 * |blocks| && i > -9
      invariant Limbs(blocks, BASE)
      invariant LimbValue(blocks, BASE) == DecimalValue(decimal[if i > 0 then i else 0..])
    {
      var start := if i - 9 > 0 then i - 9 else 0;  // std::max(i64(0), i - 9)
      SplitStep(decimal, blocks, start, i);
      var block: U64 := DecimalValue(decimal[start..i]);  // std::stoull on at most nine digits
      blocks := blocks + [block];
      i := i - 9;
    }
    assert decimal[0..] == decimal;
  }

  /**
   * One iteration of the loop on lines 25-50: halve the blocks, append the
   * remainder to the current 32-bit block (storing it once 32 bits are
   * filled), then drop zero blocks from the top.
   */
  method ExtractBit(blocks: seq<U64>, binary: seq<U32>, currentBlock: U64, currentBitCount: nat)
      returns (blocks': seq<U64>, binary': seq<U32>, currentBlock': U64, currentBitCount': nat)
    requires blocks != [] && Limbs(blocks, BASE)
    requires currentBitCount < 32 && currentBlock < Pow(2, currentBitCount)
    ensures Limbs(blocks', BASE) && NoLeadingZero(blocks')
    ensures currentBitCount' < 32 && currentBlock' < Pow(2, currentBitCount')
    ensures 32 * |binary'| + currentBitCount' == 32 * |binary| + currentBitCount + 1
    ensures binary'[..|binary|] == binary
    ensures Accounted(LimbValue(blocks', BASE), binary', currentBlock', currentBitCount')
         == Accounted(LimbValue(blocks, BASE), binary, currentBlock, currentBitCount)
    ensures LimbValue(blocks', BASE) == LimbValue(blocks, BASE) / 2
  {
    var remainder: U64;
    blocks', remainder := HalveBlocks(blocks);
    ghost var half := LimbValue(blocks', BASE);

    // current_block |= remainder << current_bit_count: that bit is still clear, so OR adds it.
    EmitBit(blocks, blocks', remainder, binary, currentBlock, currentBitCount);
    assert currentBlock + remainder * Pow(2, currentBitCount) < Pow(2, currentBitCount + 1) <= WORD by {
      PowAdd(2, currentBitCount, 1);
      PowMonotone(2, currentBitCount + 1, 32);
      WordIsPow();
    }
    currentBlock' := currentBlock + remainder * Pow(2, currentBitCount);
    currentBitCount' := currentBitCount + 1;
    binary' := binary;
    if currentBitCount' == 32 {
      FlushWord(half, binary, currentBlock');
      binary' := binary + [currentBlock' as U32];
      currentBlock' := 0;
      currentBitCount' := 0;
    }
    blocks' := PopZeroBlocks(blocks');
  }

  /**
   * The loop on lines 25-50: halve until no block is left.  The bits not yet
   * stored as a word are returned as the partially filled current block.
   */
  method ShiftOutBits(blocks: seq<U64>) returns (binary: seq<U32>, currentBlock: U64, currentBitCount: nat)
    requires Limbs(blocks, BASE)
    ensures currentBitCount < 32 && currentBlock < Pow(2, currentBitCount)
    ensures Accounted(0, binary, currentBlock, currentBitCount) == LimbValue(blocks, BASE)
    ensures LimbValue(blocks, BASE) > 0 ==> 32 * |binary| + currentBitCount == BitLength(LimbValue(blocks, BASE))
    ensures LimbValue(blocks, BASE) == 0 ==> binary == [] && currentBitCount == (if blocks == [] then 0 else 1)
  {
    ghost var v := LimbValue(blocks, BASE);
    ghost var blocks0 := blocks;
    var rest := blocks;
    binary := [];
    currentBlock := 0;
    currentBitCount := 0;
    ghost var steps: nat := 0;
    while rest != []
      invariant Limbs(rest, BASE)
      invariant steps == 32 * |binary| + currentBitCount
      invariant currentBitCount < 32 && currentBlock < Pow(2, currentBitCount)
      invariant Accounted(LimbValue(rest, BASE), binary, currentBlock, currentBitCount) == v
      invariant steps > 0 ==> NoLeadingZero(rest)
      invariant steps == 0 ==> rest == blocks0 && binary == [] && currentBitCount == 0
      invariant v > 0 ==> BitLength(LimbValue(rest, BASE)) + steps == BitLength(v)
      invariant v == 0 ==> steps <= 1 && (rest == [] || steps == 0)
      invariant blocks0 == [] ==> steps == 0
      decreases LimbValue(rest, BASE), |rest|
    {
      if steps > 0 {
        LimbValuePositive(rest, BASE);
      }
      rest, binary, currentBlock, currentBitCount := ExtractBit(rest, binary, currentBlock, currentBitCount);
      steps := steps + 1;
      if rest != [] {
        LimbValuePositive(rest, BASE);
      }
    }
  }

  /** Lines 51-54: a partially filled current block is stored as the last word. */
  method StoreLastWord(binary: seq<U32>, currentBlock: U64, currentBitCount: nat) returns (binary': seq<U32>)
    requires currentBitCount < 32 && currentBlock < Pow(2, currentBitCount)
    ensures LimbValue(binary', WORD) == Accounted(0, binary, currentBlock, currentBitCount)
    ensures |binary'| == (32 * |binary| + currentBitCount + 31) / 32
    ensures currentBitCount == 0 ==> binary' == binary
  {
    binary' := binary;
    WordCount(|binary|, currentBitCount);
    if currentBitCount > 0 {
      FlushLastWord(binary, currentBlock);
      assert currentBlock < WORD by {
        PowMonotone(2, currentBitCount, 32);
        WordIsPow();
      }
      binary' := binary + [currentBlock];
    }
  }

  /**
   * `decimal_to_binary`: the string is cut from the right into 9-digit blocks,
   * then repeatedly halved; each halving emits the next binary digit.
   */
  method DecimalToBinary(decimal: string) returns (binary: seq<U32>)
    requires AllDigits(decimal)
    ensures LimbValue(binary, WORD) == DecimalValue(decimal)
    ensures decimal == [] ==> binary == []
    ensures decimal != [] && DecimalValue(decimal) == 0 ==> binary == [0]
    ensures DecimalValue(decimal) > 0 ==>
              |binary| == (BitLength(DecimalValue(decimal)) + 31) / 32 && binary[|binary| - 1] != 0
  {
    var blocks := SplitDecimal(decimal);
    var words, currentBlock, currentBitCount := ShiftOutBits(blocks);
    binary := StoreLastWord(words, currentBlock, currentBitCount);
    if DecimalValue(decimal) > 0 {
      TopWordNonzero(binary, DecimalValue(decimal));
    } else if decimal != [] {
      assert currentBlock == 0;
      assert binary == [0];
    }
  }

  /** The carry step of lines 73-75 keeps the value: prefix digits plus the carry still to place. */
  lemma CarryArith(la: int, lb: int, p: int, p1: int, carry: int, b: int, a: int, c0: int)
    requires la + p * carry == lb * WORD + c0
    requires p1 == p * BASE && a == (carry + b * WORD) % BASE
    ensures la + a * p + p1 * ((carry + b * WORD) / BASE) == (lb + b * p) * WORD + c0
  {
    var t := carry + b * WORD;
    assert t == BASE * (t / BASE) + t % BASE;
    assert p * t == a * p + p1 * (t / BASE);
    assert p * t == p * carry + (b * p) * WORD;
  }

  /** One carry step of lines 72-76 at block `i`. */
  lemma ScaleStep(before: seq<nat>, after: seq<nat>, i: nat, carry: nat, c0: nat)
    requires i < |before| == |after|
    requires LimbValue(after[..i], BASE) + Pow(BASE, i) * carry == LimbValue(before[..i], BASE) * WORD + c0
    requires after[i] == (carry + before[i] * WORD) % BASE
    ensures LimbValue(after[..i + 1], BASE) + Pow(BASE, i + 1) * ((carry + before[i] * WORD) / BASE)
         == LimbValue(before[..i + 1], BASE) * WORD + c0
  {
    assert after[..i + 1] == after[..i] + [after[i]];
    assert before[..i + 1] == before[..i] + [before[i]];
    LimbValueAppend(after[..i], after[i], BASE);
    LimbValueAppend(before[..i], before[i], BASE);
    PowAdd(BASE, i, 1);
    CarryArith(LimbValue(after[..i], BASE), LimbValue(before[..i], BASE), Pow(BASE, i), Pow(BASE, i + 1),
               carry, before[i], after[i], c0);
  }

  /**
   * Lines 72-76: multiply the decimal blocks by 2^32 and add the incoming
   * word, block by block from the least significant; what does not fit is
   * left in the carry.
   */
  method ScaleBlocks(blocks: seq<U64>, word: U32) returns (scaled: seq<U64>, carry: U64)
    requires Limbs(blocks, BASE)
    ensures |scaled| == |blocks| && Limbs(scaled, BASE) && carry < WORD
    ensures LimbValue(scaled, BASE) + Pow(BASE, |blocks|) * carry == LimbValue(blocks, BASE) * WORD + word
    ensures NoLeadingZero(blocks) ==> NoLeadingZero(scaled) || carry > 0
  {
    scaled := blocks;
    carry := word;
    var i := 0;
    while i < |scaled|
      invariant 0 <= i <= |scaled| == |blocks| && carry < WORD
      invariant Limbs(scaled, BASE) && scaled[i..] == blocks[i..]
      invariant LimbValue(scaled[..i], BASE) + Pow(BASE, i) * carry == LimbValue(blocks[..i], BASE) * WORD + word
      invariant i == |blocks| && NoLeadingZero(blocks) ==> NoLeadingZero(scaled) || carry > 0
    {
      // below 2^32 + (10^9 - 1) * 2^32 = 10^9 * 2^32 < 2^64: no u64 overflow
      var t: U64 := carry + scaled[i] * WORD;
      ghost var prev := scaled;
      scaled := scaled[i := t % BASE];
      assert scaled[..i] == prev[..i];
      ScaleStep(blocks, scaled, i, carry, word);
      carry := t / BASE;
      i := i + 1;
    }
    assert scaled[..i] == scaled && blocks[..i] == blocks;
  }

  /** Lines 79-82: push the remaining carry as new top blocks. */
  method PushCarry(blocks: seq<U64>, carry: U64) returns (extended: seq<U64>)
    requires Limbs(blocks, BASE) && (NoLeadingZero(blocks) || carry > 0)
    ensures Limbs(extended, BASE) && NoLeadingZero(extended)
    ensures LimbValue(extended, BASE) == LimbValue(blocks, BASE) + Pow(BASE, |blocks|) * carry
  {
    extended := blocks;
    var c: U64 := carry;
    while c > 0
      invariant Limbs(extended, BASE) && (NoLeadingZero(extended) || c > 0)
      invariant LimbValue(extended, BASE) + Pow(BASE, |extended|) * c
             == LimbValue(blocks, BASE) + Pow(BASE, |blocks|) * carry
    {
      LimbValueAppend(extended, c % BASE, BASE);
      assert Pow(BASE, |extended| + 1) == Pow(BASE, |extended|) * BASE by {
        PowAdd(BASE, |extended|, 1);
      }
      PushArith(Pow(BASE, |extended|), c);
      extended := extended + [c % BASE];
      c := c / BASE;
    }
    assert Pow(BASE, |extended|) * c == 0;
  }

  lemma PushArith(p: int, c: int)
    requires c >= 0
    ensures p * (c % BASE) + (p * BASE) * (c / BASE) == p * c
  {
    assert c == BASE * (c / BASE) + c % BASE;
  }

  /**
   * Lines 64-83: the base-10^9 blocks of the value of the word vector,
   * folding in one word at a time from the most significant.
   */
  method DecimalBlocks(binary: seq<U32>) returns (blocks: seq<U64>)
    ensures Limbs(blocks, BASE) && NoLeadingZero(blocks)
    ensures LimbValue(blocks, BASE) == LimbValue(binary, WORD)
    ensures blocks == [] <==> LimbValue(binary, WORD) == 0
  {
    blocks := [];
    var j := |binary|;
    while j > 0
      invariant 0 <= j <= |binary|
      invariant Limbs(blocks, BASE) && NoLeadingZero(blocks)
      invariant LimbValue(blocks, BASE) == LimbValue(binary[j..], WORD)
    {
      j := j - 1;
      var scaled, carry := ScaleBlocks(blocks, binary[j]);
      assert scaled == [] ==> LimbValue(scaled, BASE) == 0;
      blocks := PushCarry(scaled, carry);
      assert binary[j..][1..] == binary[j + 1..];
    }
    assert binary[0..] == binary;
    if blocks != [] {
      LimbValuePositive(blocks, BASE);
    }
  }

  /** Appending one zero-padded block to the numeral of the higher blocks gives the numeral of the whole. */
  lemma JoinStep(high: nat, d: nat)
    requires high > 0 && d < BASE
    ensures |NatToString(d)| <= 9
    ensures NatToString(d + BASE * high) == NatToString(high) + (Zeros(9 - |NatToString(d)|) + NatToString(d))
  {
    BaseIsPow();
    NatToStringShift(high, d, 9);
    FixedWidthIsPadded(d, 9);
    assert d + BASE * high == high * Pow(10, 9) + d;
  }

  /**
   * Lines 86-90: the top block printed as is, every lower block padded to
   * nine digits.
   */
  method JoinBlocks(blocks: seq<U64>) returns (s: string)
    requires blocks != [] && Limbs(blocks, BASE) && NoLeadingZero(blocks)
    ensures s == NatToString(LimbValue(blocks, BASE))
  {
    var i := |blocks| - 1;
    s := NatToString(blocks[i]);
    assert blocks[i..][1..] == [];
    while i > 0
      invariant 0 <= i < |blocks|
      invariant s == NatToString(LimbValue(blocks[i..], BASE))
    {
      i := i - 1;
      var block := NatToString(blocks[i]);
      assert NoLeadingZero(blocks[i + 1..]);
      LimbValuePositive(blocks[i + 1..], BASE);
      assert blocks[i..][1..] == blocks[i + 1..];
      JoinStep(LimbValue(blocks[i + 1..], BASE), blocks[i]);
      s := s + (Zeros(9 - |block|) + block);
    }
  }

  /**
   * `binary_to_decimal` with the zero value printed as "0".  For a nonempty
   * vector of zero words the blocks vector comes out empty; see
   * BinaryToDecimalAsWritten.
   */
  method BinaryToDecimal(binary: seq<U32>) returns (s: string)
    ensures s == NatToString(LimbValue(binary, WORD))
  {
    if binary == [] {
      return "0";
    }
    var blocks := DecimalBlocks(binary);
    if blocks == [] {
      return "0";
    }
    s := JoinBlocks(blocks);
  }

  /**
   * `binary_to_decimal` as written: `None` stands for `back()` on an empty
   * blocks vector, which the code reaches for every nonempty vector of zero
   * words.
   */
  method BinaryToDecimalAsWritten(binary: seq<U32>) returns (s: Option<string>)
    ensures s == None <==> binary != [] && LimbValue(binary, WORD) == 0
    ensures s != None ==> s.value == NatToString(LimbValue(binary, WORD))
  {
    if binary == [] {
      return Some("0");
    }
    var blocks := DecimalBlocks(binary);
    if blocks == [] {
      return None;
    }
    var r := JoinBlocks(blocks);
    s := Some(r);
  }

  /** "0" converts to the single word 0, which the code as written cannot print back. */
  method ZeroRoundTripAsWritten() returns (binary: seq<U32>, back: Option<string>)
    ensures binary == [0] && back == None
  {
    binary := DecimalToBinary("0");
    back := BinaryToDecimalAsWritten(binary);
  }

  /**
   * The round trip of lines 127-147: converting a digit string to words and
   * back gives its canonical numeral, which is the string itself exactly
   * when the string is canonical.
   */
  method RoundTrip(decimal: string) returns (back: string)
    requires AllDigits(decimal)
    ensures back == NatToString(DecimalValue(decimal))
    ensures back == decimal <==> IsCanonical(decimal)
  {
    var binary := DecimalToBinary(decimal);
    back := BinaryToDecimal(binary);
    if IsCanonical(decimal) {
      NatToStringOfDecimalValue(decimal);
    }
  }

  /** Bits of `32 * words + bits` fill exactly `words` words plus one partial word when `bits > 0`. */
  lemma WordCount(words: nat, bits: nat)
    requires bits < 32
    ensures (32 * words + bits + 31) / 32 == words + (if bits > 0 then 1 else 0)
  {
  }

  /** The word vector of a positive value with ceil(bitlength/32) words ends in a nonzero word. */
  lemma TopWordNonzero(binary: seq<U32>, v: nat)
    requires v > 0 && LimbValue(binary, WORD) == v && |binary| == (BitLength(v) + 31) / 32
    ensures binary != [] && binary[|binary| - 1] != 0
  {
    var bits := BitLength(v);
    assert bits >= 1;
    var n := |binary|;
    if binary[n - 1] == 0 {
      var below := LowWordsBound(binary, v);
      var reached := Pow(2, bits - 1);
      BitLengthLower(v);
      assert 32 * (n - 1) <= bits - 1;
      PowMonotone(2, 32 * (n - 1), bits - 1);
      assert false;
    }
  }

  /** Below a zero top word, the value fits in the other words. */
  lemma LowWordsBound(binary: seq<U32>, v: nat) returns (below: nat)
    requires binary != [] && binary[|binary| - 1] == 0 && LimbValue(binary, WORD) == v
    ensures below == Pow(2, 32 * (|binary| - 1)) && v < below
  {
    var low := binary[..|binary| - 1];
    assert low + [0] == binary;
    LimbValueAppend(low, 0, WORD);
    LimbValueBound(low, WORD);
    WordIsPow();
    PowMul(2, 32, |low|);
    below := Pow(2, 32 * |low|);
  }
}
