/**
 * `bit_flag<T>` (tools/module/data/bit_flag.hpp): a set of `8 * T` boolean
 * flags packed into an array of `T` bytes.  Bit `b` lives in byte `b / 8` at
 * bit position `b % 8`.
 */
module BitFlags {
  import opened Wrappers
  import opened Numerals

  type Byte = bv8

  /** The message of the `std::out_of_range` that `set` and `get` throw. */
  const OUT_OF_RANGE: string := "Bit index out of range!"

  /** Binary digit `k` of `n`, counting from the least significant. */
  function NatBit(n: nat, k: nat): bool
  {
    if k == 0 then n % 2 == 1 else NatBit(n / 2, k - 1)
  }

  /** Flag `j` of a byte array read arithmetically: binary digit `j % 8` of byte `j / 8`. */
  ghost function BitValue(bytes: seq<Byte>, j: nat): bool
    requires j < 8 * |bytes|
  {
    NatBit(bytes[j / 8] as nat, j % 8)
  }

  /** Every flag of the byte array is false. */
  ghost predicate AllClear(bytes: seq<Byte>)
  {
    forall j :: 0 <= j < 8 * |bytes| ==> !BitValue(bytes, j)
  }

  /** Shifting a byte right by one halves its value. */
  lemma HalveByte(b: Byte)
    ensures (b >> 1) as nat == (b as nat) / 2
  {
  }

  /** The mask `1 << offset` tests the same bit as the arithmetic reading. */
  lemma {:induction false} MaskTestsBit(b: Byte, offset: nat)
    requires offset < 8
    ensures (b & ((1 as Byte) << offset) != 0) == NatBit(b as nat, offset)
  {
    if offset > 0 {
      MaskTestsBit(b >> 1, offset - 1);
      assert (b & ((1 as Byte) << offset) != 0) == ((b >> 1) & ((1 as Byte) << (offset - 1)) != 0);
      HalveByte(b);
    }
  }

  /** No binary digit of zero is one. */
  lemma {:induction false} NatBitOfZero(k: nat)
    ensures !NatBit(0, k)
  {
    if k > 0 {
      NatBitOfZero(k - 1);
    }
  }

  /** The byte `flag_[byte_index]` becomes after `|= (1 << bit_offset)` or `&= ~(1 << bit_offset)`. */
  function UpdatedByte(b: Byte, offset: nat, f: bool): Byte
    requires offset < 8
  {
    if f then b | ((1 as Byte) << offset) else b & !((1 as Byte) << offset)
  }

  /** Under the mask of bit `k`, the updated byte shows `f` at `offset` and the old bit elsewhere. */
  lemma MaskAfterUpdate(b: Byte, offset: nat, f: bool, k: nat)
    requires offset < 8 && k < 8
    ensures (UpdatedByte(b, offset, f) & ((1 as Byte) << k) != 0)
         == (if k == offset then f else b & ((1 as Byte) << k) != 0)
  {
  }

  /** Setting or clearing bit `offset` of a byte changes that bit only. */
  lemma UpdateByte(b: Byte, offset: nat, f: bool, k: nat)
    requires offset < 8 && k < 8
    ensures NatBit(UpdatedByte(b, offset, f) as nat, k) == if k == offset then f else NatBit(b as nat, k)
  {
    MaskAfterUpdate(b, offset, f, k);
    MaskTestsBit(UpdatedByte(b, offset, f), k);
    MaskTestsBit(b, k);
  }

  /** Updating byte `bit / 8` as `set` does changes flag `bit` to `f` and no other flag. */
  lemma UpdateFlags(before: seq<Byte>, bit: nat, f: bool)
    requires bit < 8 * |before|
    ensures var after := before[bit / 8 := UpdatedByte(before[bit / 8], bit % 8, f)];
            forall j :: 0 <= j < 8 * |before| ==>
              BitValue(after, j) == if j == bit then f else BitValue(before, j)
  {
    var after := before[bit / 8 := UpdatedByte(before[bit / 8], bit % 8, f)];
    forall j | 0 <= j < 8 * |before|
      ensures BitValue(after, j) == if j == bit then f else BitValue(before, j)
    {
      if j / 8 == bit / 8 {
        assert j == bit <==> j % 8 == bit % 8;
        UpdateByte(before[bit / 8], bit % 8, f, j % 8);
      }
    }
  }

  /** Every flag of an all-zero byte array is false. */
  lemma ZeroBytesClear(bytes: seq<Byte>)
    requires forall i :: 0 <= i < |bytes| ==> bytes[i] == 0
    ensures AllClear(bytes)
  {
    forall j | 0 <= j < 8 * |bytes|
      ensures !BitValue(bytes, j)
    {
      NatBitOfZero(j % 8);
    }
  }

  class BitFlag {
    /** The template parameter `T`: the number of bytes. */
    const size: nat
    const flag: array<Byte>

    ghost predicate Valid()
    {
      size > 0 && flag.Length == size
    }

    /** `bit_flag()`: every byte zero-initialised, so every flag is false. */
    constructor (bytes: nat)
      requires bytes > 0
      ensures Valid() && size == bytes && fresh(flag)
      ensures AllClear(flag[..])
    {
      size := bytes;
      flag := new Byte[bytes](_ => 0);
      new;
      ZeroBytesClear(flag[..]);
    }

    /** `get(Bit)`: throws for a bit past the end; otherwise the flag's value. */
    function Get(bit: nat): (r: Result<bool, string>)
      requires Valid()
      reads flag
      ensures r.Ok? <==> bit < 8 * size
      ensures r.Err? ==> r.error == OUT_OF_RANGE
      ensures r.Ok? ==> r.value == BitValue(flag[..], bit)
    {
      if bit >= 8 * size then
        Err(OUT_OF_RANGE)
      else
        var byteIndex := bit / 8;
        var bitOffset := bit % 8;
        MaskTestsBit(flag[byteIndex], bitOffset);
        Ok(flag[byteIndex] & ((1 as Byte) << bitOffset) != 0)
    }

    /**
     * `set(Bit, flag)`: throws and changes nothing for a bit past the end;
     * otherwise that one flag becomes `f` and every other flag keeps its value.
     */
    method Set(bit: nat, f: bool) returns (r: Result<(), string>)
      requires Valid()
      modifies flag
      ensures Valid()
      ensures r.Ok? <==> bit < 8 * size
      ensures r.Err? ==> r.error == OUT_OF_RANGE && flag[..] == old(flag[..])
      ensures r.Ok? ==> forall j :: 0 <= j < 8 * size ==>
                BitValue(flag[..], j) == if j == bit then f else BitValue(old(flag[..]), j)
    {
      if bit >= 8 * size {
        return Err(OUT_OF_RANGE);
      }
      var byteIndex := bit / 8;
      var bitOffset := bit % 8;
      ghost var before := flag[..];
      flag[byteIndex] := UpdatedByte(flag[byteIndex], bitOffset, f);
      assert flag[..] == before[byteIndex := UpdatedByte(before[byteIndex], bitOffset, f)];
      UpdateFlags(before, bit, f);
      r := Ok(());
    }

    /** `clear()`: zero every byte, so every flag reads false. */
    method Clear()
      requires Valid()
      modifies flag
      ensures Valid() && AllClear(flag[..])
    {
      var i := 0;
      while i < flag.Length
        invariant 0 <= i <= flag.Length
        invariant forall k :: 0 <= k < i ==> flag[k] == 0
      {
        flag[i] := 0;
        i := i + 1;
      }
      ZeroBytesClear(flag[..]);
    }
  }
}
