/** The byte-array bit masks the timer manager keeps its "available" and
    "allocated" sets in: bit i lives in byte i / 8 at position i % 8. */
module Bitmask {

  /** The byte with only bit k set, that is 1 << k. */
  function Bit(k: nat): bv8
    requires k < 8
  {
    if k == 0 then 0x01 else if k == 1 then 0x02 else if k == 2 then 0x04
    else if k == 3 then 0x08 else if k == 4 then 0x10 else if k == 5 then 0x20
    else if k == 6 then 0x40 else 0x80
  }

  /** nrf_bitmask_bit_is_set */
  predicate IsSet(i: nat, mask: seq<bv8>)
    requires i < 8 * |mask|
  {
    mask[i / 8] & Bit(i % 8) != 0
  }

  /** Setting bit k of a byte keeps its other bits. */
  lemma ByteSet(b: bv8, k: nat, j: nat)
    requires k < 8 && j < 8
    ensures (b | Bit(k)) & Bit(j) != 0 <==> j == k || b & Bit(j) != 0
  {
  }

  /** Clearing bit k of a byte keeps its other bits. */
  lemma ByteClear(b: bv8, k: nat, j: nat)
    requires k < 8 && j < 8
    ensures (b & !Bit(k)) & Bit(j) != 0 <==> j != k && b & Bit(j) != 0
  {
  }

  /** Bit positions are equal exactly when their byte and offset are. */
  lemma SplitIndex(i: nat, j: nat)
    ensures i == j <==> i / 8 == j / 8 && i % 8 == j % 8
  {
  }

  /** One bit of the mask after nrf_bitmask_bit_set. */
  lemma SetAt(i: nat, mask: seq<bv8>, j: nat)
    requires i < 8 * |mask| && j < 8 * |mask|
    ensures IsSet(j, mask[i / 8 := mask[i / 8] | Bit(i % 8)]) == (j == i || IsSet(j, mask))
  {
    if j / 8 == i / 8 {
      ByteSet(mask[i / 8], i % 8, j % 8);
      SplitIndex(i, j);
    } else {
      SplitIndex(i, j);
    }
  }

  /** One bit of the mask after nrf_bitmask_bit_clear. */
  lemma ClearAt(i: nat, mask: seq<bv8>, j: nat)
    requires i < 8 * |mask| && j < 8 * |mask|
    ensures IsSet(j, mask[i / 8 := mask[i / 8] & !Bit(i % 8)]) == (j != i && IsSet(j, mask))
  {
    if j / 8 == i / 8 {
      ByteClear(mask[i / 8], i % 8, j % 8);
      SplitIndex(i, j);
    } else {
      SplitIndex(i, j);
    }
  }

  /** nrf_bitmask_bit_set: bit i becomes set, every other bit is kept. */
  function Set(i: nat, mask: seq<bv8>): (r: seq<bv8>)
    requires i < 8 * |mask|
    ensures |r| == |mask|
    ensures forall j :: 0 <= j < 8 * |mask| ==> IsSet(j, r) == (j == i || IsSet(j, mask))
  {
    var r := mask[i / 8 := mask[i / 8] | Bit(i % 8)];
    forall j | 0 <= j < 8 * |mask| ensures IsSet(j, r) == (j == i || IsSet(j, mask)) {
      SetAt(i, mask, j);
    }
    r
  }

  /** nrf_bitmask_bit_clear: bit i becomes clear, every other bit is kept. */
  function Clear(i: nat, mask: seq<bv8>): (r: seq<bv8>)
    requires i < 8 * |mask|
    ensures |r| == |mask|
    ensures forall j :: 0 <= j < 8 * |mask| ==> IsSet(j, r) == (j != i && IsSet(j, mask))
  {
    var r := mask[i / 8 := mask[i / 8] & !Bit(i % 8)];
    forall j | 0 <= j < 8 * |mask| ensures IsSet(j, r) == (j != i && IsSet(j, mask)) {
      ClearAt(i, mask, j);
    }
    r
  }
}
