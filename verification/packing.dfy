/** The byte-wise accumulator in which the search records the table indices
    it picks (Sake/DecomposeMixer.cs, `Combinations` and `ToRealValuesArray`):
    one byte per pick, the latest pick in the lowest byte. */
module Packing {

  const TwoTo56: nat := 0x100_0000_0000_0000

  /** A C# `ulong`. */
  type ulong = x: int | 0 <= x < 0x1_0000_0000_0000_0000

  function Pow256(n: nat): (r: nat)
    ensures r >= 1
  {
    if n == 0 then 1 else 256 * Pow256(n - 1)
  }

  /** `(acc << 8) | ((ulong)idx & 0xff)` on a 64-bit accumulator: the shift
      discards the top byte and the new index fills the freed low byte. */
  function PushIndex(acc: ulong, idx: nat): (r: ulong)
    ensures r % 256 == idx % 256
    ensures acc < TwoTo56 ==> r == acc * 256 + idx % 256
  {
    (acc * 256 + idx % 256) % 0x1_0000_0000_0000_0000
  }

  /** Every index fits one byte. */
  predicate Bytes(ids: seq<nat>)
  {
    forall t :: 0 <= t < |ids| ==> ids[t] < 256
  }

  /** The accumulator that the search builds for the picks `ids`, in pick
      order, when no byte is lost. */
  function Encode(ids: seq<nat>): nat
  {
    if ids == [] then 0 else Encode(ids[..|ids| - 1]) * 256 + ids[|ids| - 1]
  }

  /** `x >> (8 * n)`: each byte shifted out is a division by 256. */
  function ShiftRightBytes(x: nat, n: nat): nat
  {
    if n == 0 then x else ShiftRightBytes(x / 256, n - 1)
  }

  /** `(x >> (8 * b)) & 0xff`: byte `b` of `x`, byte 0 being the lowest. */
  function ByteAt(x: nat, b: nat): (r: nat)
    ensures r < 256
  {
    ShiftRightBytes(x, b) % 256
  }

  /** The `n` lowest bytes of `acc`, highest first: the picks in pick order. */
  function Indices(acc: nat, n: nat): (ids: seq<nat>)
    ensures |ids| == n && Bytes(ids)
  {
    if n == 0 then [] else Indices(acc / 256, n - 1) + [acc % 256]
  }

  lemma {:induction false} Pow256Monotone(m: nat, n: nat)
    requires m <= n
    ensures Pow256(m) <= Pow256(n)
    decreases n
  {
    if m < n {
      Pow256Monotone(m, n - 1);
    }
  }

  /** `n` picks occupy at most `n` bytes. */
  lemma {:induction false} EncodeBound(ids: seq<nat>)
    requires Bytes(ids)
    ensures Encode(ids) < Pow256(|ids|)
    decreases |ids|
  {
    if ids != [] {
      var init := ids[..|ids| - 1];
      EncodeBound(init);
      assert Encode(init) + 1 <= Pow256(|init|);
      assert Encode(init) * 256 + 256 <= Pow256(|init|) * 256;
    }
  }

  /** The picks `ids` fill exactly `|ids|` bytes of their encoding and are
      read back from it unchanged. */
  lemma Decodes(ids: seq<nat>)
    requires Bytes(ids)
    ensures Encode(ids) < Pow256(|ids|)
    ensures Indices(Encode(ids), |ids|) == ids
  {
    EncodeBound(ids);
    IndicesEncode(ids);
  }

  lemma Pow256Seven()
    ensures Pow256(7) == TwoTo56
  {
    calc {
      Pow256(7);
      256 * Pow256(6);
      256 * 256 * Pow256(5);
      256 * 256 * 256 * Pow256(4);
      256 * 256 * 256 * 256 * Pow256(3);
      256 * 256 * 256 * 256 * 256 * Pow256(2);
      256 * 256 * 256 * 256 * 256 * 256 * Pow256(1);
      256 * 256 * 256 * 256 * 256 * 256 * 256 * Pow256(0);
    }
  }

  /** At most seven picks leave the top byte of the accumulator clear. */
  lemma EncodeFitsSevenBytes(ids: seq<nat>)
    requires Bytes(ids) && |ids| <= 7
    ensures Encode(ids) < TwoTo56
  {
    EncodeBound(ids);
    Pow256Monotone(|ids|, 7);
    Pow256Seven();
  }

  /** Appending a pick to an accumulator of at most seven picks loses nothing. */
  lemma PushIndexEncodes(ids: seq<nat>, idx: nat)
    requires Bytes(ids) && |ids| <= 7 && idx < 256
    ensures Encode(ids) < TwoTo56 && PushIndex(Encode(ids), idx) == Encode(ids + [idx])
  {
    EncodeFitsSevenBytes(ids);
    EncodeSnoc(ids, idx);
  }

  lemma EncodeSnoc(ids: seq<nat>, idx: nat)
    ensures Encode(ids + [idx]) == Encode(ids) * 256 + idx
  {
    assert (ids + [idx])[..|ids|] == ids;
  }

  /** Decoding the accumulator gives back the picks in pick order. */
  lemma {:induction false} IndicesEncode(ids: seq<nat>)
    requires Bytes(ids)
    ensures Indices(Encode(ids), |ids|) == ids
    decreases |ids|
  {
    if ids != [] {
      var init := ids[..|ids| - 1];
      var acc := Encode(ids);
      assert acc == Encode(init) * 256 + ids[|ids| - 1];
      assert acc / 256 == Encode(init) && acc % 256 == ids[|ids| - 1];
      IndicesEncode(init);
      assert ids == init + [ids[|ids| - 1]];
    }
  }

  /** Position `n - 1 - b` of the decoded picks is byte `b`. */
  lemma {:induction false} IndicesAt(acc: nat, n: nat, b: nat)
    requires b < n
    ensures Indices(acc, n)[n - 1 - b] == ByteAt(acc, b)
    decreases n
  {
    if b > 0 {
      IndicesAt(acc / 256, n - 1, b - 1);
    }
  }

}
