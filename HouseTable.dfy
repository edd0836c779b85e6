/**
 The fixed tables of the sorting hat and the choice of a house from a hash.
 */
module HouseTable {
  import opened Hash

  /** The four houses, in the order the hash indexes them. */
  const Houses: seq<string> := ["グリフィンドール", "スリザリン", "レイブンクロー", "ハッフルパフ"]

  /** The text colour class shown with each house. */
  const HouseColors: map<string, string> := map[
    "グリフィンドール" := "text-red-500",
    "スリザリン" := "text-green-500",
    "レイブンクロー" := "text-blue-500",
    "ハッフルパフ" := "text-yellow-400"
  ]

  /** The messages shown one after another while the hat deliberates. */
  const SortingMessages: seq<string> := [
    "ふむ...難しい、とても難しい...",
    "勇気があるようだ...",
    "頭脳明晰だ...",
    "そうだな...君の運命の寮は..."
  ]

  /** Every house has a colour, and the houses are four distinct labels. */
  lemma TablesConsistent()
    ensures |Houses| == 4 && |SortingMessages| == 4
    ensures forall i :: 0 <= i < |Houses| ==> Houses[i] in HouseColors
    ensures forall i, j :: 0 <= i < j < |Houses| ==> Houses[i] != Houses[j]
  {
  }

  /** Math.abs over mathematical integers: the magnitude of x. */
  function Abs(x: int): (r: nat)
    ensures r == x || r == -x
  {
    if x < 0 then -x else x
  }

  /** The house index of a hash: `Math.abs(hash) % HOUSES.length`. */
  function HouseIndex(hash: Int32): (i: nat)
    ensures i < |Houses|
    ensures Houses[i] in HouseColors
  {
    Abs(hash) % |Houses|
  }

  /** The house a cropped-image string is sorted into. */
  function HouseOf(image: seq<CodeUnit>): (house: string)
    ensures house in Houses && house in HouseColors
  {
    Houses[HouseIndex(HashOf(image))]
  }

  /** The minimum 32-bit value does not overflow: its magnitude 2^31 selects house 0. */
  lemma HouseIndexOfMinimum()
    ensures HouseIndex(-0x8000_0000) == 0
  {
  }

  /** A hash and its negation select the same house. */
  lemma HouseIndexSignless(h: Int32)
    requires h != -0x8000_0000
    ensures HouseIndex(h) == HouseIndex(-h)
  {
  }

  /** For a non-negative hash the index is the hash modulo four. */
  lemma HouseIndexOfNonNegative(h: Int32)
    requires h >= 0
    ensures (h - HouseIndex(h)) % 4 == 0
  {
  }

  /** No house is dead: the one-code-unit string [k] is sorted into house k. */
  lemma {:induction false} EveryHouseReachable(k: nat)
    requires k < |Houses|
    ensures HouseIndex(HashOf([k])) == k
    ensures HouseOf([k]) == Houses[k]
  {
    assert [k][1..] == [];
    assert HashOf([k]) == Fold(Wrap32(31 * 0 + k), []);
    assert Wrap32(k) == k;
  }

  /** "XYZ", whose hash is 87417, is sorted into house 1 (87417 % 4 == 1). */
  lemma HouseOfXYZ()
    ensures HouseIndex(HashOf([88, 89, 90])) == 1
    ensures HouseOf([88, 89, 90]) == Houses[1]
  {
    HashOfXYZ();
  }
}
