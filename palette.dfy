/** RGB colours and the reverse lookup from a colour to its palette number. */
module Palette {
  import opened Sequences

  /** An RGB triple, as the source's 3-tuples of ints. */
  datatype Rgb = Rgb(r: int, g: int, b: int)

  /**
   * The number of the first palette entry equal to c, or 1 when none is.
   * A palette is a sequence whose entry k-1 is the colour of number k,
   * the order in which the source's palette dicts iterate.
   */
  function MatchNumber(palette: seq<Rgb>, c: Rgb): (n: int)
    ensures c in palette ==> 1 <= n <= |palette| && palette[n - 1] == c
    ensures c in palette ==> forall k :: 0 <= k < n - 1 ==> palette[k] != c
    ensures c !in palette ==> n == 1
  {
    if c in palette then IndexOf(palette, c) + 1 else 1
  }

  /** Looking up a palette's own entry gives back its number when entries are distinct. */
  lemma MatchNumberRoundTrip(palette: seq<Rgb>, k: int)
    requires NoDuplicates(palette) && 1 <= k <= |palette|
    ensures MatchNumber(palette, palette[k - 1]) == k
  {
    IndexOfDistinct(palette, k - 1);
  }
}
