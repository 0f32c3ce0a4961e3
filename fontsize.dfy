/** The font-size button: each click moves to the next size of a fixed list,
    wrapping from the largest back to the smallest. */
module FontSize {
  import opened Optional

  const FontSizes: seq<int> := [16, 18, 20, 22, 24, 26]

  /** Array.firstIndex(of:). */
  function IndexOf(xs: seq<int>, x: int): (r: Option<nat>)
    ensures r.Some? ==> r.value < |xs| && xs[r.value] == x && forall j :: 0 <= j < r.value ==> xs[j] != x
    ensures r.None? <==> x !in xs
  {
    if xs == [] then None
    else if xs[0] == x then Some(0)
    else match IndexOf(xs[1..], x)
      case Some(i) => Some(i + 1)
      case None => None
  }

  /** The size after one click; a size not in the list is kept. */
  function NextFontSize(size: int): int {
    match IndexOf(FontSizes, size)
    case Some(i) => FontSizes[(i + 1) % |FontSizes|]
    case None => size
  }

  /** Clicking on the size at index i selects the size at the next index,
      wrapping around. */
  lemma NextOf(i: nat)
    requires i < |FontSizes|
    ensures NextFontSize(FontSizes[i]) == FontSizes[(i + 1) % |FontSizes|]
  {
    SizesDistinct();
    IndexOfDistinct(FontSizes, i);
  }

  lemma SizesDistinct()
    ensures forall j, k :: 0 <= j < k < |FontSizes| ==> FontSizes[j] != FontSizes[k]
  {
  }

  /** In a list without repeats, each element's first index is its index. */
  lemma IndexOfDistinct(xs: seq<int>, i: nat)
    requires i < |xs|
    requires forall j, k :: 0 <= j < k < |xs| ==> xs[j] != xs[k]
    ensures IndexOf(xs, xs[i]) == Some(i)
  {
    var r := IndexOf(xs, xs[i]);
    assert r.Some?;
    assert !(r.value < i) && !(r.value > i);
  }

  /** The index after i, wrapping around the list. */
  function Succ(i: nat): nat {
    if i + 1 < |FontSizes| then i + 1 else 0
  }

  lemma SuccIsMod(i: nat)
    requires i < 6
    ensures Succ(i) == (i + 1) % 6
  {
  }

  /** A listed size steps to the next one up, two points larger, and the
      largest wraps to the smallest. */
  lemma NextFontSizeSteps(i: nat)
    requires i < |FontSizes|
    ensures NextFontSize(FontSizes[i]) == FontSizes[Succ(i)]
    ensures NextFontSize(FontSizes[i]) == if i + 1 < |FontSizes| then FontSizes[i] + 2 else FontSizes[0]
  {
    NextOf(i);
    assert |FontSizes| == 6;
    SuccIsMod(i);
  }

  /** A size that is not in the list is left alone. */
  lemma NextFontSizeUnlisted(size: int)
    requires size !in FontSizes
    ensures NextFontSize(size) == size
  {
  }
}
