/**
 * The pure part of deck construction in js/gameManager.js: the colour
 * palette, the number of pair values a card count yields, the cyclic
 * choice of values, and the Fisher-Yates shuffle over an array.
 */
module Deck {
  import opened Cards

  /** The fixed 20-entry palette, '#RRGGBB' written 0xRRGGBB; entries 0 and 18 are the same colour. */
  const Colors: seq<Color> := [
    0xFF5733, 0x33FF57, 0x3357FF, 0xFF33A1, 0x33FFF5,
    0xF5FF33, 0xFF8C33, 0x8C33FF, 0x33FF8C, 0xFF3333,
    0x33A1FF, 0xA1FF33, 0xFF33F5, 0xF533FF, 0x33F5FF,
    0xF5A833, 0xA833FF, 0x33FFA8, 0xFF5733, 0x5733FF
  ]

  /**
   * The number of iterations of `for (i = 0; i < totalCards / 2; i++)`,
   * where `/` is division on reals: the least n with 2n >= totalCards.
   */
  function PairCount(totalCards: int): (n: nat)
    ensures totalCards <= 2 * n
    ensures n > 0 ==> 2 * (n - 1) < totalCards
  {
    if totalCards <= 0 then 0 else (totalCards + 1) / 2
  }

  /** The pair values after n pushes of `colors[i % colors.length]`. */
  function PairValues(n: nat): (v: seq<Color>)
    ensures |v| == n
  {
    if n == 0 then [] else PairValues(n - 1) + [Colors[(n - 1) % |Colors|]]
  }

  lemma {:induction false} PairValuesAt(n: nat)
    ensures |PairValues(n)| == n
    ensures forall i :: 0 <= i < n ==> PairValues(n)[i] == Colors[i % |Colors|]
  {
    if n > 0 {
      PairValuesAt(n - 1);
    }
  }

  /** The `for` loop of `_createDeck` that pushes one palette value per iteration. */
  method BuildValues(totalCards: int) returns (values: seq<Color>)
    ensures values == PairValues(PairCount(totalCards))
    ensures |values| == PairCount(totalCards)
  {
    values := [];
    var i := 0;
    while 2 * i < totalCards
      invariant 0 <= i
      invariant i == 0 || 2 * (i - 1) < totalCards
      invariant values == PairValues(i)
    {
      values := values + [Colors[i % |Colors|]];
      i := i + 1;
    }
    PairValuesAt(i);
  }

  /** The two copies of the pair values: the deck before shuffling. */
  function Doubled(values: seq<Color>): (raw: seq<Color>)
    ensures |raw| == 2 * |values|
  {
    values + values
  }

  /** Doubling doubles every multiplicity. */
  lemma DoubledCount(values: seq<Color>, c: Color)
    ensures multiset(Doubled(values))[c] == 2 * multiset(values)[c]
  {
  }

  /**
   * Fisher-Yates in place: position i swaps with an arbitrary j in 0..i,
   * standing for `Math.floor(Math.random() * (i + 1))`.
   */
  method Shuffle(raw: array<Color>)
    modifies raw
    ensures multiset(raw[..]) == multiset(old(raw[..]))
  {
    var i := raw.Length - 1;
    while i > 0
      invariant -1 <= i < raw.Length
      invariant multiset(raw[..]) == multiset(old(raw[..]))
    {
      var j :| 0 <= j <= i;
      raw[i], raw[j] := raw[j], raw[i];
      i := i - 1;
    }
  }

  /** The first 18 palette entries are pairwise different. */
  lemma PaletteDistinctPrefix()
    ensures forall i, j :: 0 <= i < j < 18 ==> Colors[i] != Colors[j]
  {
  }

  /** The palette repeats its first colour at index 18. */
  lemma PaletteRepeat()
    ensures |Colors| == 20 && Colors[18] == Colors[0] == 0xFF5733
  {
  }

  /** Every value of a doubled list occurs an even number of times. */
  lemma DoubledEven(values: seq<Color>, c: Color)
    ensures multiset(Doubled(values))[c] % 2 == 0
  {
    DoubledCount(values, c);
  }

  /** In a list without repetitions each element occurs once. */
  lemma {:induction false} DistinctOnce(s: seq<Color>, c: Color)
    requires forall i, j :: 0 <= i < j < |s| ==> s[i] != s[j]
    requires c in s
    ensures multiset(s)[c] == 1
  {
    var last := s[|s| - 1];
    var init := s[..|s| - 1];
    assert s == init + [last];
    if c == last {
      assert c !in init by {
        forall k | 0 <= k < |init| ensures init[k] != c {
          assert init[k] == s[k];
        }
      }
    } else {
      assert c in init;
      DistinctOnce(init, c);
    }
  }

  /** Up to 18 pairs the pair values are pairwise different. */
  lemma PairValuesDistinct(n: nat)
    requires n <= 18
    ensures forall i, j :: 0 <= i < j < n ==> PairValues(n)[i] != PairValues(n)[j]
  {
    PairValuesAt(n);
    PaletteDistinctPrefix();
    forall i, j | 0 <= i < j < n ensures PairValues(n)[i] != PairValues(n)[j] {
      assert i % |Colors| == i && j % |Colors| == j;
    }
  }

  /** Up to 18 pairs every value in the deck occurs exactly twice. */
  lemma TwiceUpTo18(n: nat, c: Color)
    requires n <= 18
    requires c in Doubled(PairValues(n))
    ensures multiset(Doubled(PairValues(n)))[c] == 2
  {
    PairValuesDistinct(n);
    DoubledCount(PairValues(n), c);
    assert c in PairValues(n);
    DistinctOnce(PairValues(n), c);
  }

  /** A value at two different positions occurs at least twice. */
  lemma OccursTwice(s: seq<Color>, i: nat, j: nat)
    requires i < j < |s| && s[i] == s[j]
    ensures multiset(s)[s[i]] >= 2
  {
    assert s == s[..j] + s[j..];
    assert s[i] in s[..j];
    assert s[j] in s[j..];
  }

  /** From 19 pairs on, the repeated palette colour lies on at least four cards. */
  lemma FourRedFrom19(n: nat)
    requires n >= 19
    ensures multiset(Doubled(PairValues(n)))[0xFF5733] >= 4
  {
    var v := PairValues(n);
    assert v[0] == 0xFF5733 && v[18] == 0xFF5733 by {
      PaletteRepeat();
      PairValuesAt(n);
      assert v[0] == Colors[0 % 20] && v[18] == Colors[18 % 20];
    }
    OccursTwice(v, 0, 18);
    DoubledCount(v, 0xFF5733);
  }
}
