/** Definitions shared by the other modules. */
module Common {
  function Max(a: int, b: int): int { if a < b then b else a }
  function Min(a: int, b: int): int { if a < b then a else b }

  /** The two devices. */
  datatype Place = Fast | Slow

  /** How many of the places are `p`. */
  function CountOn(places: seq<Place>, p: Place): nat {
    if places == [] then 0 else
      CountOn(places[..|places| - 1], p) + if places[|places| - 1] == p then 1 else 0
  }

  lemma CountOne(places: seq<Place>, x: Place, p: Place)
    ensures CountOn(places + [x], p) == CountOn(places, p) + if x == p then 1 else 0
  {
    assert (places + [x])[..|places|] == places;
  }

  lemma {:induction false} CountParts(a: seq<Place>, b: seq<Place>, p: Place)
    ensures CountOn(a + b, p) == CountOn(a, p) + CountOn(b, p)
  {
    if b == [] {
      assert a + b == a;
    } else {
      CountParts(a, b[..|b| - 1], p);
      assert (a + b)[..|a + b| - 1] == a + b[..|b| - 1];
    }
  }

  /** Nodes on one device are counted in order. */
  lemma CountBefore(places: seq<Place>, j: nat, k: nat)
    requires j < k <= |places|
    ensures CountOn(places[..j], places[j]) + 1 <= CountOn(places[..k], places[j])
  {
    assert places[..k] == places[..j] + [places[j]] + places[j + 1..k];
    CountOne(places[..j], places[j], places[j]);
    CountParts(places[..j] + [places[j]], places[j + 1..k], places[j]);
  }
}
