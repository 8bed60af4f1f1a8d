/**
 The list of locations that feeds the travel-time query, and the three list rewrites the
 component performs on it: removing by id, editing coordinates by id, and the ordering
 facts the rest of the model relies on.

 Ids are compared with the key the page supplies. Ids are NOT unique in general (see
 `Showcase.AddAfterGeocodeReusesId`), so every operation here is stated for lists that may
 hold several entries with the same id.
 */
module Locations {
  import opened JsValues

  /** One entry of the component's `locations` list. */
  datatype Location = Location(id: nat, lat: Number, lng: Number)

  /** The number of entries whose id is `key`. */
  function CountId(xs: seq<Location>, key: int): (n: nat)
    ensures n <= |xs|
    ensures n == 0 <==> forall i :: 0 <= i < |xs| ==> xs[i].id != key
  {
    if xs == [] then 0
    else (if xs[0].id == key then 1 else 0) + CountId(xs[1..], key)
  }

  /** `r` is what is left of `xs` after deleting some (possibly none) of the entries whose
      id is `key`; every other entry stays, in its order. */
  ghost predicate DeletesOnly(xs: seq<Location>, r: seq<Location>, key: int)
    decreases |xs|
  {
    if xs == [] then r == []
    else
      || (|r| > 0 && r[0] == xs[0] && DeletesOnly(xs[1..], r[1..], key))
      || (xs[0].id == key && DeletesOnly(xs[1..], r, key))
  }

  /** The entries of `xs` whose id is not `key`, in order: what an ideal removal leaves. */
  function Without(xs: seq<Location>, key: int): (r: seq<Location>)
    ensures forall i :: 0 <= i < |r| ==> r[i].id != key
    ensures |r| == |xs| - CountId(xs, key)
  {
    if xs == [] then []
    else if xs[0].id == key then Without(xs[1..], key)
    else [xs[0]] + Without(xs[1..], key)
  }

  /** Removal as the component performs it: it splices the array it is iterating over with
      `forEach`, so after a match is deleted the entry that slides into its slot is never
      looked at, and is kept whatever its id. */
  function Remove(xs: seq<Location>, key: int): (r: seq<Location>)
    ensures DeletesOnly(xs, r, key)
    ensures (forall i :: 0 <= i < |xs| ==> xs[i].id != key) ==> r == xs
    ensures |xs| - CountId(xs, key) <= |r|
    ensures CountId(xs, key) > 0 ==> |r| < |xs|
    decreases |xs|
  {
    if xs == [] then []
    else if xs[0].id == key then
      if |xs| == 1 then [] else [xs[1]] + Remove(xs[2..], key)
    else [xs[0]] + Remove(xs[1..], key)
  }

  /** Coordinate edit as the component performs it: every entry whose id is `key` is replaced
      by one with the same id and the new coordinates. */
  function Update(xs: seq<Location>, key: int, lat: Number, lng: Number): (r: seq<Location>)
    ensures |r| == |xs|
    ensures forall i :: 0 <= i < |xs| ==> r[i].id == xs[i].id
    ensures forall i :: 0 <= i < |xs| && xs[i].id == key ==> r[i].lat == lat && r[i].lng == lng
    ensures forall i :: 0 <= i < |xs| && xs[i].id != key ==> r[i] == xs[i]
  {
    if xs == [] then []
    else
      var head := if xs[0].id == key then Location(xs[0].id, lat, lng) else xs[0];
      [head] + Update(xs[1..], key, lat, lng)
  }

  /** Ids never decrease along the list. */
  ghost predicate SortedById(xs: seq<Location>) {
    forall i, j :: 0 <= i < j < |xs| ==> xs[i].id <= xs[j].id
  }

  /** No id in the list exceeds `bound`. */
  ghost predicate IdsAtMost(xs: seq<Location>, bound: int) {
    forall i :: 0 <= i < |xs| ==> xs[i].id <= bound
  }

  /** Deleting entries keeps the survivors in order and takes no id from elsewhere, so it
      keeps the list sorted and bounded. */
  lemma {:induction false} DeletesOnlyKeepsOrder(xs: seq<Location>, r: seq<Location>, key: int, bound: int)
    requires DeletesOnly(xs, r, key)
    ensures forall y :: y in r ==> y in xs
    ensures SortedById(xs) ==> SortedById(r)
    ensures IdsAtMost(xs, bound) ==> IdsAtMost(r, bound)
    decreases |xs|
  {
    if xs == [] {
    } else if |r| > 0 && r[0] == xs[0] && DeletesOnly(xs[1..], r[1..], key) {
      DeletesOnlyKeepsOrder(xs[1..], r[1..], key, bound);
      assert r == [r[0]] + r[1..];
      forall y | y in r ensures y in xs {
        if y != r[0] {
          assert y in r[1..];
        }
      }
      if SortedById(xs) {
        assert SortedById(xs[1..]);
        forall i, j | 0 <= i < j < |r| ensures r[i].id <= r[j].id {
          if i == 0 {
            assert r[j] in r[1..] by { assert r[j] == r[1..][j - 1]; }
            var k :| 0 <= k < |xs[1..]| && xs[1..][k] == r[j];
            assert xs[k + 1] == r[j];
          } else {
            assert r[i] == r[1..][i - 1] && r[j] == r[1..][j - 1];
          }
        }
      }
      if IdsAtMost(xs, bound) {
        assert IdsAtMost(xs[1..], bound);
        forall i | 0 <= i < |r| ensures r[i].id <= bound {
          if i > 0 {
            assert r[i] == r[1..][i - 1];
          }
        }
      }
    } else {
      DeletesOnlyKeepsOrder(xs[1..], r, key, bound);
      forall y | y in r ensures y in xs {
        assert y in xs[1..];
      }
      if SortedById(xs) {
        assert SortedById(xs[1..]);
      }
      if IdsAtMost(xs, bound) {
        assert IdsAtMost(xs[1..], bound);
      }
    }
  }

  /** When no two entries with id `key` stand next to each other (in particular when at most
      one entry has that id), the skipping in `Remove` never matters: it deletes every such
      entry and nothing else. */
  lemma {:induction false} RemoveMatchesWithout(xs: seq<Location>, key: int)
    requires forall i :: 0 <= i < |xs| - 1 ==> xs[i].id != key || xs[i + 1].id != key
    ensures Remove(xs, key) == Without(xs, key)
    decreases |xs|
  {
    if xs == [] {
    } else if xs[0].id == key {
      if |xs| > 1 {
        var rest := xs[2..];
        assert xs[1].id != key;
        assert xs[1..][1..] == rest;
        forall i | 0 <= i < |rest| - 1 ensures rest[i].id != key || rest[i + 1].id != key {
          assert rest[i] == xs[i + 2] && rest[i + 1] == xs[i + 3];
        }
        RemoveMatchesWithout(rest, key);
      }
    } else {
      var rest := xs[1..];
      forall i | 0 <= i < |rest| - 1 ensures rest[i].id != key || rest[i + 1].id != key {
        assert rest[i] == xs[i + 1] && rest[i + 1] == xs[i + 2];
      }
      RemoveMatchesWithout(rest, key);
    }
  }

  /** With a single matching entry, removal shortens the list by exactly one. */
  lemma RemoveSingleMatch(xs: seq<Location>, key: int)
    requires CountId(xs, key) == 1
    ensures |Remove(xs, key)| == |xs| - 1
  {
  }

  /** The entry right after a deleted match is kept whatever its id, and removal resumes
      after it. */
  lemma RemoveSkipsAdjacentMatch(a: Location, b: Location, rest: seq<Location>)
    requires a.id == b.id
    ensures Remove([a, b] + rest, a.id) == [b] + Remove(rest, a.id)
  {
    assert ([a, b] + rest)[2..] == rest;
  }
}
