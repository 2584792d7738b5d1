/**
 * The first-match partition that build_unique_tiles performs, stated on values.
 *
 * Tiles are numbered 0, 1, ... in identity order and each carries a key; two
 * tiles are structurally equivalent exactly when their keys are equal (the
 * fabric-tile module proves that of its equivalence test). Scanning tiles in
 * order, a tile that matches no representative chosen so far becomes a new
 * representative; every other tile is mapped to the first representative it
 * matches.
 */
module FirstMatchPartition {

  /** Position, in reps, of the first representative whose key is k; |reps| when none has it. */
  function FirstMatch<K(==)>(keys: seq<K>, reps: seq<nat>, k: K): (j: nat)
    ensures j <= |reps|
    ensures j < |reps| ==> reps[j] < |keys| && keys[reps[j]] == k
    ensures forall i :: 0 <= i < j ==> !(reps[i] < |keys| && keys[reps[i]] == k)
    decreases |reps|
  {
    if |reps| == 0 then 0
    else if reps[0] < |keys| && keys[reps[0]] == k then 0
    else 1 + FirstMatch(keys, reps[1..], k)
  }

  /** The representatives chosen among the first n tiles, in scan order. */
  function Reps<K(==)>(keys: seq<K>, n: nat): (r: seq<nat>)
    requires n <= |keys|
    ensures |r| <= n
    ensures forall j :: 0 <= j < |r| ==> r[j] < n
  {
    if n == 0 then []
    else
      var r := Reps(keys, n - 1);
      if FirstMatch(keys, r, keys[n - 1]) < |r| then r else r + [n - 1]
  }

  /** The three properties of FirstMatch determine it. */
  lemma FirstMatchIs<K>(keys: seq<K>, reps: seq<nat>, k: K, j: nat)
    requires j <= |reps|
    requires j < |reps| ==> reps[j] < |keys| && keys[reps[j]] == k
    requires forall i :: 0 <= i < j ==> !(reps[i] < |keys| && keys[reps[i]] == k)
    ensures FirstMatch(keys, reps, k) == j
  {
  }

  /** Appending a representative does not move a match that was already found. */
  lemma FirstMatchAppend<K>(keys: seq<K>, reps: seq<nat>, x: nat, k: K)
    requires FirstMatch(keys, reps, k) < |reps|
    ensures FirstMatch(keys, reps + [x], k) == FirstMatch(keys, reps, k)
  {
    var j := FirstMatch(keys, reps, k);
    assert (reps + [x])[j] == reps[j];
  }

  /** Every tile scanned so far matches a representative, and that representative comes no later than the tile. */
  lemma {:induction false} RepsCover<K>(keys: seq<K>, n: nat, t: nat)
    requires t < n <= |keys|
    ensures FirstMatch(keys, Reps(keys, n), keys[t]) < |Reps(keys, n)|
    ensures Reps(keys, n)[FirstMatch(keys, Reps(keys, n), keys[t])] <= t
  {
    if t < n - 1 {
      RepsCover(keys, n - 1, t);
      CoverStep(keys, n, t);
    } else {
      CoverNew(keys, n);
    }
  }

  /** One scan step keeps the representative of an earlier tile. */
  lemma CoverStep<K>(keys: seq<K>, n: nat, t: nat)
    requires t + 1 < n <= |keys|
    requires FirstMatch(keys, Reps(keys, n - 1), keys[t]) < |Reps(keys, n - 1)|
    ensures FirstMatch(keys, Reps(keys, n), keys[t]) < |Reps(keys, n)|
    ensures Reps(keys, n)[FirstMatch(keys, Reps(keys, n), keys[t])]
            == Reps(keys, n - 1)[FirstMatch(keys, Reps(keys, n - 1), keys[t])]
  {
    var r := Reps(keys, n - 1);
    if FirstMatch(keys, r, keys[n - 1]) == |r| {
      assert Reps(keys, n) == r + [n - 1];
      CoverAfterAppend(keys, r, n - 1, keys[t]);
    }
  }

  /** The tile a scan step visits gets a representative no later than itself. */
  lemma CoverNew<K>(keys: seq<K>, n: nat)
    requires 0 < n <= |keys|
    ensures FirstMatch(keys, Reps(keys, n), keys[n - 1]) < |Reps(keys, n)|
    ensures Reps(keys, n)[FirstMatch(keys, Reps(keys, n), keys[n - 1])] <= n - 1
  {
    var r := Reps(keys, n - 1);
    if FirstMatch(keys, r, keys[n - 1]) == |r| {
      assert Reps(keys, n) == r + [n - 1];
      MatchAtEnd(keys, r, n - 1);
    }
  }

  /** A match found before a representative is appended is still there afterwards. */
  lemma CoverAfterAppend<K>(keys: seq<K>, reps: seq<nat>, x: nat, k: K)
    requires FirstMatch(keys, reps, k) < |reps|
    ensures FirstMatch(keys, reps + [x], k) < |reps + [x]|
    ensures (reps + [x])[FirstMatch(keys, reps + [x], k)] == reps[FirstMatch(keys, reps, k)]
  {
    FirstMatchAppend(keys, reps, x, k);
  }

  /** A tile appended as a new representative matches itself, at the last position. */
  lemma MatchAtEnd<K>(keys: seq<K>, reps: seq<nat>, x: nat)
    requires x < |keys| && FirstMatch(keys, reps, keys[x]) == |reps|
    ensures FirstMatch(keys, reps + [x], keys[x]) == |reps|
  {
    assert (reps + [x])[|reps|] == x;
  }

  /** Representatives are listed in ascending identity order. */
  lemma {:induction false} RepsAscending<K>(keys: seq<K>, n: nat)
    requires n <= |keys|
    ensures forall j1, j2 :: 0 <= j1 < j2 < |Reps(keys, n)| ==> Reps(keys, n)[j1] < Reps(keys, n)[j2]
  {
    if n > 0 {
      RepsAscending(keys, n - 1);
    }
  }

  /** No two representatives are equivalent. */
  lemma {:induction false} RepsDistinct<K>(keys: seq<K>, n: nat)
    requires n <= |keys|
    ensures forall j1, j2 :: 0 <= j1 < j2 < |Reps(keys, n)| ==> keys[Reps(keys, n)[j1]] != keys[Reps(keys, n)[j2]]
  {
    if n > 0 {
      RepsDistinct(keys, n - 1);
    }
  }

  /** A representative is the first tile of its class in scan order. */
  lemma {:induction false} RepsFirstOfClass<K>(keys: seq<K>, n: nat, j: nat, t: nat)
    requires n <= |keys| && j < |Reps(keys, n)| && t < Reps(keys, n)[j]
    ensures keys[t] != keys[Reps(keys, n)[j]]
  {
    var r := Reps(keys, n - 1);
    if j < |r| {
      RepsFirstOfClass(keys, n - 1, j, t);
    } else {
      RepsCover(keys, n - 1, t);
    }
  }

  /** Each representative is mapped to itself. */
  lemma RepsSelf<K>(keys: seq<K>, n: nat, j: nat)
    requires n <= |keys| && j < |Reps(keys, n)|
    ensures FirstMatch(keys, Reps(keys, n), keys[Reps(keys, n)[j]]) == j
  {
  }

  /** Tiles with different keys are mapped to different representatives. */
  lemma RepsSeparate<K>(keys: seq<K>, n: nat, a: nat, b: nat)
    requires a < n && b < n && n <= |keys| && keys[a] != keys[b]
    ensures FirstMatch(keys, Reps(keys, n), keys[a]) != FirstMatch(keys, Reps(keys, n), keys[b])
  {
    RepsCover(keys, n, a);
  }

  /** When all tiles share one key, the first tile is the only representative. */
  lemma {:induction false} RepsAllEquivalent<K>(keys: seq<K>, n: nat)
    requires 0 < n <= |keys|
    requires forall t :: 0 <= t < n ==> keys[t] == keys[0]
    ensures Reps(keys, n) == [0]
  {
    if n > 1 {
      RepsAllEquivalent(keys, n - 1);
      assert FirstMatch(keys, [0], keys[n - 1]) == 0;
    }
  }
}
