/** pandas' `duplicated(subset=key, keep='first')` and
    `drop_duplicates(subset=key)` on a column of keys: a row is a duplicate when
    an equal key occurs at an earlier position, and the first row of each key
    is the one kept. */
module KeepFirst {

  /** `duplicated(keep='first')` at position `i`. */
  predicate IsRepeat<K(==)>(keys: seq<K>, i: nat)
    requires i < |keys|
  {
    keys[i] in keys[..i]
  }

  /** `ps` lists, in increasing order, exactly the positions of `keys` whose
      flag equals `repeats`. */
  ghost predicate ListsPositions<K>(keys: seq<K>, repeats: bool, ps: seq<nat>) {
    && (forall k :: 0 <= k < |ps| ==> ps[k] < |keys| && IsRepeat(keys, ps[k]) == repeats)
    && (forall i :: 0 <= i < |keys| && IsRepeat(keys, i) == repeats ==> i in ps)
    && (forall k, l :: 0 <= k < l < |ps| ==> ps[k] < ps[l])
  }

  /** The positions whose flag equals `repeats`, in increasing order. */
  function Positions<K(==)>(keys: seq<K>, repeats: bool): (ps: seq<nat>)
    ensures ListsPositions(keys, repeats, ps)
  {
    if keys == [] then []
    else
      var n := |keys| - 1;
      var ps := Positions(keys[..n], repeats);
      PositionsExtend(keys, repeats, ps);
      ps + (if IsRepeat(keys, n) == repeats then [n] else [])
  }

  /** Extending the key column by one position extends its position list by
      that position when its flag matches. */
  lemma PositionsExtend<K>(keys: seq<K>, repeats: bool, ps: seq<nat>)
    requires keys != [] && ListsPositions(keys[..|keys| - 1], repeats, ps)
    ensures var n := |keys| - 1;
      ListsPositions(keys, repeats, ps + (if IsRepeat(keys, n) == repeats then [n] else []))
  {
    var n := |keys| - 1;
    RepeatInPrefix(keys, n);
  }

  /** Whether a position repeats an earlier key does not depend on what
      follows it. */
  lemma RepeatInPrefix<K>(keys: seq<K>, n: nat)
    requires n <= |keys|
    ensures forall i :: 0 <= i < n ==> IsRepeat(keys, i) == IsRepeat(keys[..n], i)
  {
    forall i | 0 <= i < n ensures keys[..i] == keys[..n][..i] {}
  }

  /** The rows `dataframe[dataframe.duplicated(subset=key, keep='first')]` keeps. */
  function DuplicatedPositions<K(==)>(keys: seq<K>): (ps: seq<nat>)
    ensures ListsPositions(keys, true, ps)
  {
    Positions(keys, true)
  }

  /** The rows `drop_duplicates(subset=key)` keeps. */
  function KeptPositions<K(==)>(keys: seq<K>): (ps: seq<nat>)
    ensures ListsPositions(keys, false, ps)
  {
    Positions(keys, false)
  }

  /** The elements of `s` at positions `ps`, in the order of `ps`. */
  function Select<T>(s: seq<T>, ps: seq<nat>): (r: seq<T>)
    requires forall k :: 0 <= k < |ps| ==> ps[k] < |s|
    ensures |r| == |ps| && forall k :: 0 <= k < |ps| ==> r[k] == s[ps[k]]
  {
    seq(|ps|, k requires 0 <= k < |ps| => s[ps[k]])
  }

  /** Every position is flagged as a duplicate or kept, never both; so the two
      selections together have exactly as many rows as the table. */
  lemma {:induction false} Partition<K>(keys: seq<K>)
    ensures forall i :: 0 <= i < |keys| ==>
      (i in DuplicatedPositions(keys)) != (i in KeptPositions(keys))
    ensures |DuplicatedPositions(keys)| + |KeptPositions(keys)| == |keys|
  {
    if keys != [] {
      Partition(keys[..|keys| - 1]);
    }
  }

  /** No key is kept twice. */
  lemma KeptKeysDistinct<K>(keys: seq<K>, a: nat, b: nat)
    requires a < b < |KeptPositions(keys)|
    ensures keys[KeptPositions(keys)[a]] != keys[KeptPositions(keys)[b]]
  {
    var ps := KeptPositions(keys);
    var i, j := ps[a], ps[b];
    assert i < j;
    assert keys[..j][i] == keys[i];
  }

  /** The first position holding the key of position `i`. */
  lemma {:induction false} FirstOccurrence<K>(keys: seq<K>, i: nat) returns (p: nat)
    requires i < |keys|
    ensures p <= i && keys[p] == keys[i] && !IsRepeat(keys, p)
    decreases i
  {
    if IsRepeat(keys, i) {
      var j :| 0 <= j < i && keys[..i][j] == keys[i];
      p := FirstOccurrence(keys, j);
    } else {
      p := i;
    }
  }

  /** Every key of the column is kept, at the first position where it occurs. */
  lemma KeptCoversEveryKey<K>(keys: seq<K>, i: nat)
    requires i < |keys|
    ensures exists k :: (0 <= k < |KeptPositions(keys)|
      && KeptPositions(keys)[k] <= i && keys[KeptPositions(keys)[k]] == keys[i]
      && keys[i] !in keys[..KeptPositions(keys)[k]])
  {
    var p := FirstOccurrence(keys, i);
    var ps := KeptPositions(keys);
    assert p in ps;
    var k :| 0 <= k < |ps| && ps[k] == p;
  }
}
