/** `DataFrame.drop_duplicates(subset=['track_name', 'artists'])` with its
    default `keep='first'`: walk the rows in order and keep a row only when its
    pair has not been seen before. */
module Dedup {
  import opened Tracks

  /** Position `i` holds the first occurrence of its pair. */
  predicate IsFirst(rows: seq<Row>, i: int) {
    0 <= i < |rows| && forall j :: 0 <= j < i ==> KeyOf(rows[j]) != KeyOf(rows[i])
  }

  /** The reference definition: the first-occurrence positions among the
      first `k` rows, in increasing order. */
  function FirstPositions(rows: seq<Row>, k: nat): (ps: seq<nat>)
    requires k <= |rows|
    ensures forall m :: 0 <= m < |ps| ==> ps[m] < k && IsFirst(rows, ps[m])
    ensures forall m, m' :: 0 <= m < m' < |ps| ==> ps[m] < ps[m']
    ensures forall i :: 0 <= i < k && IsFirst(rows, i) ==> i in ps
  {
    if k == 0 then []
    else FirstPositions(rows, k - 1) + (if IsFirst(rows, k - 1) then [k - 1] else [])
  }

  /** The scan from position `k` on: `seen` holds the pairs of the rows kept
      so far, `kept` those rows in order. */
  function DropDuplicatesFrom(rows: seq<Row>, k: nat, seen: set<Key>, kept: seq<Row>): (r: seq<Row>)
    requires k <= |rows|
    requires DistinctKeys(kept)
    requires forall m :: 0 <= m < |kept| ==> KeyOf(kept[m]) in seen
    ensures DistinctKeys(r)
    ensures forall x :: x in r ==> x in kept || x in rows[k..]
    decreases |rows| - k
  {
    if k == |rows| then kept
    else if KeyOf(rows[k]) in seen then DropDuplicatesFrom(rows, k + 1, seen, kept)
    else DropDuplicatesFrom(rows, k + 1, seen + {KeyOf(rows[k])}, kept + [rows[k]])
  }

  /** The rows with every repeat of an earlier (`track_name`, `artists`) pair
      removed. */
  function DropDuplicates(rows: seq<Row>): (r: seq<Row>)
    ensures DistinctKeys(r)
    ensures forall x :: x in r ==> x in rows
  {
    assert rows[0..] == rows;
    DropDuplicatesFrom(rows, 0, {}, [])
  }

  /** The pair of row `k` was seen among the first `k` rows exactly when row
      `k` is not a first occurrence. */
  lemma SeenIffNotFirst(rows: seq<Row>, k: nat)
    requires k < |rows|
    ensures KeyOf(rows[k]) in KeysOf(rows[..k]) <==> !IsFirst(rows, k)
  {
  }

  lemma KeysOfSnoc(rows: seq<Row>, k: nat)
    requires k < |rows|
    ensures KeysOf(rows[..k + 1]) == KeysOf(rows[..k]) + {KeyOf(rows[k])}
  {
  }

  /** The reference selection of the first `k` rows as rows: distinct pairs,
      all among the pairs of those rows. */
  function FirstOccurrences(rows: seq<Row>, k: nat): (r: seq<Row>)
    requires k <= |rows|
    ensures DistinctKeys(r)
    ensures forall m :: 0 <= m < |r| ==> KeyOf(r[m]) in KeysOf(rows[..k])
  {
    var ps := FirstPositions(rows, k);
    var r := Pick(rows, ps);
    assert forall m :: 0 <= m < |r| ==> rows[..k][ps[m]] == r[m];
    r
  }

  /** The reference selection grows by row `k` exactly when row `k` is a
      first occurrence. */
  lemma ReferenceStep(rows: seq<Row>, k: nat)
    requires k < |rows|
    ensures FirstOccurrences(rows, k + 1)
         == if IsFirst(rows, k) then FirstOccurrences(rows, k) + [rows[k]] else FirstOccurrences(rows, k)
  {
  }

  /** One step of the scan: started from the reference state after `k`
      rows, it reaches the reference state after `k + 1` rows. */
  lemma {:induction false} DropDuplicatesStep(rows: seq<Row>, k: nat)
    requires k < |rows|
    ensures DropDuplicatesFrom(rows, k, KeysOf(rows[..k]), FirstOccurrences(rows, k))
         == DropDuplicatesFrom(rows, k + 1, KeysOf(rows[..k + 1]), FirstOccurrences(rows, k + 1))
  {
    SeenIffNotFirst(rows, k);
    KeysOfSnoc(rows, k);
    ReferenceStep(rows, k);
    if !IsFirst(rows, k) {
      assert KeysOf(rows[..k]) == KeysOf(rows[..k + 1]);
    }
  }

  /** The scan from `k`, started with the pairs of the first `k` rows as
      `seen` and the reference selection of the first `k` rows as `kept`,
      ends with the reference selection of all rows. */
  lemma {:induction false} DropDuplicatesFromReference(rows: seq<Row>, k: nat)
    requires k <= |rows|
    ensures DropDuplicatesFrom(rows, k, KeysOf(rows[..k]), FirstOccurrences(rows, k))
         == FirstOccurrences(rows, |rows|)
    decreases |rows| - k
  {
    if k < |rows| {
      DropDuplicatesStep(rows, k);
      DropDuplicatesFromReference(rows, k + 1);
    }
  }

  /** `drop_duplicates` keeps exactly the first occurrence of every pair, in
      the rows' own order: its result is the reference selection. */
  lemma {:induction false} DropDuplicatesKeepsFirst(rows: seq<Row>)
    ensures DropDuplicates(rows) == Pick(rows, FirstPositions(rows, |rows|))
  {
    DropDuplicatesFromReference(rows, 0);
    assert rows[..0] == [];
    assert KeysOf(rows[..0]) == {};
    assert FirstOccurrences(rows, 0) == [];
  }

  /** Every pair present in the input survives, and nothing else does. */
  lemma {:induction false} DropDuplicatesKeepsEveryPair(rows: seq<Row>)
    ensures KeysOf(DropDuplicates(rows)) == KeysOf(rows)
  {
    DropDuplicatesKeepsFirst(rows);
    var ps := FirstPositions(rows, |rows|);
    var r := DropDuplicates(rows);
    forall x | x in KeysOf(rows) ensures x in KeysOf(r) {
      var i :| 0 <= i < |rows| && KeyOf(rows[i]) == x;
      var f := FirstOf(rows, i);
      var m :| 0 <= m < |ps| && ps[m] == f;
      assert KeyOf(r[m]) == x;
    }
  }

  /** The first occurrence of the pair of row `i`. */
  lemma {:induction false} FirstOf(rows: seq<Row>, i: nat) returns (f: nat)
    requires i < |rows|
    ensures f <= i && IsFirst(rows, f) && KeyOf(rows[f]) == KeyOf(rows[i])
    decreases i
  {
    if IsFirst(rows, i) {
      f := i;
    } else {
      var j :| 0 <= j < i && KeyOf(rows[j]) == KeyOf(rows[i]);
      f := FirstOf(rows, j);
    }
  }

  /** So the number of rows kept is the number of distinct pairs: fewer rows
      come back only when the input holds fewer distinct pairs. */
  lemma {:induction false} DropDuplicatesLength(rows: seq<Row>)
    ensures |DropDuplicates(rows)| == |KeysOf(rows)|
  {
    var r := DropDuplicates(rows);
    DropDuplicatesKeepsEveryPair(rows);
    DistinctKeysCount(r);
  }

  lemma {:induction false} DistinctKeysCount(rows: seq<Row>)
    requires DistinctKeys(rows)
    ensures |KeysOf(rows)| == |rows|
    decreases |rows|
  {
    if |rows| > 0 {
      var init := rows[..|rows| - 1];
      assert DistinctKeys(init);
      DistinctKeysCount(init);
      KeysOfSnoc(rows, |rows| - 1);
      assert rows[..|rows|] == rows;
      assert KeyOf(rows[|rows| - 1]) !in KeysOf(init) by {
        forall j | 0 <= j < |init| ensures KeyOf(init[j]) != KeyOf(rows[|rows| - 1]) {
          assert init[j] == rows[j];
        }
      }
    } else {
      assert KeysOf(rows) == {};
    }
  }

  /** A non-empty input always keeps its first row. */
  lemma {:induction false} DropDuplicatesNonEmpty(rows: seq<Row>)
    requires |rows| > 0
    ensures |DropDuplicates(rows)| > 0
    ensures DropDuplicates(rows)[0] == rows[0]
  {
    DropDuplicatesKeepsFirst(rows);
    assert IsFirst(rows, 0);
    var ps := FirstPositions(rows, |rows|);
    assert 0 in ps;
    assert ps[0] == 0;
  }
}
