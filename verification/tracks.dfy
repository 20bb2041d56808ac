/** One row of the track table, as the recommender reads it once the CSV has
    been loaded and its numeric columns cleaned. */
module Tracks {

  /** The two columns fed to the scaler, in the order the source selects
      them (`track_genre`, `popularity`), as the numbers the cleaning step
      produced. */
  datatype Features = Features(trackGenre: real, popularity: real)

  datatype Row = Row(trackId: string, trackName: string, artists: string, features: Features)

  /** The column pair that `drop_duplicates` compares: the raw, unnormalised
      `track_name` and `artists` values. */
  datatype Key = Key(trackName: string, artists: string)

  function KeyOf(row: Row): Key {
    Key(row.trackName, row.artists)
  }

  /** The set of distinct (`track_name`, `artists`) pairs of some rows. */
  function KeysOf(rows: seq<Row>): set<Key> {
    set i | 0 <= i < |rows| :: KeyOf(rows[i])
  }

  /** `df.iloc[ps]`: the rows at the given positions, in the order of the
      positions, repeats included. */
  function Pick(rows: seq<Row>, ps: seq<nat>): (r: seq<Row>)
    requires forall m :: 0 <= m < |ps| ==> ps[m] < |rows|
    ensures |r| == |ps|
    ensures forall m :: 0 <= m < |ps| ==> r[m] == rows[ps[m]]
  {
    seq(|ps|, m requires 0 <= m < |ps| => rows[ps[m]])
  }

  /** No two rows share a (`track_name`, `artists`) pair. */
  predicate DistinctKeys(rows: seq<Row>) {
    forall p, q :: 0 <= p < q < |rows| ==> KeyOf(rows[p]) != KeyOf(rows[q])
  }
}
