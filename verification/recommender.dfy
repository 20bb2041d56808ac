/** `recomendar_musicas`: normalise the query, resolve it to the first matching
    row, look up the features of that track, ask the neighbour index for row
    positions, drop repeated (`track_name`, `artists`) pairs and keep the first
    `n` rows. */
module Recommender {
  import opened Wrappers
  import opened Text
  import opened Tracks
  import opened Dedup

  /** The scaler, PCA and k-nearest-neighbours chain, seen from outside: the
      row positions (`indices[0]` of `kneighbors`) returned for a query
      feature record, nearest first. */
  type NeighbourIndex = Features -> seq<nat>

  /** The index was built over this table: every position it returns is a row. */
  ghost predicate InRange(knn: NeighbourIndex, size: nat) {
    forall f, m :: 0 <= m < |knn(f)| ==> knn(f)[m] < size
  }

  /** The index returns at least one neighbour for every query, as a fitted
      `NearestNeighbors` with `n_neighbors >= 1` does. */
  ghost predicate AlwaysAnswers(knn: NeighbourIndex) {
    forall f :: |knn(f)| > 0
  }

  /** The row filter: lower-cased `track_name` equals the normalised track
      exactly, and lower-cased `artists` contains the normalised artist. */
  predicate Matches(row: Row, track: string, artist: string) {
    Lower(row.trackName) == track && Contains(Lower(row.artists), artist)
  }

  predicate NoMatch(table: seq<Row>, track: string, artist: string) {
    forall j :: 0 <= j < |table| ==> !Matches(table[j], track, artist)
  }

  /** The first position at or after `from` whose row satisfies `p`. */
  function FirstWhere(rows: seq<Row>, p: Row -> bool, from: nat): (r: Option<nat>)
    requires from <= |rows|
    ensures r.Some? ==> from <= r.value < |rows| && p(rows[r.value])
    ensures r.Some? ==> forall j :: from <= j < r.value ==> !p(rows[j])
    ensures r.None? ==> forall j :: from <= j < |rows| ==> !p(rows[j])
    decreases |rows| - from
  {
    if from == |rows| then None
    else if p(rows[from]) then Some(from)
    else FirstWhere(rows, p, from + 1)
  }

  /** `filtered_df['track_id'].values[0]`: the first matching row in table
      order, or nothing when the filtered frame is empty. */
  function FindFirstMatch(table: seq<Row>, track: string, artist: string): (r: Option<nat>)
    ensures r.None? <==> NoMatch(table, track, artist)
    ensures r.Some? ==> r.value < |table| && Matches(table[r.value], track, artist)
    ensures r.Some? ==> forall j :: 0 <= j < r.value ==> !Matches(table[j], track, artist)
  {
    FirstWhere(table, (row: Row) => Matches(row, track, artist), 0)
  }

  /** The row whose features are sent to the neighbour index:
      `df[df['track_id'] == track_id]` keeps every row of the matched track,
      and `indices[0]` answers for the first of them, which may precede the
      matched row itself. */
  function QueryRow(table: seq<Row>, track: string, artist: string): (r: Option<nat>)
    ensures r.None? <==> NoMatch(table, track, artist)
    ensures r.Some? ==>
              var i := FindFirstMatch(table, track, artist).value;
              && r.value <= i
              && table[r.value].trackId == table[i].trackId
              && forall j :: 0 <= j < r.value ==> table[j].trackId != table[i].trackId
  {
    match FindFirstMatch(table, track, artist)
    case None => None
    case Some(i) =>
      var id := table[i].trackId;
      var q := match FirstWhere(table, (row: Row) => row.trackId == id, 0)
               case Some(j) => j
               case None => i;
      Some(q)
  }

  /** `head(n)`: the first `n` rows, or all of them when there are fewer. */
  function Take(rows: seq<Row>, n: nat): (r: seq<Row>)
    ensures |r| == if |rows| < n then |rows| else n
    ensures r == rows[..|r|]
    ensures forall x :: x in r ==> x in rows
  {
    if |rows| <= n then rows else rows[..n]
  }

  /** The whole of `recomendar_musicas`. */
  function Recommend(trackQuery: string, artistQuery: string, table: seq<Row>,
                     knn: NeighbourIndex, n: nat): (r: seq<Row>)
    requires InRange(knn, |table|)
    ensures |r| <= n
    ensures DistinctKeys(r)
    ensures forall x :: x in r ==> x in table
    ensures NoMatch(table, Normalize(trackQuery), Normalize(artistQuery)) ==> r == []
  {
    var track := Normalize(trackQuery);
    var artist := Normalize(artistQuery);
    match QueryRow(table, track, artist)
    case None => []
    case Some(q) =>
      Take(DropDuplicates(NeighbourRows(table, knn, q)), n)
  }

  /** The rows the pipeline de-duplicates when the query resolves to row `q`. */
  function NeighbourRows(table: seq<Row>, knn: NeighbourIndex, q: nat): (rows: seq<Row>)
    requires InRange(knn, |table|) && q < |table|
    ensures |rows| == |knn(table[q].features)|
    ensures forall m :: 0 <= m < |rows| ==> rows[m] == table[knn(table[q].features)[m]]
    ensures forall x :: x in rows ==> x in table
  {
    Pick(table, knn(table[q].features))
  }

  /** The answer is the de-duplicated neighbour list cut to `n`: row `m` of the
      result is the table row at neighbour position `ps[m]`, where `ps` lists
      the first occurrence of each (`track_name`, `artists`) pair in neighbour
      order; the result is as long as it can be, `min(n, distinct pairs)`. */
  lemma {:induction false} RecommendFollowsNeighbours(trackQuery: string, artistQuery: string, table: seq<Row>,
                                   knn: NeighbourIndex, n: nat, q: nat)
    requires InRange(knn, |table|)
    requires QueryRow(table, Normalize(trackQuery), Normalize(artistQuery)) == Some(q)
    ensures var ns := knn(table[q].features);
            var rows := NeighbourRows(table, knn, q);
            var ps := FirstPositions(rows, |rows|);
            var r := Recommend(trackQuery, artistQuery, table, knn, n);
            && |r| == (if |KeysOf(rows)| < n then |KeysOf(rows)| else n)
            && forall m :: 0 <= m < |r| ==> m < |ps| && r[m] == table[ns[ps[m]]]
  {
    var rows := NeighbourRows(table, knn, q);
    assert Recommend(trackQuery, artistQuery, table, knn, n) == Take(DropDuplicates(rows), n);
    DropDuplicatesKeepsFirst(rows);
    DropDuplicatesLength(rows);
  }

  /** With a neighbour index that answers whenever the table has rows, the
      result is empty exactly when no row matches the normalised query (for
      any `n > 0`); an empty table matches nothing and gives nothing. */
  lemma {:induction false} RecommendEmptyIffNoMatch(trackQuery: string, artistQuery: string, table: seq<Row>,
                                 knn: NeighbourIndex, n: nat)
    requires InRange(knn, |table|) && (table != [] ==> AlwaysAnswers(knn)) && n > 0
    ensures Recommend(trackQuery, artistQuery, table, knn, n) == []
            <==> NoMatch(table, Normalize(trackQuery), Normalize(artistQuery))
  {
    var track, artist := Normalize(trackQuery), Normalize(artistQuery);
    var qr := QueryRow(table, track, artist);
    if qr.Some? {
      var rows := NeighbourRows(table, knn, qr.value);
      DropDuplicatesNonEmpty(rows);
    }
  }

  /** The query is insensitive to letter case and surrounding whitespace: an
      input equal, up to case, to the original padded with blanks gives the
      same recommendations. */
  lemma {:induction false} RecommendIgnoresCaseAndPadding(trackQuery: string, artistQuery: string,
                                       trackQuery': string, artistQuery': string,
                                       w1: string, w2: string, w3: string, w4: string,
                                       table: seq<Row>, knn: NeighbourIndex, n: nat)
    requires InRange(knn, |table|)
    requires AllSpace(w1) && AllSpace(w2) && AllSpace(w3) && AllSpace(w4)
    requires Lower(trackQuery') == Lower(w1 + trackQuery + w2)
    requires Lower(artistQuery') == Lower(w3 + artistQuery + w4)
    ensures Recommend(trackQuery', artistQuery', table, knn, n)
         == Recommend(trackQuery, artistQuery, table, knn, n)
  {
    NormalizeIgnoresCaseAndPadding(trackQuery, trackQuery', w1, w2);
    NormalizeIgnoresCaseAndPadding(artistQuery, artistQuery', w3, w4);
  }

  /** Rows after the first match never influence the query: two tables that
      agree up to and including the first matching row resolve to the same
      row and send the same features to the neighbour index. */
  lemma QueryIgnoresLaterRows(table: seq<Row>, table': seq<Row>, track: string, artist: string, k: nat)
    requires FindFirstMatch(table, track, artist).Some?
    requires FindFirstMatch(table, track, artist).value < k <= |table|
    requires k <= |table'| && table[..k] == table'[..k]
    ensures FindFirstMatch(table', track, artist) == FindFirstMatch(table, track, artist)
    ensures QueryRow(table', track, artist) == QueryRow(table, track, artist)
    ensures table'[QueryRow(table', track, artist).value].features
         == table[QueryRow(table, track, artist).value].features
  {
  }

  /** A track stored without surrounding whitespace is found by querying its
      own name and artists, whatever their case; the match is that row or an
      earlier one. */
  lemma {:induction false} ResolverFindsStoredTrack(table: seq<Row>, i: nat)
    requires i < |table|
    requires Unpadded(table[i].trackName)
    ensures var r := FindFirstMatch(table, Normalize(table[i].trackName), Normalize(table[i].artists));
            r.Some? && r.value <= i
  {
    StripUnpadded(table[i].trackName);
    ContainsOwnNormalization(table[i].artists);
    assert Matches(table[i], Normalize(table[i].trackName), Normalize(table[i].artists));
  }

  /** A blank artist query (non-empty whitespace passes the handler's
      required-field test) normalises to the empty string, which every artist
      contains: only the track name then decides the match. */
  lemma BlankArtistMatchesEveryArtist(row: Row, track: string, artistQuery: string)
    requires AllSpace(artistQuery)
    ensures Matches(row, track, Normalize(artistQuery)) <==> Lower(row.trackName) == track
  {
  }
}
