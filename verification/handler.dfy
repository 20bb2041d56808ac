/** The request handler `resultados`: its three early exits and its success
    path, checked in the source's order. The file check, the loading of the
    models and of the CSV, and the reading of the form are inputs here. */
module Handler {
  import opened Wrappers
  import opened Text
  import opened Tracks
  import opened Recommender

  /** What the results page is rendered with: one of the three fixed messages
      or the list of recommended rows. */
  datatype Outcome =
    | FileMissing
    | FieldsRequired
    | TrackNotFound
    | Recommendations(rows: seq<Row>)

  /** The handler always asks for ten results. */
  const MaxResults: nat := 10

  /** Python's `not field` for a form value: absent (`None`) or empty. */
  predicate Blank(field: Option<string>) {
    field.None? || field.value == []
  }

  /** `resultados`: `fileExists` is the outcome of `os.path.isfile`, `table`
      the cleaned CSV, `knn` the loaded neighbour chain, and the two fields
      the values of `request.form.get`. */
  function Respond(fileExists: bool, trackField: Option<string>, artistField: Option<string>,
                   table: seq<Row>, knn: NeighbourIndex): (o: Outcome)
    requires InRange(knn, |table|)
    ensures o.Recommendations? ==> 0 < |o.rows| <= MaxResults
    ensures o.Recommendations? ==> DistinctKeys(o.rows)
    ensures o.Recommendations? ==> forall x :: x in o.rows ==> x in table
  {
    if !fileExists then
      FileMissing
    else if Blank(trackField) || Blank(artistField) then
      FieldsRequired
    else
      var recommendations :=
        Recommend(trackField.value, artistField.value, table, knn, MaxResults);
      if recommendations == [] then TrackNotFound else Recommendations(recommendations)
  }

  /** The four outcomes and the order in which they are decided: a missing
      file wins over everything, then a blank field, then an unmatched query;
      otherwise the recommendations are the pipeline's answer for ten results. */
  lemma {:induction false} RespondDispatch(fileExists: bool, trackField: Option<string>, artistField: Option<string>,
                        table: seq<Row>, knn: NeighbourIndex)
    requires InRange(knn, |table|) && (table != [] ==> AlwaysAnswers(knn))
    ensures var o := Respond(fileExists, trackField, artistField, table, knn);
            && (o == FileMissing <==> !fileExists)
            && (o == FieldsRequired <==> fileExists && (Blank(trackField) || Blank(artistField)))
            && (o == TrackNotFound <==>
                  fileExists && !Blank(trackField) && !Blank(artistField)
                  && NoMatch(table, Normalize(trackField.value), Normalize(artistField.value)))
            && (o.Recommendations? <==>
                  fileExists && !Blank(trackField) && !Blank(artistField)
                  && !NoMatch(table, Normalize(trackField.value), Normalize(artistField.value)))
            && (o.Recommendations? ==>
                  o.rows == Recommend(trackField.value, artistField.value, table, knn, MaxResults))
  {
    if fileExists && !Blank(trackField) && !Blank(artistField) {
      RecommendEmptyIffNoMatch(trackField.value, artistField.value, table, knn, MaxResults);
    }
  }

  /** A whitespace-only artist is not blank to the handler, yet normalises to
      the empty string: any row whose track name matches then yields
      recommendations, whoever its artists are. */
  lemma {:induction false} WhitespaceArtistIgnoresArtists(trackQuery: string, artistQuery: string,
                                       table: seq<Row>, knn: NeighbourIndex, i: nat)
    requires InRange(knn, |table|) && (table != [] ==> AlwaysAnswers(knn))
    requires trackQuery != [] && artistQuery != [] && AllSpace(artistQuery)
    requires i < |table| && Lower(table[i].trackName) == Normalize(trackQuery)
    ensures Respond(true, Some(trackQuery), Some(artistQuery), table, knn).Recommendations?
  {
    BlankArtistMatchesEveryArtist(table[i], Normalize(trackQuery), artistQuery);
    RespondDispatch(true, Some(trackQuery), Some(artistQuery), table, knn);
  }
}
