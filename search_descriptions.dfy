/** The `/searchDescriptions` route: keep, in input order, the features whose
    `area_description_data` has a non-null value containing the keyword,
    ignoring case. */
module SearchDescriptions {
  import opened GeoJson
  import opened Subsequences

  const MissingKeywordMessage := "Missing keyword."
  const FailurePrefix := "An error occurred while processing the keyword request: "
  const ResultKey := "keywordData"

  /** Lower-casing of one character, on the ASCII letters only. */
  function LowerChar(c: char): char {
    if 'A' <= c <= 'Z' then (c as int + ('a' as int - 'A' as int)) as char else c
  }

  /** `String.toLowerCase`, restricted to ASCII. */
  function Lower(s: string): (r: string) {
    seq(|s|, i requires 0 <= i < |s| => LowerChar(s[i]))
  }

  /** `sub` occurs in `s` starting at position `i`. */
  predicate OccursAt(s: string, sub: string, i: nat) {
    i + |sub| <= |s| && s[i..i + |sub|] == sub
  }

  /** `String.contains`: `sub` occurs in `s` at some position. The empty
      string occurs in every string. */
  predicate Contains(s: string, sub: string) {
    exists i :: 0 <= i <= |s| && OccursAt(s, sub, i)
  }

  /** One description value matches an already lower-cased keyword. */
  predicate ValueMatches(value: Option<string>, keyword: string) {
    value.Some? && Contains(Lower(value.value), keyword)
  }

  /** The feature has properties, an `area_description_data` object, and one
      of its values matches the lower-cased keyword. */
  predicate Matches(f: Feature, keyword: string) {
    && f.properties.Some?
    && f.properties.value.areaDescription.Some?
    && var values := f.properties.value.areaDescription.value;
       exists v :: 0 <= v < |values| && ValueMatches(values[v], keyword)
  }

  /** The result list after the loop has gone through `fs`. */
  function Search(fs: seq<Feature>, keyword: string): (r: seq<Feature>)
    decreases |fs|
  {
    if fs == [] then []
    else
      var n := |fs| - 1;
      var before := Search(fs[..n], keyword);
      if Matches(fs[n], keyword) then before + [fs[n]] else before
  }

  /** The positions of `fs` that `Search` takes. */
  function SearchIndices(fs: seq<Feature>, keyword: string): (r: seq<nat>)
    decreases |fs|
  {
    if fs == [] then []
    else
      var n := |fs| - 1;
      var before := SearchIndices(fs[..n], keyword);
      if Matches(fs[n], keyword) then before + [n] else before
  }

  /** The result is the input read at strictly increasing positions (input
      order, each feature at most once), and a position is taken iff its
      feature matches. */
  lemma {:induction false} SearchSelects(fs: seq<Feature>, keyword: string)
    ensures PicksAt(Search(fs, keyword), fs, SearchIndices(fs, keyword))
    ensures forall i :: 0 <= i < |fs| ==> (i in SearchIndices(fs, keyword) <==> Matches(fs[i], keyword))
    decreases |fs|
  {
    if fs != [] {
      var n := |fs| - 1;
      var init := fs[..n];
      assert fs == init + [fs[n]];
      SearchSelects(init, keyword);
      PicksAtSnoc(Search(init, keyword), init, SearchIndices(init, keyword), fs[n]);
    }
  }

  /** A feature is kept iff it is in the input and matches. */
  lemma {:induction false} SearchMembership(fs: seq<Feature>, keyword: string, f: Feature)
    ensures f in Search(fs, keyword) <==> f in fs && Matches(f, keyword)
  {
    SearchSelects(fs, keyword);
    var r, idx := Search(fs, keyword), SearchIndices(fs, keyword);
    if f in r {
      var k :| 0 <= k < |r| && r[k] == f;
      assert idx[k] in idx;
    }
    if f in fs && Matches(f, keyword) {
      var i :| 0 <= i < |fs| && fs[i] == f;
      assert i in idx;
      var k :| 0 <= k < |idx| && idx[k] == i;
      assert r[k] == f;
    }
  }

  /** Lower-casing twice is lower-casing once. */
  lemma LowerIdempotent(s: string)
    ensures Lower(Lower(s)) == Lower(s)
  {
  }

  /** The empty keyword matches exactly the features that have at least one
      non-null description value. */
  lemma EmptyKeywordMatchesDescribed(f: Feature)
    ensures Matches(f, "") <==>
              && f.properties.Some?
              && f.properties.value.areaDescription.Some?
              && exists v :: 0 <= v < |f.properties.value.areaDescription.value|
                             && f.properties.value.areaDescription.value[v].Some?
  {
    if f.properties.Some? && f.properties.value.areaDescription.Some? {
      var values := f.properties.value.areaDescription.value;
      forall v | 0 <= v < |values| && values[v].Some?
        ensures ValueMatches(values[v], "")
      {
        assert OccursAt(Lower(values[v].value), "", 0);
      }
    }
  }

  /** A completed request that failed with an exception. */
  function ServerError(message: string): Response {
    Response(500, ErrorKey, Error(FailurePrefix + message))
  }

  /** The whole route: the null check, lower-casing, reading the data file,
      and the filter. Only a null keyword is rejected; "" is searched. */
  function Respond(keyword: Option<string>, file: DataFile): (r: Response)
    ensures r.status == 400 <==> keyword.None?
    ensures r.status == 400 ==> r == Response(400, ErrorKey, Error(MissingKeywordMessage))
    ensures r.status == 500 <==> keyword.Some? && ReadFeatures(file).LoadFailed?
    ensures r.status == 500 ==> r.key == ErrorKey && r.payload.Error?
    ensures r.status in {200, 400, 500}
    ensures r.status == 200 ==>
              r.key == ResultKey && r.payload == Data(Search(ReadFeatures(file).features, Lower(keyword.value)))
  {
    match keyword
    case None => Response(400, ErrorKey, Error(MissingKeywordMessage))
    case Some(k) =>
      match ReadFeatures(file)
      case LoadFailed(message) => ServerError(message)
      case Loaded(features) => Response(200, ResultKey, Data(Search(features, Lower(k))))
  }

  /** Keywords that differ only in the case of letters give the same response;
      in particular `k` and its lower-cased form do. */
  lemma CaseInsensitive(k: string, file: DataFile)
    ensures forall k' :: Lower(k') == Lower(k) ==> Respond(Some(k'), file) == Respond(Some(k), file)
    ensures Respond(Some(k), file) == Respond(Some(Lower(k)), file)
  {
    LowerIdempotent(k);
  }

  /** A keyword that no description value contains gives status 200 and an
      empty `keywordData`, not an error. */
  lemma NoMatchGivesEmptyResult(k: string, fs: seq<Feature>)
    requires forall f :: f in fs ==> !Matches(f, Lower(k))
    ensures Respond(Some(k), Document(Present(fs))) == Response(200, ResultKey, Data([]))
  {
    var r := Search(fs, Lower(k));
    if r != [] {
      SearchMembership(fs, Lower(k), r[0]);
    }
  }

  /** A data file without a `features` member gives status 200 and an empty
      `keywordData` for every keyword. */
  lemma NoFeaturesKeyGivesEmptyResult(k: string)
    ensures Respond(Some(k), Document(Absent)) == Response(200, ResultKey, Data([]))
  {
  }

  /** The filter loop of the handler; the inner loop stops at the first
      matching value, so a feature is appended at most once. */
  method FilterByKeyword(redliningData: seq<Feature>, keyword: string) returns (matchingAreas: seq<Feature>)
    ensures matchingAreas == Search(redliningData, keyword)
  {
    matchingAreas := [];
    for i := 0 to |redliningData|
      invariant matchingAreas == Search(redliningData[..i], keyword)
    {
      var feature := redliningData[i];
      ghost var before := matchingAreas;
      var properties := feature.properties;
      if properties.Some? {
        var areaDescription := properties.value.areaDescription;
        if areaDescription.Some? {
          var values := areaDescription.value;
          for v := 0 to |values|
            invariant matchingAreas == before
            invariant forall j :: 0 <= j < v ==> !ValueMatches(values[j], keyword)
          {
            var value := values[v];
            if value.Some? && Contains(Lower(value.value), keyword) {
              matchingAreas := matchingAreas + [feature];
              break;
            }
          }
        }
      }
      assert redliningData[..i + 1][..i] == redliningData[..i];
    }
    assert redliningData[..|redliningData|] == redliningData;
  }

  /** The `handle` method of the route. */
  method Handle(keywordParam: Option<string>, file: DataFile) returns (response: Response)
    ensures response == Respond(keywordParam, file)
  {
    if keywordParam.None? {
      return Response(400, ErrorKey, Error(MissingKeywordMessage));
    }
    var keyword := Lower(keywordParam.value);
    var loaded := ReadFeatures(file);
    if loaded.LoadFailed? {
      return ServerError(loaded.message);
    }
    var matchingAreas := FilterByKeyword(loaded.features, keyword);
    response := Response(200, ResultKey, Data(matchingAreas));
  }
}
