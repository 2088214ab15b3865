/** The already-parsed GeoJSON data that both route handlers filter, the data
    file they read it from, and the JSON response they return.

    A feature is kept as the handlers see it after the JSON library has turned
    the file into nested maps and lists: only the members the handlers look at
    are modelled, and a feature in a result is the same value as the one in
    the input. */
module GeoJson {

  datatype Option<+T> = None | Some(value: T)

  /** A GeoJSON position: longitude first, then latitude, then anything else. */
  type Point = seq<real>
  type Ring = seq<Point>
  type Polygon = seq<Ring>
  /** The `coordinates` of a `MultiPolygon`: polygons, each a list of rings. */
  type MultiPolygonCoordinates = seq<Polygon>

  /** `geometry`: its `type` member (None when absent, null or not a string)
      and its `coordinates` member (None when absent or null). */
  datatype Geometry = Geometry(kind: Option<string>, coordinates: Option<MultiPolygonCoordinates>)

  /** `properties`: the values of its `area_description_data` object, in
      iteration order, each already turned into its string form (None for a
      JSON null), or None when the member is absent or null. */
  datatype Properties = Properties(areaDescription: Option<seq<Option<string>>>)

  /** One element of the data file's `features` list. */
  datatype Feature = Feature(geometry: Option<Geometry>, properties: Option<Properties>)

  /** What the top-level `features` member of the data file holds. `Malformed`
      stands for a member that is null or not a list of objects: using it
      throws, and `message` is that exception's message. */
  datatype FeaturesMember = Absent | Malformed(message: string) | Present(items: seq<Feature>)

  /** The data file as the JSON library reads it. `Unreadable` stands for a
      failure to read or parse the file, with the exception's message;
      `NullDocument` for a file whose JSON value is `null`. */
  datatype DataFile = Unreadable(message: string) | NullDocument | Document(features: FeaturesMember)

  datatype Loaded = Loaded(features: seq<Feature>) | LoadFailed(message: string)

  /** Reads the feature list of the data file. A file whose top level has no
      `features` member (or is null) gives the empty list, not an error. */
  function ReadFeatures(file: DataFile): (r: Loaded)
    ensures r.LoadFailed? <==> file.Unreadable? || (file.Document? && file.features.Malformed?)
    ensures r.Loaded? && r.features != [] ==> file == Document(Present(r.features))
    ensures file.Document? && file.features.Present? ==> r == Loaded(file.features.items)
    ensures file.NullDocument? || file == Document(Absent) ==> r == Loaded([])
  {
    match file
    case Unreadable(message) => LoadFailed(message)
    case NullDocument => Loaded([])
    case Document(Absent) => Loaded([])
    case Document(Malformed(message)) => LoadFailed(message)
    case Document(Present(items)) => Loaded(items)
  }

  /** The value put into the response map: a list of features, or an error string. */
  datatype Payload = Data(features: seq<Feature>) | Error(message: string)

  /** The HTTP status the handler sets and the one entry of its response map. */
  datatype Response = Response(status: int, key: string, payload: Payload)

  const ErrorKey := "error"
}
