/**
 * The pixel-to-geographic transform of rest_app/utils.py: six affine
 * coefficients read from a geo-transform mapping, a height x width matrix
 * of (latitude, longitude) pairs and its centre cell.
 */
module PixelGeo {
  import opened Wrappers
  import opened JsonData
  import opened PyDict

  /** A geographic position, latitude first as the matrix stores it. */
  type LatLon = (real, real)

  /** The six affine coefficients, in the order the metadata lists them. */
  datatype Coefficients = Coefficients(
    lonTopLeft: real, pixelWidth: real, rotationX: real,
    latTopLeft: real, rotationY: real, pixelHeight: real)

  /** The geographic position of pixel column `x`, row `y`. */
  function PixelToGeo(c: Coefficients, x: real, y: real): LatLon {
    (c.latTopLeft + x * c.rotationY + y * c.pixelHeight,
     c.lonTopLeft + x * c.pixelWidth + y * c.rotationX)
  }

  /** The exception `transform_pixel_to_geo` raises, by the line that raises it. */
  datatype GeoError =
    | NoTransformEntry        // the mapping has no first key: IndexError (line 16)
    | NotSubscriptable        // the entry is a number, a boolean or None: TypeError (line 16)
    | NoFirstElement          // the entry is an empty list or string, or a mapping: IndexError/KeyError (line 16)
    | NotUnpackable           // the parameters are a number, a boolean or None: TypeError (line 18)
    | WrongArity(found: nat)  // the parameters do not hold six values: ValueError (line 18)
    | NegativeDimension       // allocating a matrix of negative size: ValueError (line 21)
    | NonNumericCoefficient   // arithmetic on a value that is not a number: TypeError (lines 25-26)
    | CentreOutOfRange        // an empty matrix has no centre cell: IndexError (line 32)

  /** The first element of the value stored under the first key of the geo-transform mapping (line 16). */
  function FirstParams(geoTransform: Dict<Json>): Result<Json, GeoError> {
    if geoTransform.entries == [] then Failure(NoTransformEntry)
    else match geoTransform.entries[0].1
      case JArray(items) => if items == [] then Failure(NoFirstElement) else Success(items[0])
      case JStr(s) => if s == [] then Failure(NoFirstElement) else Success(JStr([s[0]]))
      case JObject(_) => Failure(NoFirstElement)
      case _ => Failure(NotSubscriptable)
  }

  /** How many values iterating a value yields; None when it is not iterable. */
  function Arity(params: Json): Option<nat> {
    match params
    case JArray(items) => Some(|items|)
    case JStr(s) => Some(|s|)
    case JObject(entries) => Some(|entries|)
    case _ => None
  }

  /**
   * Unpacking into six names: a list gives its items, a string its
   * characters, a mapping its keys; anything else is not iterable.
   */
  function Unpack(params: Json): (r: Result<seq<Json>, GeoError>)
    ensures Arity(params).None? <==> r == Failure(NotUnpackable)
    ensures Arity(params).Some? ==> (r.Success? <==> Arity(params).value == 6)
    ensures Arity(params).Some? && r.Failure? ==> r.error == WrongArity(Arity(params).value)
    ensures r.Success? ==> |r.value| == 6
    ensures params.JArray? && r.Success? ==> r.value == params.items
    ensures params.JStr? && r.Success? ==> forall i :: 0 <= i < 6 ==> r.value[i] == JStr([params.s[i]])
    ensures params.JObject? && r.Success? ==> forall i :: 0 <= i < 6 ==> r.value[i] == JStr(params.entries[i].0)
  {
    match params
    case JArray(items) =>
      if |items| == 6 then Success(items) else Failure(WrongArity(|items|))
    case JStr(s) =>
      if |s| == 6 then Success(seq(6, i requires 0 <= i < 6 => JStr([s[i]])))
      else Failure(WrongArity(|s|))
    case JObject(entries) =>
      if |entries| == 6 then Success(seq(6, i requires 0 <= i < 6 => JStr(entries[i].0)))
      else Failure(WrongArity(|entries|))
    case _ => Failure(NotUnpackable)
  }

  /** The coefficients, when all six unpacked values are numbers. */
  function AsCoefficients(six: seq<Json>): Option<Coefficients>
    requires |six| == 6
  {
    if forall i :: 0 <= i < 6 ==> six[i].JNum? then
      Some(Coefficients(six[0].n, six[1].n, six[2].n, six[3].n, six[4].n, six[5].n))
    else None
  }

  /**
   * Everything that decides whether `transform_pixel_to_geo` returns, and
   * with which coefficients: the first error in source order, or the
   * coefficients the loop uses.
   */
  function Preflight(imageSize: (int, int), geoTransform: Dict<Json>): Result<Coefficients, GeoError> {
    var (width, height) := imageSize;
    var params :- FirstParams(geoTransform);
    var six :- Unpack(params);
    if width < 0 || height < 0 then Failure(NegativeDimension)
    else if width == 0 || height == 0 then Failure(CentreOutOfRange)
    else match AsCoefficients(six)
      case None => Failure(NonNumericCoefficient)
      case Some(c) => Success(c)
  }

  /** The value a matrix cell holds before the loop writes it. */
  const Unwritten: LatLon := (0.0, 0.0)

  /** What `transform_pixel_to_geo` returns: the matrix and its centre. */
  datatype Georeference = Georeference(matrix: array2<LatLon>, centre: LatLon)

  /**
   * `transform_pixel_to_geo(image_size, geo_transform)`: fills row after
   * row, column after column, and returns the cell at the integer centre.
   */
  method TransformPixelToGeo(imageSize: (int, int), geoTransform: Dict<Json>)
    returns (r: Result<Georeference, GeoError>)
    ensures r.Failure? <==> Preflight(imageSize, geoTransform).Failure?
    ensures r.Failure? ==> r.error == Preflight(imageSize, geoTransform).error
    ensures r.Success? ==>
      var c, width, height := Preflight(imageSize, geoTransform).value, imageSize.0, imageSize.1;
      && r.value.matrix.Length0 == height && r.value.matrix.Length1 == width
      && (forall y, x :: 0 <= y < height && 0 <= x < width ==>
            r.value.matrix[y, x] == PixelToGeo(c, x as real, y as real))
      && r.value.centre == r.value.matrix[height / 2, width / 2]
      && r.value.centre == PixelToGeo(c, (width / 2) as real, (height / 2) as real)
  {
    var (width, height) := imageSize;
    var params :- FirstParams(geoTransform);
    var six :- Unpack(params);
    if width < 0 || height < 0 {
      return Failure(NegativeDimension);
    }
    if width == 0 || height == 0 {
      // no cell is computed, and the centre lookup fails
      return Failure(CentreOutOfRange);
    }
    var coefficients := AsCoefficients(six);
    if coefficients.None? {
      // the first cell's arithmetic fails
      return Failure(NonNumericCoefficient);
    }
    var c := coefficients.value;
    var m := new LatLon[height, width]((i, j) => Unwritten);
    var y := 0;
    while y < height
      invariant 0 <= y <= height
      invariant forall i, j :: 0 <= i < y && 0 <= j < width ==> m[i, j] == PixelToGeo(c, j as real, i as real)
      invariant forall i, j :: y <= i < height && 0 <= j < width ==> m[i, j] == Unwritten
    {
      var x := 0;
      while x < width
        invariant 0 <= x <= width
        invariant forall i, j :: 0 <= i < y && 0 <= j < width ==> m[i, j] == PixelToGeo(c, j as real, i as real)
        invariant forall j :: 0 <= j < x ==> m[y, j] == PixelToGeo(c, j as real, y as real)
        invariant forall j :: x <= j < width ==> m[y, j] == Unwritten
        invariant forall i, j :: y < i < height && 0 <= j < width ==> m[i, j] == Unwritten
      {
        // the latitude and longitude of lines 25-26, stored as one pair (line 27)
        m[y, x] := PixelToGeo(c, x as real, y as real);
        x := x + 1;
      }
      y := y + 1;
    }
    var centreX := width / 2;
    var centreY := height / 2;
    return Success(Georeference(m, m[centreY, centreX]));
  }

  // Properties of the transform

  /** Pixel (0, 0) lies at the top-left origin. */
  lemma OriginCell(c: Coefficients)
    ensures PixelToGeo(c, 0.0, 0.0) == (c.latTopLeft, c.lonTopLeft)
  {
  }

  /** One column to the right adds (rotationY, pixelWidth) to (lat, lon). */
  lemma ColumnStep(c: Coefficients, x: real, y: real)
    ensures PixelToGeo(c, x + 1.0, y).0 == PixelToGeo(c, x, y).0 + c.rotationY
    ensures PixelToGeo(c, x + 1.0, y).1 == PixelToGeo(c, x, y).1 + c.pixelWidth
  {
  }

  /** One row down adds (pixelHeight, rotationX) to (lat, lon). */
  lemma RowStep(c: Coefficients, x: real, y: real)
    ensures PixelToGeo(c, x, y + 1.0).0 == PixelToGeo(c, x, y).0 + c.pixelHeight
    ensures PixelToGeo(c, x, y + 1.0).1 == PixelToGeo(c, x, y).1 + c.rotationX
  {
  }

  /** The transform is affine: shifting a pixel shifts its position by the shift's image less the origin. */
  lemma Affine(c: Coefficients, x1: real, x2: real, y1: real, y2: real)
    ensures PixelToGeo(c, x1 + x2, y1 + y2).0 == PixelToGeo(c, x1, y1).0 + PixelToGeo(c, x2, y2).0 - c.latTopLeft
    ensures PixelToGeo(c, x1 + x2, y1 + y2).1 == PixelToGeo(c, x1, y1).1 + PixelToGeo(c, x2, y2).1 - c.lonTopLeft
  {
  }

  // Properties of the coefficient lookup

  /** The metadata value stored for one image: the six coefficients, then the spatial-reference text. */
  function MetadataEntry(c: Coefficients, spatialReference: string): Json {
    JArray([JArray([JNum(c.lonTopLeft), JNum(c.pixelWidth), JNum(c.rotationX),
                    JNum(c.latTopLeft), JNum(c.rotationY), JNum(c.pixelHeight)]),
            JStr(spatialReference)])
  }

  /** Coefficients written as a metadata entry under the first key are read back unchanged. */
  lemma MetadataRoundTrip(c: Coefficients, spatialReference: string, name: string, rest: seq<(string, Json)>, width: int, height: int)
    requires width >= 1 && height >= 1
    ensures Preflight((width, height), Dict([(name, MetadataEntry(c, spatialReference))] + rest)) == Success(c)
  {
  }

  /** Only the first key of the mapping is consulted. */
  lemma OnlyFirstEntryMatters(imageSize: (int, int), geoTransform: Dict<Json>, rest: seq<(string, Json)>)
    requires geoTransform.entries != []
    ensures Preflight(imageSize, geoTransform) == Preflight(imageSize, Dict([geoTransform.entries[0]] + rest))
  {
  }

  /**
   * The lookup succeeds exactly when the image has at least one pixel and
   * the first key's value is a list whose first element is a list of six
   * numbers: strings and mappings never yield numbers.
   */
  lemma {:induction false} PreflightSucceedsIff(imageSize: (int, int), geoTransform: Dict<Json>)
    ensures Preflight(imageSize, geoTransform).Success? <==>
      && imageSize.0 >= 1 && imageSize.1 >= 1
      && geoTransform.entries != []
      && geoTransform.entries[0].1.JArray?
      && geoTransform.entries[0].1.items != []
      && geoTransform.entries[0].1.items[0].JArray?
      && |geoTransform.entries[0].1.items[0].items| == 6
      && forall i :: 0 <= i < 6 ==> geoTransform.entries[0].1.items[0].items[i].JNum?
  {
    if Preflight(imageSize, geoTransform).Success? {
      var six := Unpack(FirstParams(geoTransform).value).value;
      assert AsCoefficients(six).Some?;
      assert six[0].JNum?;
    }
  }

  /** A parameter list of any length other than six fails with that length. */
  lemma WrongArityFails(imageSize: (int, int), name: string, items: seq<Json>, more: seq<Json>)
    requires |items| != 6
    ensures Preflight(imageSize, Dict([(name, JArray([JArray(items)] + more))])) == Failure(WrongArity(|items|))
  {
  }

  /**
   * With valid coefficients, a negative size cannot be allocated, and an
   * image without a row or a column has no centre cell.
   */
  lemma EmptyImageFails(c: Coefficients, spatialReference: string, name: string, width: int, height: int)
    requires width <= 0 || height <= 0
    ensures Preflight((width, height), Dict([(name, MetadataEntry(c, spatialReference))]))
      == Failure(if width < 0 || height < 0 then NegativeDimension else CentreOutOfRange)
  {
  }
}
