/**
 * The data shaping inside the `inference` view of rest_app/views/home_views.py:
 * pairing each base name with its uploaded pre- and post-disaster images,
 * building one detail row per base name, and choosing the result page.
 * Uploads, the classifier's response, the database and the report are inputs.
 */
module Inference {
  import opened Wrappers
  import opened JsonData
  import opened PyDict
  import opened Text
  import PixelGeo

  // ---------------------------------------------------------------------------
  // File names
  // ---------------------------------------------------------------------------

  /** Which image of a tile pair. */
  datatype Phase = Pre | Post

  /** The name a tile's image is looked up by: the base name followed by `_pre_disaster` or `_post_disaster`. */
  function Marker(base: string, phase: Phase): string {
    match phase
    case Pre => base + "_pre_disaster"
    case Post => base + "_post_disaster"
  }

  /** The uploaded file name of a tile's image: the marker followed by `.png`. */
  function FileName(base: string, phase: Phase): string {
    Marker(base, phase) + ".png"
  }

  /** A pre-disaster file name is never a post-disaster one, whatever the two base names. */
  lemma PreAndPostNamesDiffer(a: string, b: string)
    ensures FileName(a, Pre) != FileName(b, Post)
  {
    var s, t := FileName(a, Pre), FileName(b, Post);
    assert s[|a|] == '_' && s[|a| + 1] == 'p' && s[|a| + 2] == 'r' && |s| == |a| + 17;
    assert t[|b| + 1] == 'p' && t[|b| + 2] == 'o' && |t| == |b| + 18;
    if |s| == |t| {
      assert t[|a|] == 'p';
    }
  }

  /** Different base names give different file names. */
  lemma FileNameInjective(a: string, b: string, phase: Phase)
    requires FileName(a, phase) == FileName(b, phase)
    ensures a == b
  {
    var s := FileName(a, phase);
    assert |a| == |b|;
    assert a == s[..|a|] && b == s[..|b|];
  }

  /** Every file name holds its own marker. */
  lemma FileNameHoldsMarker(base: string, phase: Phase)
    ensures Contains(FileName(base, phase), Marker(base, phase))
  {
    ContainsPrefix(Marker(base, phase), ".png");
  }

  // ---------------------------------------------------------------------------
  // Pairing and uploading (lines 45-60)
  // ---------------------------------------------------------------------------

  /** What uploading one file gives back. */
  datatype UploadOutcome = Uploaded(secureUrl: string) | UploadFailed(reason: string)

  /** The two error responses of the pairing loop. */
  datatype PairError =
    | MissingFile(name: string)                // "Missing file: ..." with status 400 (line 52)
    | UploadError(name: string, reason: string) // "Failed to upload ...: ..." with status 500 (line 55)

  /** The request payload (one dict per base name) and the flat name-to-URL mapping. */
  datatype Uploads = Uploads(payload: seq<Dict<string>>, mapping: Dict<string>)

  /** One pass of the inner loop (lines 51-55): the file must be present and its upload must succeed. */
  function UploadName(name: string, present: set<string>, upload: string -> UploadOutcome): Result<string, PairError> {
    if name !in present then Failure(MissingFile(name))
    else match upload(name)
      case Uploaded(url) => Success(url)
      case UploadFailed(reason) => Failure(UploadError(name, reason))
  }

  /** Both images of one base name, the pre-disaster one first (line 50). */
  function UploadBase(base: string, present: set<string>, upload: string -> UploadOutcome): Result<(string, string), PairError> {
    match UploadName(FileName(base, Pre), present, upload)
    case Failure(e) => Failure(e)
    case Success(preUrl) =>
      match UploadName(FileName(base, Post), present, upload)
      case Failure(e) => Failure(e)
      case Success(postUrl) => Success((preUrl, postUrl))
  }

  /** The names the pairing loop visits, in order: pre and post of each base name. */
  function AllNames(bases: seq<string>): (names: seq<string>)
    ensures |names| == 2 * |bases|
    decreases |bases|
  {
    if bases == [] then []
    else AllNames(bases[..|bases| - 1]) + [FileName(bases[|bases| - 1], Pre), FileName(bases[|bases| - 1], Post)]
  }

  /** A sequence with every repetition of an earlier element dropped. */
  function Dedup(s: seq<string>): seq<string>
    decreases |s|
  {
    if s == [] then []
    else if s[|s| - 1] in s[..|s| - 1] then Dedup(s[..|s| - 1])
    else Dedup(s[..|s| - 1]) + [s[|s| - 1]]
  }

  /** The state after one more base name: its pair dict appended and its names set in the mapping. */
  function AddPair(done: Uploads, base: string, urls: (string, string)): Uploads {
    var pre, post := FileName(base, Pre), FileName(base, Post);
    Uploads(done.payload + [Set(Set(Dict([]), pre, urls.0), post, urls.1)],
            Set(Set(done.mapping, pre, urls.0), post, urls.1))
  }

  /** The outcome of the pairing loop over `bases`, defined base name by base name. */
  function Pairing(bases: seq<string>, present: set<string>, upload: string -> UploadOutcome): Result<Uploads, PairError>
    decreases |bases|
  {
    if bases == [] then Success(Uploads([], Dict([])))
    else match Pairing(bases[..|bases| - 1], present, upload)
      case Failure(e) => Failure(e)
      case Success(done) =>
        match UploadBase(bases[|bases| - 1], present, upload)
        case Failure(e) => Failure(e)
        case Success(urls) => Success(AddPair(done, bases[|bases| - 1], urls))
  }

  /** One step of `Pairing`, spelled out. */
  lemma PairingStep(bases: seq<string>, present: set<string>, upload: string -> UploadOutcome)
    requires bases != []
    ensures var init, base := bases[..|bases| - 1], bases[|bases| - 1];
      Pairing(bases, present, upload) ==
        if Pairing(init, present, upload).Failure? then Failure(Pairing(init, present, upload).error)
        else if UploadBase(base, present, upload).Failure? then Failure(UploadBase(base, present, upload).error)
        else Success(AddPair(Pairing(init, present, upload).value, base, UploadBase(base, present, upload).value))
  {
  }

  /** Once the loop has failed, later base names change nothing. */
  lemma {:induction false} FailureIsFinal(bases: seq<string>, present: set<string>, upload: string -> UploadOutcome, k: nat)
    requires k <= |bases| && Pairing(bases[..k], present, upload).Failure?
    ensures Pairing(bases, present, upload) == Pairing(bases[..k], present, upload)
    decreases |bases| - k
  {
    if k == |bases| {
      assert bases[..k] == bases;
    } else {
      var longer := bases[..k + 1];
      assert longer[..|longer| - 1] == bases[..k];
      FailureExtends(longer, present, upload);
      FailureIsFinal(bases, present, upload, k + 1);
    }
  }

  lemma FailureExtends(bases: seq<string>, present: set<string>, upload: string -> UploadOutcome)
    requires bases != [] && Pairing(bases[..|bases| - 1], present, upload).Failure?
    ensures Pairing(bases, present, upload) == Pairing(bases[..|bases| - 1], present, upload)
  {
  }

  /**
   * The pairing loop of lines 45-60: for each base name, check and upload
   * the pre- and then the post-disaster file, returning at the first
   * missing file or failed upload.
   */
  method UploadPairs(baseNames: seq<string>, present: set<string>, upload: string -> UploadOutcome)
    returns (r: Result<Uploads, PairError>)
    ensures r == Pairing(baseNames, present, upload)
  {
    var payload: seq<Dict<string>> := [];
    var mapping: Dict<string> := Dict([]);
    for i := 0 to |baseNames|
      invariant Pairing(baseNames[..i], present, upload) == Success(Uploads(payload, mapping))
    {
      var base := baseNames[i];
      assert baseNames[..i + 1][..i] == baseNames[..i];
      var preName, postName := FileName(base, Pre), FileName(base, Post);
      var uploadPair: Dict<string> := Dict([]);
      // the loop over [pre_name, post_name] of lines 50-58, one name after the other
      if preName !in present {
        FailureIsFinal(baseNames, present, upload, i + 1);
        return Failure(MissingFile(preName));
      }
      var preResult := upload(preName);
      if preResult.UploadFailed? {
        FailureIsFinal(baseNames, present, upload, i + 1);
        return Failure(UploadError(preName, preResult.reason));
      }
      uploadPair := Set(uploadPair, preName, preResult.secureUrl);
      mapping := Set(mapping, preName, preResult.secureUrl);
      if postName !in present {
        FailureIsFinal(baseNames, present, upload, i + 1);
        return Failure(MissingFile(postName));
      }
      var postResult := upload(postName);
      if postResult.UploadFailed? {
        FailureIsFinal(baseNames, present, upload, i + 1);
        return Failure(UploadError(postName, postResult.reason));
      }
      uploadPair := Set(uploadPair, postName, postResult.secureUrl);
      mapping := Set(mapping, postName, postResult.secureUrl);
      payload := payload + [uploadPair];
    }
    assert baseNames[..|baseNames|] == baseNames;
    return Success(Uploads(payload, mapping));
  }

  /** Each name the loop visits is one of the pair names. */
  lemma {:induction false} AllNamesHas(bases: seq<string>, i: nat, phase: Phase)
    requires i < |bases|
    ensures FileName(bases[i], phase) in AllNames(bases)
    decreases |bases|
  {
    if i < |bases| - 1 {
      AllNamesHas(bases[..|bases| - 1], i, phase);
    }
  }

  /** Dropping repetitions keeps every element. */
  lemma {:induction false} DedupMembers(s: seq<string>)
    ensures forall x :: x in Dedup(s) <==> x in s
    decreases |s|
  {
    if s != [] {
      DedupMembers(s[..|s| - 1]);
      assert s == s[..|s| - 1] + [s[|s| - 1]];
    }
  }

  /**
   * The pairing loop succeeds exactly when every base name has both files
   * present and both uploads succeed.
   */
  lemma {:induction false} PairingSucceedsIff(bases: seq<string>, present: set<string>, upload: string -> UploadOutcome)
    ensures Pairing(bases, present, upload).Success? <==>
      forall i :: 0 <= i < |bases| ==> UploadBase(bases[i], present, upload).Success?
    decreases |bases|
  {
    if bases != [] {
      var init, base := bases[..|bases| - 1], bases[|bases| - 1];
      PairingSucceedsIff(init, present, upload);
      PairingStep(bases, present, upload);
      if Pairing(bases, present, upload).Success? {
        EveryBaseSucceeds(bases, init, present, upload);
      } else if Pairing(init, present, upload).Failure? {
        var i :| 0 <= i < |init| && UploadBase(init[i], present, upload).Failure?;
        assert init[i] == bases[i];
      }
    }
  }

  lemma EveryBaseSucceeds(bases: seq<string>, init: seq<string>, present: set<string>, upload: string -> UploadOutcome)
    requires bases != [] && init == bases[..|bases| - 1]
    requires UploadBase(bases[|bases| - 1], present, upload).Success?
    requires forall i :: 0 <= i < |init| ==> UploadBase(init[i], present, upload).Success?
    ensures forall i :: 0 <= i < |bases| ==> UploadBase(bases[i], present, upload).Success?
  {
    forall i | 0 <= i < |bases| ensures UploadBase(bases[i], present, upload).Success? {
      if i < |init| {
        assert init[i] == bases[i];
      }
    }
  }

  /**
   * When the pairing loop fails, its error is that of the first base name
   * whose files are not both present and uploaded; no later one matters.
   */
  lemma {:induction false} PairingFailsAtFirst(bases: seq<string>, present: set<string>, upload: string -> UploadOutcome)
    requires Pairing(bases, present, upload).Failure?
    ensures exists k ::
        && 0 <= k < |bases|
        && (forall j :: 0 <= j < k ==> UploadBase(bases[j], present, upload).Success?)
        && UploadBase(bases[k], present, upload) == Failure(Pairing(bases, present, upload).error)
    decreases |bases|
  {
    var init, base := bases[..|bases| - 1], bases[|bases| - 1];
    PairingStep(bases, present, upload);
    if Pairing(init, present, upload).Failure? {
      PairingFailsAtFirst(init, present, upload);
      var k :| 0 <= k < |init|
        && (forall j :: 0 <= j < k ==> UploadBase(init[j], present, upload).Success?)
        && UploadBase(init[k], present, upload) == Failure(Pairing(init, present, upload).error);
      assert forall j :: 0 <= j <= k ==> init[j] == bases[j];
    } else {
      PairingSucceedsIff(init, present, upload);
      var k := |bases| - 1;
      assert forall j :: 0 <= j < k ==> init[j] == bases[j];
    }
  }

  /** `d` is the pair dict of `base`: its pre name and then its post name, each beside its upload's URL. */
  ghost predicate PairDictOf(d: Dict<string>, base: string, upload: string -> UploadOutcome) {
    && |d.entries| == 2
    && d.entries[0].0 == FileName(base, Pre)
    && d.entries[1].0 == FileName(base, Post)
    && upload(d.entries[0].0) == Uploaded(d.entries[0].1)
    && upload(d.entries[1].0) == Uploaded(d.entries[1].1)
  }

  /**
   * On success the payload holds one dict per base name, in order, with
   * exactly the pre-disaster name and then the post-disaster name, each
   * beside the URL its upload returned.
   */
  lemma {:induction false} PairingPayload(bases: seq<string>, present: set<string>, upload: string -> UploadOutcome)
    requires Pairing(bases, present, upload).Success?
    ensures var payload := Pairing(bases, present, upload).value.payload;
      && |payload| == |bases|
      && forall i :: 0 <= i < |bases| ==> PairDictOf(payload[i], bases[i], upload)
  {
    PayloadLength(bases, present, upload);
    var payload := Pairing(bases, present, upload).value.payload;
    forall i | 0 <= i < |bases| ensures PairDictOf(payload[i], bases[i], upload) {
      PayloadAt(bases, present, upload, i);
    }
  }

  lemma {:induction false} PayloadLength(bases: seq<string>, present: set<string>, upload: string -> UploadOutcome)
    requires Pairing(bases, present, upload).Success?
    ensures |Pairing(bases, present, upload).value.payload| == |bases|
    decreases |bases|
  {
    if bases != [] {
      PayloadLength(bases[..|bases| - 1], present, upload);
    }
  }

  /** The payload dict at one index, by induction on the base names after it. */
  lemma {:induction false} PayloadAt(bases: seq<string>, present: set<string>, upload: string -> UploadOutcome, i: nat)
    requires Pairing(bases, present, upload).Success? && i < |bases|
    ensures var payload := Pairing(bases, present, upload).value.payload;
      i < |payload| && PairDictOf(payload[i], bases[i], upload)
    decreases |bases|
  {
    if i == |bases| - 1 {
      PayloadLast(bases, present, upload);
    } else {
      var init := bases[..|bases| - 1];
      PayloadKeepsEarlier(bases, present, upload, i);
      PayloadAt(init, present, upload, i);
      assert bases[i] == init[i];
    }
  }

  /** The last payload dict is the pair of the last base name. */
  lemma PayloadLast(bases: seq<string>, present: set<string>, upload: string -> UploadOutcome)
    requires Pairing(bases, present, upload).Success? && bases != []
    ensures var payload := Pairing(bases, present, upload).value.payload;
      |bases| - 1 < |payload| && PairDictOf(payload[|bases| - 1], bases[|bases| - 1], upload)
  {
    var init, base := bases[..|bases| - 1], bases[|bases| - 1];
    var urls := UploadBase(base, present, upload).value;
    PayloadLength(init, present, upload);
    PairDictOfUpload(base, present, upload);
    assert Pairing(bases, present, upload).value.payload[|bases| - 1]
      == Set(Set(Dict([]), FileName(base, Pre), urls.0), FileName(base, Post), urls.1);
  }

  /** A later base name leaves the earlier payload dicts as they were. */
  lemma PayloadKeepsEarlier(bases: seq<string>, present: set<string>, upload: string -> UploadOutcome, i: nat)
    requires Pairing(bases, present, upload).Success? && i < |bases| - 1
    ensures var init := Pairing(bases[..|bases| - 1], present, upload);
      && init.Success?
      && i < |init.value.payload| < |Pairing(bases, present, upload).value.payload|
      && Pairing(bases, present, upload).value.payload[i] == init.value.payload[i]
  {
    PayloadLength(bases[..|bases| - 1], present, upload);
  }

  lemma PairDictOfUpload(base: string, present: set<string>, upload: string -> UploadOutcome)
    requires UploadBase(base, present, upload).Success?
    ensures var urls := UploadBase(base, present, upload).value;
      PairDictOf(Set(Set(Dict([]), FileName(base, Pre), urls.0), FileName(base, Post), urls.1), base, upload)
  {
    var urls := UploadBase(base, present, upload).value;
    var pre, post := FileName(base, Pre), FileName(base, Post);
    PreAndPostNamesDiffer(base, base);
    assert Set(Dict([]), pre, urls.0) == Dict([(pre, urls.0)]);
    assert [(pre, urls.0)][1..] == [];
    assert Find([(pre, urls.0)], post) == None;
    var pair := Set(Set(Dict([]), pre, urls.0), post, urls.1);
    assert pair.entries == [(pre, urls.0), (post, urls.1)];
  }

  /** The mapping `m` records the names `names`, once each in first-visit order, beside their uploads' URLs. */
  ghost predicate MappingOf(m: Dict<string>, names: seq<string>, upload: string -> UploadOutcome) {
    && Valid(m)
    && Keys(m) == Dedup(names)
    && forall e :: e in m.entries ==> upload(e.0) == Uploaded(e.1)
  }

  /**
   * On success the flat mapping holds each visited name once, in the order
   * the loop first set it, beside the URL its upload returned.
   */
  lemma {:induction false} PairingMapping(bases: seq<string>, present: set<string>, upload: string -> UploadOutcome)
    requires Pairing(bases, present, upload).Success?
    ensures var mapping := Pairing(bases, present, upload).value.mapping;
      && Valid(mapping)
      && Keys(mapping) == Dedup(AllNames(bases))
      && forall e :: e in mapping.entries ==> upload(e.0) == Uploaded(e.1)
    decreases |bases|
  {
    if bases != [] {
      var init, base := bases[..|bases| - 1], bases[|bases| - 1];
      PairingMapping(init, present, upload);
      var m := Pairing(init, present, upload).value.mapping;
      var urls := UploadBase(base, present, upload).value;
      var pre, post := FileName(base, Pre), FileName(base, Post);
      assert Pairing(bases, present, upload).value.mapping == Set(Set(m, pre, urls.0), post, urls.1);
      assert AllNames(bases) == AllNames(init) + [pre] + [post];
      MappingStep(m, AllNames(init), pre, urls.0, upload);
      MappingStep(Set(m, pre, urls.0), AllNames(init) + [pre], post, urls.1, upload);
    }
  }

  /** Setting one more uploaded name keeps the mapping a record of the names visited so far. */
  lemma MappingStep(m: Dict<string>, names: seq<string>, name: string, url: string, upload: string -> UploadOutcome)
    requires MappingOf(m, names, upload) && upload(name) == Uploaded(url)
    ensures MappingOf(Set(m, name, url), names + [name], upload)
  {
    SetEntries(m, name, url);
    SetLaws(m, name, url);
    DedupMembers(names);
    assert (names + [name])[..|names|] == names;
  }

  /** Every pre- and post-disaster name of a paired batch is a key of the mapping. */
  lemma PairedNamesAreKeys(bases: seq<string>, present: set<string>, upload: string -> UploadOutcome, i: nat, phase: Phase)
    requires Pairing(bases, present, upload).Success? && i < |bases|
    ensures FileName(bases[i], phase) in Keys(Pairing(bases, present, upload).value.mapping)
  {
    PairingMapping(bases, present, upload);
    AllNamesHas(bases, i, phase);
    DedupMembers(AllNames(bases));
  }

  // ---------------------------------------------------------------------------
  // Detail rows (lines 82-108)
  // ---------------------------------------------------------------------------

  /**
   * How a row finds its image among the uploaded names: the code as written
   * takes the first name containing the marker; the corrected lookup takes
   * the name itself.
   */
  datatype ImageLookup = SubstringMatch | ExactName

  /** The parts of the classifier's JSON response that the rows read. */
  datatype ClassifierResponse = ClassifierResponse(
    maskImageUrls: seq<map<string, Json>>,
    damageSeverities: seq<map<string, Json>>)

  /** Everything the row loop reads besides the base names. */
  datatype RowInputs = RowInputs(
    mapping: Dict<string>,              // the flat name-to-URL mapping of the pairing loop
    response: ClassifierResponse,
    metadata: map<string, Json>,        // the uploaded geo-metadata JSON
    headerId: Json,                     // the id of the inserted header row, or None
    maskName: string -> string)         // the mask file name derived from an image name (lines 99, 101)

  /** The exceptions the row loop can raise. */
  datatype RowError =
    | NoImageFor(marker: string)   // the comprehension is empty: IndexError (lines 84-85)
    | NoMaskEntry(index: nat)      // mask_image_urls has no entry at this index: IndexError (line 86)
    | NoDamageEntry(index: nat)    // damage_severities has no entry at this index: IndexError (line 88)
    | EmptyGeoEntry(name: string)  // the metadata holds an empty list for the image: IndexError (line 91)
    | NoUrlFor(name: string)       // the image has no uploaded URL: KeyError (lines 96, 98)
    | NoMaskFor(name: string)      // the single-tile page's mask lookup: KeyError (lines 127-128)

  /** One `execution_details` row. */
  datatype DetailRow = DetailRow(
    headerId: Json,
    preImageName: string, preImageUrl: string,
    postImageName: string, postImageUrl: string,
    localisationMaskName: string, localisationMaskUrl: Json,
    damageMaskName: string, damageMaskUrl: Json,
    numNoDamage: Json, numMinorDamage: Json, numMajorDamage: Json, numDestroyed: Json,
    geoParams: Json)

  /** The name a row uses for one image of its tile, or the IndexError of an empty match. */
  function ImageName(mapping: Dict<string>, base: string, phase: Phase, lookup: ImageLookup): Result<string, RowError> {
    var found := match lookup
      case SubstringMatch => FirstContaining(Keys(mapping), Marker(base, phase))
      case ExactName => Find(mapping.entries, FileName(base, phase));
    match found
    case None => Failure(NoImageFor(Marker(base, phase)))
    case Some(i) => if i < |mapping.entries| then Success(mapping.entries[i].0) else Failure(NoImageFor(Marker(base, phase)))
  }

  /**
   * A found image name is a key of the mapping, so its URL lookup cannot
   * raise; an empty match raises the IndexError for the tile's marker.
   */
  lemma ImageNameSpec(mapping: Dict<string>, base: string, phase: Phase, lookup: ImageLookup)
    ensures var r := ImageName(mapping, base, phase, lookup);
      && (r.Success? ==> r.value in Keys(mapping) && UrlOf(mapping, r.value).Success?)
      && (r.Failure? ==> r.error == NoImageFor(Marker(base, phase)))
  {
    var r := ImageName(mapping, base, phase, lookup);
    if r.Success? {
      var i :| 0 <= i < |mapping.entries| && mapping.entries[i].0 == r.value;
      assert Keys(mapping)[i] == r.value;
      FindFirst(mapping.entries, r.value);
    }
  }

  /** The uploaded URL of an image name, `mapping[name]`, or the KeyError of a name never uploaded. */
  function UrlOf(mapping: Dict<string>, name: string): Result<string, RowError> {
    match Get(mapping, name)
    case None => Failure(NoUrlFor(name))
    case Some(url) => Success(url)
  }

  /** `d.get(key, 0)`. */
  function CountOrZero(damage: map<string, Json>, key: string): Json {
    if key in damage then damage[key] else JNum(0.0)
  }

  /** `d.get(key)`. */
  function GetOrNone(d: map<string, Json>, key: string): Json {
    if key in d then d[key] else JNull
  }

  /** The first element of the image's metadata when that is a list, None when it is missing or not a list (line 91). */
  function GeoParams(metadata: map<string, Json>, key: string): Result<Json, RowError> {
    if key in metadata && metadata[key].JArray? then
      if metadata[key].items == [] then Failure(EmptyGeoEntry(key)) else Success(metadata[key].items[0])
    else Success(JNull)
  }

  /** The row the loop builds for `bases[idx]` (lines 84-108), or the exception it raises. */
  function DetailRowAt(bases: seq<string>, idx: nat, inputs: RowInputs, lookup: ImageLookup): Result<DetailRow, RowError>
    requires idx < |bases|
  {
    var base := bases[idx];
    var pre :- ImageName(inputs.mapping, base, Pre, lookup);
    var post :- ImageName(inputs.mapping, base, Post, lookup);
    if idx >= |inputs.response.maskImageUrls| then Failure(NoMaskEntry(idx))
    else if idx >= |inputs.response.damageSeverities| then Failure(NoDamageEntry(idx))
    else
      var masks, damage := inputs.response.maskImageUrls[idx], inputs.response.damageSeverities[idx];
      var geo :- GeoParams(inputs.metadata, pre);
      var preUrl :- UrlOf(inputs.mapping, pre);
      var postUrl :- UrlOf(inputs.mapping, post);
      Success(DetailRow(
        inputs.headerId,
        pre, preUrl,
        post, postUrl,
        inputs.maskName(pre), GetOrNone(masks, pre),
        inputs.maskName(post), GetOrNone(masks, post),
        CountOrZero(damage, "num_no_damage"), CountOrZero(damage, "num_minor_damage"),
        CountOrZero(damage, "num_major_damage"), CountOrZero(damage, "num_destroyed"),
        geo))
  }

  /** The outcome of each step of a loop over the indices 0 to n - 1, in order. */
  function Outcomes<T, E>(n: nat, step: nat --> Result<T, E>): (outs: seq<Result<T, E>>)
    requires forall i :: 0 <= i < n ==> step.requires(i)
    ensures |outs| == n
  {
    seq(n, i requires 0 <= i < n => step(i))
  }

  /** One step of the row loop: the row of the base name at index `i`. */
  function RowStep(bases: seq<string>, inputs: RowInputs, lookup: ImageLookup): nat --> Result<DetailRow, RowError> {
    (i: nat) requires i < |bases| => DetailRowAt(bases, i, inputs, lookup)
  }

  /** The outcome of the row of every base name, in order. */
  function RowOutcomes(bases: seq<string>, inputs: RowInputs, lookup: ImageLookup): (outs: seq<Result<DetailRow, RowError>>)
    ensures |outs| == |bases|
  {
    Outcomes(|bases|, RowStep(bases, inputs, lookup))
  }

  /** The outcome at index `i` is the row of the base name at `i`. */
  lemma RowOutcomeAt(bases: seq<string>, inputs: RowInputs, lookup: ImageLookup, i: nat)
    requires i < |bases|
    ensures RowOutcomes(bases, inputs, lookup)[i] == DetailRowAt(bases, i, inputs, lookup)
  {
  }


  /**
   * A loop that builds one value per step and raises at the first failing
   * step: all the values, or the first failure.
   */
  function Collect<T, E>(outs: seq<Result<T, E>>): Result<seq<T>, E>
    decreases |outs|
  {
    if outs == [] then Success([])
    else match Collect(outs[..|outs| - 1])
      case Failure(e) => Failure(e)
      case Success(done) =>
        match outs[|outs| - 1]
        case Failure(e) => Failure(e)
        case Success(v) => Success(done + [v])
  }

  /** After the first failing step, the later steps change nothing. */
  lemma {:induction false} CollectFailureIsFinal<T, E>(outs: seq<Result<T, E>>, k: nat)
    requires k < |outs| && Collect(outs[..k]).Success? && outs[k].Failure?
    ensures Collect(outs) == Failure(outs[k].error)
    decreases |outs| - k
  {
    if k == |outs| - 1 {
      assert outs[..|outs| - 1] == outs[..k];
    } else {
      assert outs[..|outs| - 1][..k] == outs[..k];
      CollectFailureIsFinal(outs[..|outs| - 1], k);
      assert outs[..|outs| - 1][..k] == outs[..k];
    }
  }

  /** Collecting succeeds exactly when every step succeeds, and then yields every step's value in order. */
  lemma {:induction false} CollectSucceedsIff<T, E>(outs: seq<Result<T, E>>)
    ensures Collect(outs).Success? <==> forall i :: 0 <= i < |outs| ==> outs[i].Success?
    ensures Collect(outs).Success? ==>
      |Collect(outs).value| == |outs| && forall i :: 0 <= i < |outs| ==> outs[i] == Success(Collect(outs).value[i])
    decreases |outs|
  {
    if outs != [] {
      var init := outs[..|outs| - 1];
      CollectSucceedsIff(init);
      assert forall i :: 0 <= i < |init| ==> init[i] == outs[i];
    }
  }

  /** A failure is the error of the first failing step; every earlier step succeeds. */
  lemma {:induction false} CollectFailsAtFirst<T, E>(outs: seq<Result<T, E>>)
    requires Collect(outs).Failure?
    ensures exists k :: 0 <= k < |outs| && (forall j :: 0 <= j < k ==> outs[j].Success?) && outs[k] == Failure(Collect(outs).error)
    decreases |outs|
  {
    var init := outs[..|outs| - 1];
    if Collect(init).Failure? {
      CollectFailsAtFirst(init);
      var k :| 0 <= k < |init| && (forall j :: 0 <= j < k ==> init[j].Success?) && init[k] == Failure(Collect(init).error);
      assert forall j :: 0 <= j < k ==> outs[j] == init[j];
      assert outs[k] == init[k];
    } else {
      CollectSucceedsIff(init);
      assert forall j :: 0 <= j < |init| ==> outs[j] == init[j];
    }
  }

  /**
   * A loop that runs `step` for each index in order and appends its value,
   * stopping at the first step that raises: all the values, or that error.
   */
  method RunSteps<T, E>(n: nat, step: nat --> Result<T, E>) returns (r: Result<seq<T>, E>)
    requires forall i :: 0 <= i < n ==> step.requires(i)
    ensures r == Collect(Outcomes(n, step))
  {
    ghost var outcomes := Outcomes(n, step);
    var values: seq<T> := [];
    for i := 0 to n
      invariant Collect(outcomes[..i]) == Success(values)
    {
      var outcome := step(i);
      assert outcomes[i] == outcome;
      assert outcomes[..i + 1][..i] == outcomes[..i];
      if outcome.Failure? {
        CollectFailureIsFinal(outcomes, i);
        return Failure(outcome.error);
      }
      values := values + [outcome.value];
    }
    assert outcomes[..n] == outcomes;
    return Success(values);
  }

  /**
   * The row loop of lines 82-108: one row per base name, in order, or the
   * exception of the first base name whose row cannot be built.
   */
  method BuildDetailRows(bases: seq<string>, inputs: RowInputs, lookup: ImageLookup)
    returns (r: Result<seq<DetailRow>, RowError>)
    ensures r == Collect(RowOutcomes(bases, inputs, lookup))
  {
    r := RunSteps(|bases|, RowStep(bases, inputs, lookup));
  }


  // Properties of the rows

  /** After a successful pairing, both lookups find an image for every base name (no IndexError at lines 84-85). */
  lemma PairedImagesAreFound(bases: seq<string>, present: set<string>, upload: string -> UploadOutcome, i: nat, phase: Phase, lookup: ImageLookup)
    requires Pairing(bases, present, upload).Success? && i < |bases|
    ensures ImageName(Pairing(bases, present, upload).value.mapping, bases[i], phase, lookup).Success?
  {
    var m := Pairing(bases, present, upload).value.mapping;
    var name := FileName(bases[i], phase);
    PairedNamesAreKeys(bases, present, upload, i, phase);
    var j :| 0 <= j < |Keys(m)| && Keys(m)[j] == name;
    match lookup
    case SubstringMatch =>
      FileNameHoldsMarker(bases[i], phase);
      FirstContainingSpec(Keys(m), Marker(bases[i], phase));
    case ExactName =>
      FindFirst(m.entries, name);
  }

  /**
   * Every image a row names is an uploaded file: its URL is the one its
   * upload returned, and the name is the tile's own file name (exact lookup)
   * or merely contains the tile's marker (lookup as written).
   */
  lemma RowImagesAreUploads(bases: seq<string>, present: set<string>, upload: string -> UploadOutcome,
                            inputs: RowInputs, i: nat, lookup: ImageLookup)
    requires Pairing(bases, present, upload).Success? && inputs.mapping == Pairing(bases, present, upload).value.mapping
    requires i < |bases| && DetailRowAt(bases, i, inputs, lookup).Success?
    ensures var row := DetailRowAt(bases, i, inputs, lookup).value;
      && upload(row.preImageName) == Uploaded(row.preImageUrl)
      && upload(row.postImageName) == Uploaded(row.postImageUrl)
      && (lookup == ExactName ==> row.preImageName == FileName(bases[i], Pre) && row.postImageName == FileName(bases[i], Post))
      && (lookup == SubstringMatch ==> Contains(row.preImageName, Marker(bases[i], Pre)) && Contains(row.postImageName, Marker(bases[i], Post)))
  {
    RowFields(bases, i, inputs, lookup);
    PairingMapping(bases, present, upload);
    ImageIsUpload(inputs.mapping, upload, bases[i], Pre, lookup);
    ImageIsUpload(inputs.mapping, upload, bases[i], Post, lookup);
  }

  /** A built row's image names are the two lookups' results and its URLs are their entries in the mapping. */
  lemma RowFields(bases: seq<string>, i: nat, inputs: RowInputs, lookup: ImageLookup)
    requires i < |bases| && DetailRowAt(bases, i, inputs, lookup).Success?
    ensures var row := DetailRowAt(bases, i, inputs, lookup).value;
      && ImageName(inputs.mapping, bases[i], Pre, lookup) == Success(row.preImageName)
      && ImageName(inputs.mapping, bases[i], Post, lookup) == Success(row.postImageName)
      && UrlOf(inputs.mapping, row.preImageName) == Success(row.preImageUrl)
      && UrlOf(inputs.mapping, row.postImageName) == Success(row.postImageUrl)
  {
  }

  lemma ImageIsUpload(m: Dict<string>, upload: string -> UploadOutcome, base: string, phase: Phase, lookup: ImageLookup)
    requires forall e :: e in m.entries ==> upload(e.0) == Uploaded(e.1)
    requires ImageName(m, base, phase, lookup).Success?
    ensures var name := ImageName(m, base, phase, lookup).value;
      && UrlOf(m, name).Success?
      && upload(name) == Uploaded(UrlOf(m, name).value)
      && (lookup == ExactName ==> name == FileName(base, phase))
      && (lookup == SubstringMatch ==> Contains(name, Marker(base, phase)))
  {
    var name := ImageName(m, base, phase, lookup).value;
    FindFirst(m.entries, name);
    var j := Find(m.entries, name).value;
    assert m.entries[j] in m.entries;
    match lookup
    case SubstringMatch =>
      FirstContainingSpec(Keys(m), Marker(base, phase));
    case ExactName =>
      FindFirst(m.entries, FileName(base, phase));
  }

  /**
   * After a successful pairing, the row loop completes when the classifier
   * returned an entry per base name and no metadata entry is an empty list.
   */
  lemma RowsSucceedAfterPairing(bases: seq<string>, present: set<string>, upload: string -> UploadOutcome,
                                inputs: RowInputs, lookup: ImageLookup)
    requires Pairing(bases, present, upload).Success? && inputs.mapping == Pairing(bases, present, upload).value.mapping
    requires |inputs.response.maskImageUrls| >= |bases| && |inputs.response.damageSeverities| >= |bases|
    requires forall k :: k in inputs.metadata && inputs.metadata[k].JArray? ==> inputs.metadata[k].items != []
    ensures Collect(RowOutcomes(bases, inputs, lookup)).Success?
  {
    var outs := RowOutcomes(bases, inputs, lookup);
    forall i | 0 <= i < |bases| ensures outs[i].Success? {
      RowSucceedsAfterPairing(bases, present, upload, inputs, lookup, i);
      RowOutcomeAt(bases, inputs, lookup, i);
    }
    CollectSucceedsIff(outs);
  }

  lemma RowSucceedsAfterPairing(bases: seq<string>, present: set<string>, upload: string -> UploadOutcome,
                                inputs: RowInputs, lookup: ImageLookup, i: nat)
    requires Pairing(bases, present, upload).Success? && inputs.mapping == Pairing(bases, present, upload).value.mapping
    requires i < |inputs.response.maskImageUrls| && i < |inputs.response.damageSeverities| && i < |bases|
    requires forall k :: k in inputs.metadata && inputs.metadata[k].JArray? ==> inputs.metadata[k].items != []
    ensures DetailRowAt(bases, i, inputs, lookup).Success?
  {
    PairedImagesAreFound(bases, present, upload, i, Pre, lookup);
    PairedImagesAreFound(bases, present, upload, i, Post, lookup);
    ImageNameSpec(inputs.mapping, bases[i], Pre, lookup);
    ImageNameSpec(inputs.mapping, bases[i], Post, lookup);
  }

  /**
   * The exact lookup and the lookup as written agree whenever the tile's own
   * file name is the only uploaded name that contains the tile's marker.
   */
  lemma LookupsAgreeWhenUnambiguous(m: Dict<string>, base: string, phase: Phase)
    requires forall j :: 0 <= j < |m.entries| && Contains(m.entries[j].0, Marker(base, phase)) ==> m.entries[j].0 == FileName(base, phase)
    ensures ImageName(m, base, phase, SubstringMatch) == ImageName(m, base, phase, ExactName)
  {
    var marker, name := Marker(base, phase), FileName(base, phase);
    FirstContainingSpec(Keys(m), marker);
    FindFirst(m.entries, name);
    FileNameHoldsMarker(base, phase);
    if FirstContaining(Keys(m), marker).Some? {
      var i := FirstContaining(Keys(m), marker).value;
      assert m.entries[i].0 == name;
    }
  }

  /** A list of distinct names is its own deduplication. */
  lemma {:induction false} DedupDistinct(s: seq<string>)
    requires forall i, j :: 0 <= i < j < |s| ==> s[i] != s[j]
    ensures Dedup(s) == s
    decreases |s|
  {
    if s != [] {
      DedupDistinct(s[..|s| - 1]);
      assert s == s[..|s| - 1] + [s[|s| - 1]];
    }
  }

  /** A file name whose base name ends with `b` holds the marker of `b`. */
  lemma SuffixHoldsMarker(x: string, b: string, phase: Phase)
    ensures Contains(FileName(x + b, phase), Marker(b, phase))
  {
    var s, p := FileName(x + b, phase), Marker(b, phase);
    assert s == x + p + ".png";
    assert s[|x|..|x| + |p|] == p;
    ContainsComplete(s, p, |x|);
  }

  /** The names the pairing loop records for base names `x + b` and then `b`, in order. */
  lemma NeighbourNames(x: string, b: string)
    requires x != []
    ensures Dedup(AllNames([x + b, b])) == [FileName(x + b, Pre), FileName(x + b, Post), FileName(b, Pre), FileName(b, Post)]
  {
    var names := [FileName(x + b, Pre), FileName(x + b, Post), FileName(b, Pre), FileName(b, Post)];
    assert [x + b, b][..1] == [x + b] && [x + b][..0] == [];
    assert AllNames([x + b, b]) == names;
    PreAndPostNamesDiffer(x + b, x + b);
    PreAndPostNamesDiffer(x + b, b);
    PreAndPostNamesDiffer(b, x + b);
    PreAndPostNamesDiffer(b, b);
    if names[0] == names[2] {
      FileNameInjective(x + b, b, Pre);
    }
    if names[1] == names[3] {
      FileNameInjective(x + b, b, Post);
    }
    DedupDistinct(names);
  }

  /**
   * The lookup as written picks another tile's image: when base name `b`
   * comes after base name `x + b` (say "a" after "xa"), the pre-disaster
   * image of `b` is taken to be that of `x + b`, where the exact lookup
   * finds `b`'s own.
   */
  lemma SubstringLookupPicksNeighbour(x: string, b: string, present: set<string>, upload: string -> UploadOutcome)
    requires x != [] && Pairing([x + b, b], present, upload).Success?
    ensures var m := Pairing([x + b, b], present, upload).value.mapping;
      && ImageName(m, b, Pre, SubstringMatch) == Success(FileName(x + b, Pre))
      && ImageName(m, b, Pre, ExactName) == Success(FileName(b, Pre))
      && FileName(x + b, Pre) != FileName(b, Pre)
  {
    var m := Pairing([x + b, b], present, upload).value.mapping;
    PairingMapping([x + b, b], present, upload);
    NeighbourNames(x, b);
    NeighbourSubstringLookup(m, x, b);
    NeighbourExactLookup(m, x, b);
  }

  lemma NeighbourSubstringLookup(m: Dict<string>, x: string, b: string)
    requires Keys(m) == [FileName(x + b, Pre), FileName(x + b, Post), FileName(b, Pre), FileName(b, Post)]
    ensures ImageName(m, b, Pre, SubstringMatch) == Success(FileName(x + b, Pre))
  {
    SuffixHoldsMarker(x, b, Pre);
    assert Keys(m)[0] == FileName(x + b, Pre);
    assert FirstContaining(Keys(m), Marker(b, Pre)) == Some(0);
  }

  lemma NeighbourExactLookup(m: Dict<string>, x: string, b: string)
    requires x != []
    requires Keys(m) == [FileName(x + b, Pre), FileName(x + b, Post), FileName(b, Pre), FileName(b, Post)]
    ensures ImageName(m, b, Pre, ExactName) == Success(FileName(b, Pre))
    ensures FileName(x + b, Pre) != FileName(b, Pre)
  {
    var name := FileName(b, Pre);
    assert m.entries[0].0 == Keys(m)[0] && m.entries[1].0 == Keys(m)[1] && m.entries[2].0 == Keys(m)[2];
    if m.entries[0].0 == name {
      FileNameInjective(x + b, b, Pre);
    }
    PreAndPostNamesDiffer(b, x + b);
    FindFirst(m.entries, name);
  }


  /** A row stores the header's id and, for its index, the classifier's mask URLs under its two image names (None when absent). */
  lemma RowCarriesMasks(bases: seq<string>, idx: nat, inputs: RowInputs, lookup: ImageLookup)
    requires idx < |bases| && DetailRowAt(bases, idx, inputs, lookup).Success?
    ensures var row := DetailRowAt(bases, idx, inputs, lookup).value;
      && idx < |inputs.response.maskImageUrls|
      && var masks := inputs.response.maskImageUrls[idx];
      && row.headerId == inputs.headerId
      && (row.preImageName in masks ==> row.localisationMaskUrl == masks[row.preImageName])
      && (row.preImageName !in masks ==> row.localisationMaskUrl == JNull)
      && (row.postImageName in masks ==> row.damageMaskUrl == masks[row.postImageName])
      && (row.postImageName !in masks ==> row.damageMaskUrl == JNull)
  {
  }

  /** A row's four damage counts are the classifier's counts for its index, 0 for a class it did not report. */
  lemma RowCarriesDamageCounts(bases: seq<string>, idx: nat, inputs: RowInputs, lookup: ImageLookup)
    requires idx < |bases| && DetailRowAt(bases, idx, inputs, lookup).Success?
    ensures var row := DetailRowAt(bases, idx, inputs, lookup).value;
      && idx < |inputs.response.damageSeverities|
      && var damage := inputs.response.damageSeverities[idx];
      && forall key :: key in DamageKeys ==>
           (key in damage ==> DamageCount(row, key) == damage[key]) && (key !in damage ==> DamageCount(row, key) == JNum(0.0))
  {
    RowDamageFields(bases, idx, inputs, lookup);
  }

  /** The four counts of a built row, field by field. */
  lemma RowDamageFields(bases: seq<string>, idx: nat, inputs: RowInputs, lookup: ImageLookup)
    requires idx < |bases| && DetailRowAt(bases, idx, inputs, lookup).Success?
    ensures var row := DetailRowAt(bases, idx, inputs, lookup).value;
      && idx < |inputs.response.damageSeverities|
      && var damage := inputs.response.damageSeverities[idx];
      && row.numNoDamage == CountOrZero(damage, "num_no_damage")
      && row.numMinorDamage == CountOrZero(damage, "num_minor_damage")
      && row.numMajorDamage == CountOrZero(damage, "num_major_damage")
      && row.numDestroyed == CountOrZero(damage, "num_destroyed")
  {
  }

  /** The four damage classes a row counts. */
  const DamageKeys: set<string> := {"num_no_damage", "num_minor_damage", "num_major_damage", "num_destroyed"}

  /** The count a row stores for one damage class. */
  function DamageCount(row: DetailRow, key: string): Json {
    if key == "num_no_damage" then row.numNoDamage
    else if key == "num_minor_damage" then row.numMinorDamage
    else if key == "num_major_damage" then row.numMajorDamage
    else row.numDestroyed
  }

  /**
   * The geo parameters a row stores are exactly the parameters the pixel
   * transform unpacks from a one-entry metadata dict for the row's
   * pre-disaster image, when the metadata holds a list for it; otherwise
   * the row stores None.
   */
  lemma StoredGeoParamsMatchTransform(bases: seq<string>, idx: nat, inputs: RowInputs, lookup: ImageLookup)
    requires idx < |bases| && DetailRowAt(bases, idx, inputs, lookup).Success?
    ensures var row := DetailRowAt(bases, idx, inputs, lookup).value;
      var name := row.preImageName;
      if name in inputs.metadata && inputs.metadata[name].JArray? then
        PixelGeo.FirstParams(Dict([(name, inputs.metadata[name])])) == Success(row.geoParams)
      else row.geoParams == JNull
  {
  }

  // ---------------------------------------------------------------------------
  // The result page (lines 118-137)
  // ---------------------------------------------------------------------------

  /** What the view renders once the report exists. */
  datatype Page =
    | SingleTile(preImageUrl: string, postImageUrl: string, localisationMask: Json, damageSeverityMask: Json, reportUrl: string)
    | BatchSummary(reportUrl: string)

  /**
   * One base name gets the inference page of its tile (the images of the
   * last row built and the first mask entry); any other number the upload
   * summary. The mask lookups of the single-tile page are subscripts.
   */
  function ResultPage(bases: seq<string>, rows: seq<DetailRow>, masks: seq<map<string, Json>>, reportUrl: string): Result<Page, RowError>
    requires |rows| == |bases|
  {
    if |bases| != 1 then Success(BatchSummary(reportUrl))
    else
      var row := rows[0];
      if masks == [] then Failure(NoMaskEntry(0))
      else if row.preImageName !in masks[0] then Failure(NoMaskFor(row.preImageName))
      else if row.postImageName !in masks[0] then Failure(NoMaskFor(row.postImageName))
      else Success(SingleTile(row.preImageUrl, row.postImageUrl, masks[0][row.preImageName], masks[0][row.postImageName], reportUrl))
  }

  /**
   * The page kind follows the number of base names; the single-tile page
   * shows exactly what its one row stored, and it fails only when that row
   * stored None for one of its masks.
   */
  lemma SingleTileMatchesRow(bases: seq<string>, inputs: RowInputs, lookup: ImageLookup, reportUrl: string)
    requires forall i :: 0 <= i < |bases| ==> DetailRowAt(bases, i, inputs, lookup).Success?
    ensures var rows := seq(|bases|, i requires 0 <= i < |bases| => DetailRowAt(bases, i, inputs, lookup).value);
      var page := ResultPage(bases, rows, inputs.response.maskImageUrls, reportUrl);
      && (|bases| != 1 ==> page == Success(BatchSummary(reportUrl)))
      && (|bases| == 1 && page.Success? ==> page.value == SingleTile(rows[0].preImageUrl, rows[0].postImageUrl,
            rows[0].localisationMaskUrl, rows[0].damageMaskUrl, reportUrl))
      && (|bases| == 1 && page.Failure? ==> rows[0].localisationMaskUrl == JNull || rows[0].damageMaskUrl == JNull)
  {
    var rows := seq(|bases|, i requires 0 <= i < |bases| => DetailRowAt(bases, i, inputs, lookup).value);
    if |bases| == 1 {
      RowCarriesMasks(bases, 0, inputs, lookup);
    }
  }
}
