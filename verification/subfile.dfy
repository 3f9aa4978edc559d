/** One search hit: the SubFile record of src/subfile.h, built from the
    string members of a search result by the constructor in src/subfile.cc.
    Every field is a std::string named after the wire key it comes from. */
module SubFiles {
  import opened Wrappers

  datatype SubFile = SubFile(
    IDSubMovieFile: string,
    MovieHash: string,
    MovieByteSize: string,
    MovieTimeMS: string,
    IDSubtitleFile: string,
    SubFileName: string,
    SubActualCD: string,
    SubSize: string,
    SubHash: string,
    IDSubtitle: string,
    UserID: string,
    SubLanguageID: string,
    SubFormat: string,
    SubSumCD: string,
    SubAuthorComment: string,
    SubAddDate: string,
    SubBad: string,
    SubRating: string,
    SubDownloadsCnt: string,
    MovieReleaseName: string,
    IDMovie: string,
    IDMovieImdb: string,
    MovieName: string,
    MovieNameEng: string,
    MovieYear: string,
    MovieImdbRating: string,
    UserNickName: string,
    ISO639: string,
    LanguageName: string,
    SubDownloadLink: string,
    ZipDownloadLink: string
  )

  /** The keys the constructor looks up, in the order it looks them up. */
  const SubFileKeyList: seq<string> := [
    "IDSubMovieFile",
    "MovieHash",
    "MovieByteSize",
    "MovieTimeMS",
    "IDSubtitleFile",
    "SubFileName",
    "SubActualCD",
    "SubSize",
    "SubHash",
    "IDSubtitle",
    "UserID",
    "SubLanguageID",
    "SubFormat",
    "SubSumCD",
    "SubAuthorComment",
    "SubAddDate",
    "SubBad",
    "SubRating",
    "SubDownloadsCnt",
    "MovieReleaseName",
    "IDMovie",
    "IDMovieImdb",
    "MovieName",
    "MovieNameEng",
    "MovieYear",
    "MovieImdbRating",
    "UserNickName",
    "ISO639",
    "LanguageName",
    "SubDownloadLink",
    "ZipDownloadLink"
  ]

  const SubFileKeys: set<string> := set k | k in SubFileKeyList

  /** map::at: the value at `k`, or std::out_of_range when `k` is absent. */
  function At(data: map<string, string>, k: string): Result<string> {
    if k in data then Ok(data[k]) else Err(OutOfRange)
  }

  /** The keys of `keys` read one after the other with map::at: the first
      absent key raises std::out_of_range. */
  function LookupAll(data: map<string, string>, keys: seq<string>): (r: Result<seq<string>>)
    ensures r.Ok? <==> forall i | 0 <= i < |keys| :: keys[i] in data
    ensures r.Ok? ==> |r.value| == |keys| && forall i | 0 <= i < |keys| :: r.value[i] == data[keys[i]]
    ensures r.Err? ==> r.error == OutOfRange
  {
    if |keys| == 0 then Ok([])
    else
      var first :- At(data, keys[0]);
      var rest :- LookupAll(data, keys[1..]);
      Ok([first] + rest)
  }

  /** The record whose fields, in declaration order, are `v`. */
  function FromFields(v: seq<string>): SubFile
    requires |v| == |SubFileKeyList|
  {
    SubFile(v[0], v[1], v[2], v[3], v[4], v[5], v[6], v[7], v[8], v[9], v[10], v[11], v[12], v[13], v[14], v[15], v[16], v[17], v[18], v[19], v[20], v[21], v[22], v[23], v[24], v[25], v[26], v[27], v[28], v[29], v[30])
  }

  /** The fields of a record in declaration order. */
  function Fields(sf: SubFile): seq<string> {
    [sf.IDSubMovieFile, sf.MovieHash, sf.MovieByteSize, sf.MovieTimeMS, sf.IDSubtitleFile, sf.SubFileName, sf.SubActualCD, sf.SubSize, sf.SubHash, sf.IDSubtitle, sf.UserID, sf.SubLanguageID, sf.SubFormat, sf.SubSumCD, sf.SubAuthorComment, sf.SubAddDate, sf.SubBad, sf.SubRating, sf.SubDownloadsCnt, sf.MovieReleaseName, sf.IDMovie, sf.IDMovieImdb, sf.MovieName, sf.MovieNameEng, sf.MovieYear, sf.MovieImdbRating, sf.UserNickName, sf.ISO639, sf.LanguageName, sf.SubDownloadLink, sf.ZipDownloadLink]
  }

  /** SubFile::SubFile(const map<string, string>&): every field is read with
      map::at under its own name, in declaration order. */
  function FromMap(data: map<string, string>): Result<SubFile> {
    var v :- LookupAll(data, SubFileKeyList);
    Ok(FromFields(v))
  }

  lemma KeysDistinct()
    ensures forall i, j | 0 <= i < j < |SubFileKeyList| :: SubFileKeyList[i] != SubFileKeyList[j]
  {
  }

  /** The record written back as the string map it came from. */
  function ToMap(sf: SubFile): map<string, string> {
    KeysDistinct();
    map i | 0 <= i < |SubFileKeyList| :: SubFileKeyList[i] := Fields(sf)[i]
  }

  lemma FieldsFromFields(v: seq<string>)
    requires |v| == |SubFileKeyList|
    ensures Fields(FromFields(v)) == v
  {
  }

  lemma FromFieldsFields(sf: SubFile)
    ensures FromFields(Fields(sf)) == sf
  {
  }

  /** Two maps that agree on the looked-up keys. */
  predicate AgreeOnKeys(a: map<string, string>, b: map<string, string>) {
    forall k | k in SubFileKeys :: (k in a <==> k in b) && (k in a ==> a[k] == b[k])
  }

  /** Construction succeeds exactly when all 31 keys are present; a missing
      key is std::out_of_range. */
  lemma FromMapSucceedsIff(data: map<string, string>)
    ensures FromMap(data).Ok? <==> SubFileKeys <= data.Keys
    ensures FromMap(data).Err? ==> FromMap(data).error == OutOfRange
  {
  }

  /** Every field of a constructed record is the map value at the key of the
      same name. */
  lemma FromMapFields(data: map<string, string>)
    requires SubFileKeys <= data.Keys
    ensures FromMap(data).Ok?
    ensures forall i | 0 <= i < |SubFileKeyList| :: Fields(FromMap(data).value)[i] == data[SubFileKeyList[i]]
  {
    FieldsFromFields(LookupAll(data, SubFileKeyList).value);
  }

  /** Keys outside the 31 are ignored: maps that agree on the 31 keys give the
      same outcome. */
  lemma FromMapIgnoresExtras(a: map<string, string>, b: map<string, string>)
    requires AgreeOnKeys(a, b)
    ensures FromMap(a) == FromMap(b)
  {
    var ra := LookupAll(a, SubFileKeyList);
    var rb := LookupAll(b, SubFileKeyList);
    assert ra.Ok? <==> rb.Ok?;
    if ra.Ok? {
      assert ra.value == rb.value;
    }
  }

  /** The map of a record holds the 31 keys, each with its own field. */
  lemma ToMapAt(sf: SubFile)
    ensures ToMap(sf).Keys == SubFileKeys
    ensures forall i | 0 <= i < |SubFileKeyList| :: ToMap(sf)[SubFileKeyList[i]] == Fields(sf)[i]
  {
    KeysDistinct();
  }

  /** A record written as a map and read back is the same record. */
  lemma FromMapToMap(sf: SubFile)
    ensures FromMap(ToMap(sf)) == Ok(sf)
  {
    ToMapAt(sf);
    var r := LookupAll(ToMap(sf), SubFileKeyList);
    assert r.Ok?;
    assert r.value == Fields(sf);
    FromFieldsFields(sf);
  }
}
