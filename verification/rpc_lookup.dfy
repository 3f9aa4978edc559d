/** The reply half of the lookup methods of src/rpc_impl.cc: CheckMovieHash,
    CheckSubHash, GetSubLanguages, DetectLanguage, GetAvailableTranslations,
    GetTranslation, AutoUpdate, SearchMoviesOnImdb and InsertMovie. */
module RpcLookup {
  import opened Wrappers
  import opened Text
  import opened XmlRpc
  import opened Statuses
  import opened Types
  import opened RpcDecode

  // ---------------------------------------------------------------------
  // CheckMovieHash

  /** One member of the data struct: v(info) and four s() reads. */
  function MovieInfoRecord(v: Value): Result<MovieInfo> {
    var m :- AsStruct(v);
    var hash :- GetString(m, "MovieHash");
    var imdbId :- GetString(m, "MovieImdbID");
    var name :- GetString(m, "MovieName");
    var year :- GetString(m, "MovieYear");
    Ok(MovieInfo(hash, imdbId, name, year))
  }

  function MovieInfoOf(v: Value): Option<MovieInfo> {
    AsOption(MovieInfoRecord(v))
  }

  /** XmlRpcImpl::CheckMovieHash: the data struct is read whatever the
      status, and one member that does not convert raises for all. */
  function DecodeCheckMovieHash(result: Value): Result<CheckMovieHashResponse> {
    var values :- AsStruct(result);
    var status :- ReadStatus(values);
    var data :- Member(values, "data");
    var infos :- AsStruct(data);
    var movies :- EachMember(infos, MovieInfoOf);
    Ok(CheckMovieHashResponse(status, movies))
  }

  /** A movie record as the server sends it. */
  function MovieInfoValue(info: MovieInfo): Value {
    VStruct(map["MovieHash" := VString(info.movieHash), "MovieImdbID" := VString(info.movieImdbId),
                "MovieName" := VString(info.movieName), "MovieYear" := VString(info.movieYear)])
  }

  lemma MovieInfoRecordOf(info: MovieInfo)
    ensures MovieInfoRecord(MovieInfoValue(info)) == Ok(info)
  {
    var m := MovieInfoValue(info).members;
    assert m["MovieHash"] == VString(info.movieHash);
    assert m["MovieImdbID"] == VString(info.movieImdbId);
    assert m["MovieName"] == VString(info.movieName);
    assert m["MovieYear"] == VString(info.movieYear);
  }

  function MovieInfosData(infos: map<string, MovieInfo>): Struct {
    map k | k in infos :: MovieInfoValue(infos[k])
  }

  lemma MovieInfoEntries(infos: map<string, MovieInfo>)
    ensures EachMember(MovieInfosData(infos), MovieInfoOf) == Ok(infos)
  {
    var data := MovieInfosData(infos);
    forall k | k in data
      ensures MovieInfoOf(data[k]) == Some(infos[k])
    {
      MovieInfoRecordOf(infos[k]);
    }
    assert EachMember(data, MovieInfoOf).value == infos;
  }

  /** The movies of a reply come back keyed by their hashes. */
  lemma CheckMovieHashRoundTrip(message: string, seconds: real, infos: map<string, MovieInfo>)
    requires SetStatus(message, seconds).Ok?
    ensures DecodeCheckMovieHash(Reply(message, seconds, map["data" := VStruct(MovieInfosData(infos))])) ==
            Ok(CheckMovieHashResponse(SetStatus(message, seconds).value, infos))
  {
    var body := map["data" := VStruct(MovieInfosData(infos))];
    ReadStatusOfReply(message, seconds, body);
    assert Reply(message, seconds, body).members["data"] == VStruct(MovieInfosData(infos));
    MovieInfoEntries(infos);
  }

  /** The data struct is read even under an error status: a reply without
      one raises. */
  lemma CheckMovieHashNeedsData(values: Struct)
    requires ReadStatus(values).Ok? && "data" !in values
    ensures DecodeCheckMovieHash(VStruct(values)) == Err(TypeMismatch)
  {
  }

  /** One movie record that does not convert fails the whole reply. */
  lemma CheckMovieHashAllOrNothing(message: string, seconds: real, data: Struct, k: string)
    requires SetStatus(message, seconds).Ok?
    requires k in data && MovieInfoRecord(data[k]).Err?
    ensures DecodeCheckMovieHash(Reply(message, seconds, map["data" := VStruct(data)])) == Err(TypeMismatch)
  {
    ReadStatusOfReply(message, seconds, map["data" := VStruct(data)]);
    assert Reply(message, seconds, map["data" := VStruct(data)]).members["data"] == VStruct(data);
    assert MovieInfoOf(data[k]) == None;
  }

  // ---------------------------------------------------------------------
  // CheckSubHash

  /** One member of the data struct: the server answers int(0) for an
      unknown hash and the subtitle id as a string otherwise; an int is
      printed with std::to_string. */
  function SubIdOf(v: Value): (r: Option<string>)
    ensures v.VString? ==> r == Some(v.str)
    ensures v.VInt? ==> r.Some? && Stoi(r.value) == Ok(v.integer)
    ensures !v.VString? && !v.VInt? ==> r == None
  {
    if v.VInt? then
      StoiReadsDecimal(v.integer, "");
      assert ToDecimal(v.integer) + "" == ToDecimal(v.integer);
      Some(ToDecimal(v.integer))
    else StringOf(v)
  }

  /** XmlRpcImpl::CheckSubHash */
  function DecodeCheckSubHash(result: Value): Result<CheckSubHashResponse> {
    var values :- AsStruct(result);
    var status :- ReadStatus(values);
    var data :- Member(values, "data");
    var hashes :- AsStruct(data);
    var ids :- EachMember(hashes, SubIdOf);
    Ok(CheckSubHashResponse(status, ids))
  }

  /** The "not found" marker int(0) reads as "0". */
  lemma SubIdOfZero()
    ensures SubIdOf(VInt(0)) == Some("0")
  {
    assert NatDigits(0) == "0";
  }

  /** The data struct of a reply: the ids of the hashes found, int(0) for
      those not found. */
  function SubHashData(found: map<string, string>, missing: set<string>): Struct {
    map k | k in found.Keys + missing :: if k in found then VString(found[k]) else VInt(0)
  }

  /** What the client makes of it: "0" for the hashes not found. */
  function SubHashIds(found: map<string, string>, missing: set<string>): map<string, string> {
    map k | k in found.Keys + missing :: if k in found then found[k] else "0"
  }

  lemma SubHashEntries(found: map<string, string>, missing: set<string>)
    ensures EachMember(SubHashData(found, missing), SubIdOf) == Ok(SubHashIds(found, missing))
  {
    var data, ids := SubHashData(found, missing), SubHashIds(found, missing);
    SubIdOfZero();
    forall k | k in data
      ensures SubIdOf(data[k]) == Some(ids[k])
    {
      if k in found {
        assert data[k] == VString(found[k]);
      } else {
        assert data[k] == VInt(0);
      }
    }
    assert EachMember(data, SubIdOf).value == ids;
  }

  /** Found hashes map to their ids, the others to "0". */
  lemma CheckSubHashRoundTrip(message: string, seconds: real, found: map<string, string>, missing: set<string>)
    requires SetStatus(message, seconds).Ok?
    ensures DecodeCheckSubHash(Reply(message, seconds, map["data" := VStruct(SubHashData(found, missing))])) ==
            Ok(CheckSubHashResponse(SetStatus(message, seconds).value, SubHashIds(found, missing)))
  {
    var body := map["data" := VStruct(SubHashData(found, missing))];
    ReadStatusOfReply(message, seconds, body);
    assert Reply(message, seconds, body).members["data"] == VStruct(SubHashData(found, missing));
    SubHashEntries(found, missing);
  }

  /** A member that is neither an int nor a string fails the whole reply. */
  lemma CheckSubHashRejectsOtherTypes(message: string, seconds: real, data: Struct, k: string)
    requires SetStatus(message, seconds).Ok?
    requires k in data && !data[k].VString? && !data[k].VInt?
    ensures DecodeCheckSubHash(Reply(message, seconds, map["data" := VStruct(data)])) == Err(TypeMismatch)
  {
    ReadStatusOfReply(message, seconds, map["data" := VStruct(data)]);
    assert Reply(message, seconds, map["data" := VStruct(data)]).members["data"] == VStruct(data);
    assert SubIdOf(data[k]) == None;
  }

  // ---------------------------------------------------------------------
  // Methods whose reply carries no status

  /** SetStatus("200 OK", seconds), which always succeeds: the status
      GetSubLanguages and GetAvailableTranslations set whatever the reply
      says. */
  function OkStatus(seconds: real): (status: Status)
    ensures SetStatus(StatusOk, seconds) == Ok(status)
    ensures status.status == OK && status.message == StatusOk && status.seconds == seconds
  {
    SetStatusOfOkLine(seconds);
    Status(OK, StatusOk, seconds)
  }

  /** One element of the data array of GetSubLanguages. */
  function LangRecord(v: Value): Result<LangInfo> {
    var m :- AsStruct(v);
    var id :- GetString(m, "SubLanguageID");
    var name :- GetString(m, "LanguageName");
    var iso639 :- GetString(m, "ISO639");
    Ok(LangInfo(id, name, iso639))
  }

  /** XmlRpcImpl::GetSubLanguages: the server sends no status line, and the
      client sets "200 OK" with the reply's time. */
  function DecodeGetSubLanguages(result: Value): Result<GetSubLanguagesResponse> {
    var values :- AsStruct(result);
    var seconds :- GetDouble(values, "seconds");
    var status := OkStatus(seconds);
    var data :- Member(values, "data");
    var items :- AsArray(data);
    var langs :- EachItem(items, LangRecord);
    Ok(GetSubLanguagesResponse(status, langs))
  }

  /** The status line of the reply, if any, is ignored. */
  lemma GetSubLanguagesIgnoresStatus(values: Struct, line: Value)
    ensures DecodeGetSubLanguages(VStruct(values["status" := line])) == DecodeGetSubLanguages(VStruct(values))
  {
    var other := values["status" := line];
    assert GetDouble(other, "seconds") == GetDouble(values, "seconds");
    assert Member(other, "data") == Member(values, "data");
  }

  function LangValue(info: LangInfo): Value {
    VStruct(map["SubLanguageID" := VString(info.subLanguageId), "LanguageName" := VString(info.languageName),
                "ISO639" := VString(info.iso639)])
  }

  function LangItems(langs: seq<LangInfo>): (vs: seq<Value>)
    ensures |vs| == |langs| && forall i | 0 <= i < |vs| :: vs[i] == LangValue(langs[i])
  {
    seq(|langs|, i requires 0 <= i < |langs| => LangValue(langs[i]))
  }

  lemma LangRecordOf(info: LangInfo)
    ensures LangRecord(LangValue(info)) == Ok(info)
  {
    var m := LangValue(info).members;
    assert m["SubLanguageID"] == VString(info.subLanguageId);
    assert m["LanguageName"] == VString(info.languageName);
    assert m["ISO639"] == VString(info.iso639);
  }

  /** The languages of a reply come back in server order. */
  lemma GetSubLanguagesRoundTrip(seconds: real, langs: seq<LangInfo>)
    ensures DecodeGetSubLanguages(VStruct(map["seconds" := VDouble(seconds), "data" := VArray(LangItems(langs))])) ==
            Ok(GetSubLanguagesResponse(OkStatus(seconds), langs))
  {
    var values := map["seconds" := VDouble(seconds), "data" := VArray(LangItems(langs))];
    assert values["seconds"] == VDouble(seconds) && values["data"] == VArray(LangItems(langs));
    var items := LangItems(langs);
    forall i | 0 <= i < |items|
      ensures LangRecord(items[i]) == Ok(langs[i])
    {
      LangRecordOf(langs[i]);
    }
    var r := EachItem(items, LangRecord);
    assert r.value == langs;
  }

  /** One element of the data struct of GetAvailableTranslations. */
  function TranslationRecord(v: Value): Result<TranslationInfo> {
    var m :- AsStruct(v);
    var lastCreated :- GetString(m, "LastCreated");
    var stringsNo :- GetString(m, "StringsNo");
    Ok(TranslationInfo(lastCreated, stringsNo))
  }

  function TranslationOf(v: Value): Option<TranslationInfo> {
    AsOption(TranslationRecord(v))
  }

  /** XmlRpcImpl::GetAvailableTranslations: as GetSubLanguages, the status
      is "200 OK" with the reply's time. */
  function DecodeGetAvailableTranslations(result: Value): Result<GetAvailableTranslationsResponse> {
    var values :- AsStruct(result);
    var seconds :- GetDouble(values, "seconds");
    var status := OkStatus(seconds);
    var data :- Member(values, "data");
    var infos :- AsStruct(data);
    var translations :- EachMember(infos, TranslationOf);
    Ok(GetAvailableTranslationsResponse(status, translations))
  }

  function TranslationValue(info: TranslationInfo): Value {
    VStruct(map["LastCreated" := VString(info.lastCreated), "StringsNo" := VString(info.stringsNo)])
  }

  lemma TranslationRecordOf(info: TranslationInfo)
    ensures TranslationRecord(TranslationValue(info)) == Ok(info)
  {
    var m := TranslationValue(info).members;
    assert m["LastCreated"] == VString(info.lastCreated) && m["StringsNo"] == VString(info.stringsNo);
  }

  /** The translations of a reply come back keyed by language, under the
      status OK. */
  lemma GetAvailableTranslationsRoundTrip(seconds: real, infos: map<string, TranslationInfo>)
    ensures var data := VStruct(map k | k in infos :: TranslationValue(infos[k]));
            DecodeGetAvailableTranslations(VStruct(map["seconds" := VDouble(seconds), "data" := data])) ==
            Ok(GetAvailableTranslationsResponse(OkStatus(seconds), infos))
  {
    var data := map k | k in infos :: TranslationValue(infos[k]);
    var values := map["seconds" := VDouble(seconds), "data" := VStruct(data)];
    assert values["seconds"] == VDouble(seconds) && values["data"] == VStruct(data);
    forall k | k in data
      ensures TranslationOf(data[k]) == Some(infos[k])
    {
      TranslationRecordOf(infos[k]);
    }
    var r := EachMember(data, TranslationOf);
    assert r.value == infos;
  }

  // ---------------------------------------------------------------------
  // DetectLanguage

  /** XmlRpcImpl::DetectLanguage: every member of the data struct must be
      a string. */
  function DecodeDetectLanguage(result: Value): Result<DetectLanguageResponse> {
    var values :- AsStruct(result);
    var status :- ReadStatus(values);
    var data :- Member(values, "data");
    var detected :- AsStruct(data);
    var langs :- EachMember(detected, StringOf);
    Ok(DetectLanguageResponse(status, langs))
  }

  /** The detected languages come back keyed as sent. */
  lemma DetectLanguageRoundTrip(message: string, seconds: real, langs: map<string, string>)
    requires SetStatus(message, seconds).Ok?
    ensures DecodeDetectLanguage(Reply(message, seconds, map["data" := VStruct(StringStruct(langs))])) ==
            Ok(DetectLanguageResponse(SetStatus(message, seconds).value, langs))
  {
    var body := map["data" := VStruct(StringStruct(langs))];
    ReadStatusOfReply(message, seconds, body);
    assert Reply(message, seconds, body).members["data"] == VStruct(StringStruct(langs));
    StringOfStringStruct(langs);
  }

  /** A member that is not a string fails the whole reply. */
  lemma DetectLanguageAllOrNothing(message: string, seconds: real, data: Struct, k: string)
    requires SetStatus(message, seconds).Ok?
    requires k in data && !data[k].VString?
    ensures DecodeDetectLanguage(Reply(message, seconds, map["data" := VStruct(data)])) == Err(TypeMismatch)
  {
    ReadStatusOfReply(message, seconds, map["data" := VStruct(data)]);
    assert Reply(message, seconds, map["data" := VStruct(data)]).members["data"] == VStruct(data);
    assert StringOf(data[k]) == None;
  }

  // ---------------------------------------------------------------------
  // GetTranslation

  /** XmlRpcImpl::GetTranslation: a status line other than exactly
      "200 OK" raises SubtleException with that line. */
  function DecodeGetTranslation(result: Value): Result<GetTranslationResponse> {
    var values :- AsStruct(result);
    var status :- ReadStatus(values);
    var ok :- CheckResponse(values);
    if !ok then Err(SubtleException(status.message))
    else
      var translation :- GetString(values, "data");
      Ok(GetTranslationResponse(status, translation))
  }

  /** Any other status line, even one SetStatus reads as OK, raises. */
  lemma GetTranslationRaisesUnlessOk(message: string, seconds: real, body: Struct)
    requires SetStatus(message, seconds).Ok? && message != StatusOk
    ensures DecodeGetTranslation(Reply(message, seconds, body)) == Err(SubtleException(message))
  {
    ReadStatusOfReply(message, seconds, body);
  }

  /** Under "200 OK" the translation is the data member. */
  lemma GetTranslationRoundTrip(seconds: real, translation: string)
    ensures DecodeGetTranslation(Reply(StatusOk, seconds, map["data" := VString(translation)])) ==
            Ok(GetTranslationResponse(OkStatus(seconds), translation))
  {
    var body := map["data" := VString(translation)];
    ReadStatusOfReply(StatusOk, seconds, body);
    assert Reply(StatusOk, seconds, body).members["data"] == VString(translation);
  }

  // ---------------------------------------------------------------------
  // AutoUpdate

  /** XmlRpcImpl::AutoUpdate: the download links, the comments and the
      version are read before the status, and a link the server leaves out
      is "". */
  function DecodeAutoUpdate(result: Value): Result<AutoUpdateResponse> {
    var values :- AsStruct(result);
    var windows :- GetString(values, "url_windows");
    var linux :- GetString(values, "url_linux");
    var comments :- GetString(values, "comments");
    var version :- GetString(values, "version");
    var status :- ReadStatus(values);
    Ok(AutoUpdateResponse(status, version, windows, linux, comments))
  }

  function AutoUpdateBody(version: string, windows: string, linux: string, comments: string): Struct {
    map["version" := VString(version), "url_windows" := VString(windows), "url_linux" := VString(linux),
        "comments" := VString(comments)]
  }

  /** A reply with all four strings decodes to them. */
  lemma AutoUpdateRoundTrip(message: string, seconds: real, version: string, windows: string, linux: string, comments: string)
    requires SetStatus(message, seconds).Ok?
    ensures DecodeAutoUpdate(Reply(message, seconds, AutoUpdateBody(version, windows, linux, comments))) ==
            Ok(AutoUpdateResponse(SetStatus(message, seconds).value, version, windows, linux, comments))
  {
    var body := AutoUpdateBody(version, windows, linux, comments);
    ReadStatusOfReply(message, seconds, body);
    var values := Reply(message, seconds, body).members;
    assert values["version"] == VString(version) && values["url_windows"] == VString(windows);
    assert values["url_linux"] == VString(linux) && values["comments"] == VString(comments);
  }

  /** Only one platform's link may be present: the other reads as "". */
  lemma AutoUpdateOneLink(message: string, seconds: real, version: string, linux: string)
    requires SetStatus(message, seconds).Ok?
    ensures DecodeAutoUpdate(Reply(message, seconds, map["version" := VString(version), "url_linux" := VString(linux)])) ==
            Ok(AutoUpdateResponse(SetStatus(message, seconds).value, version, "", linux, ""))
  {
    var body := map["version" := VString(version), "url_linux" := VString(linux)];
    ReadStatusOfReply(message, seconds, body);
    var values := Reply(message, seconds, body).members;
    assert values["version"] == VString(version) && values["url_linux"] == VString(linux);
    assert "url_windows" !in values && "comments" !in values;
  }

  /** The links are read first: a link that is not a string raises the
      xmlrpc type error even when the status line is missing too. */
  lemma AutoUpdateReadsLinksFirst(values: Struct)
    requires "url_windows" in values && !values["url_windows"].VString?
    ensures DecodeAutoUpdate(VStruct(values)) == Err(TypeMismatch)
  {
  }

  // ---------------------------------------------------------------------
  // SearchMoviesOnImdb

  /** One element of the data array: s(id) and s(title). */
  function ImdbRecord(v: Value): Result<ImdbEntry> {
    var m :- AsStruct(v);
    var id :- GetString(m, "id");
    var title :- GetString(m, "title");
    Ok(ImdbEntry(id, title))
  }

  /** XmlRpcImpl::SearchMoviesOnImdb: the data array is read whatever the
      status. */
  function DecodeSearchMoviesOnImdb(result: Value): Result<SearchMoviesOnImdbResponse> {
    var values :- AsStruct(result);
    var status :- ReadStatus(values);
    var data :- Member(values, "data");
    var items :- AsArray(data);
    var entries :- EachItem(items, ImdbRecord);
    Ok(SearchMoviesOnImdbResponse(status, entries))
  }

  function ImdbValue(entry: ImdbEntry): Value {
    VStruct(map["id" := VString(entry.id), "title" := VString(entry.title)])
  }

  function ImdbItems(entries: seq<ImdbEntry>): (vs: seq<Value>)
    ensures |vs| == |entries| && forall i | 0 <= i < |vs| :: vs[i] == ImdbValue(entries[i])
  {
    seq(|entries|, i requires 0 <= i < |entries| => ImdbValue(entries[i]))
  }

  /** The search results come back in server order. */
  lemma SearchMoviesOnImdbRoundTrip(message: string, seconds: real, entries: seq<ImdbEntry>)
    requires SetStatus(message, seconds).Ok?
    ensures DecodeSearchMoviesOnImdb(Reply(message, seconds, map["data" := VArray(ImdbItems(entries))])) ==
            Ok(SearchMoviesOnImdbResponse(SetStatus(message, seconds).value, entries))
  {
    var body := map["data" := VArray(ImdbItems(entries))];
    ReadStatusOfReply(message, seconds, body);
    assert Reply(message, seconds, body).members["data"] == VArray(ImdbItems(entries));
    var items := ImdbItems(entries);
    forall i | 0 <= i < |items|
      ensures ImdbRecord(items[i]) == Ok(entries[i])
    {
      var m := items[i].members;
      assert m["id"] == VString(entries[i].id) && m["title"] == VString(entries[i].title);
    }
    var r := EachItem(items, ImdbRecord);
    assert r.value == entries;
  }

  /** A reply without results (the server may send none on error) raises. */
  lemma SearchMoviesOnImdbNeedsData(values: Struct)
    requires ReadStatus(values).Ok? && "data" !in values
    ensures DecodeSearchMoviesOnImdb(VStruct(values)) == Err(TypeMismatch)
  {
  }

  // ---------------------------------------------------------------------
  // InsertMovie

  /** XmlRpcImpl::InsertMovie: the status, then s(id). */
  function DecodeInsertMovie(result: Value): Result<InsertMovieResponse> {
    var values :- AsStruct(result);
    var status :- ReadStatus(values);
    var id :- GetString(values, "id");
    Ok(InsertMovieResponse(status, id))
  }

  /** The new movie's id comes back; a reply without one gives "". */
  lemma InsertMovieRoundTrip(message: string, seconds: real, id: string)
    requires SetStatus(message, seconds).Ok?
    ensures DecodeInsertMovie(Reply(message, seconds, map["id" := VString(id)])) ==
            Ok(InsertMovieResponse(SetStatus(message, seconds).value, id))
    ensures DecodeInsertMovie(Reply(message, seconds, map[])) ==
            Ok(InsertMovieResponse(SetStatus(message, seconds).value, ""))
  {
    ReadStatusOfReply(message, seconds, map["id" := VString(id)]);
    ReadStatusOfReply(message, seconds, map[]);
    assert Reply(message, seconds, map["id" := VString(id)]).members["id"] == VString(id);
    assert "id" !in Reply(message, seconds, map[]).members;
  }
}
