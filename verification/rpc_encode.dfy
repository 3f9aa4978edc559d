/** The request half of every XmlRpcImpl method of src/rpc_impl.cc: the
    remote method name and the parameter list handed to the transport.  Each
    encoder has a parser partner that reads the parameters back the way the
    server sees them. */
module RpcEncode {
  import opened Wrappers
  import opened Text
  import opened XmlRpc
  import opened Types

  /** One remote call: the method name and its parameters, in order. */
  datatype Call = Call(name: string, params: seq<Value>)

  /** The "s...s" format of clientSimple::call: every argument is a C string
      (std::string::c_str()), so it ends at its first NUL. */
  function CArgs(args: seq<string>): (ps: seq<Value>)
    ensures |ps| == |args|
    ensures forall i | 0 <= i < |ps| :: ps[i] == VString(CStr(args[i]))
  {
    seq(|args|, i requires 0 <= i < |args| => VString(CStr(args[i])))
  }

  /** An array of xmlrpc ints, in order. */
  function IntArray(ids: seq<Int32>): (v: Value)
    ensures v.VArray? && |v.items| == |ids|
  {
    VArray(seq(|ids|, i requires 0 <= i < |ids| => VInt(ids[i])))
  }

  // ---------------------------------------------------------------------
  // Encoders

  function LogInCall(req: LoginRequest, userAgent: string): Call {
    Call("LogIn", CArgs([req.username, req.password, req.lang, userAgent]))
  }

  function LogOutCall(token: string): Call {
    Call("LogOut", CArgs([token]))
  }

  function NoOperationCall(token: string): Call {
    Call("NoOperation", CArgs([token]))
  }

  /** The search criteria struct: by IMDb id when one is given, by movie hash
      and byte size otherwise; the language always. */
  function SearchStruct(req: SearchRequest): Struct {
    if req.imdbId != "" then
      map["imdbid" := VString(req.imdbId), "sublanguageid" := VString(req.subLanguageId)]
    else
      map["moviehash" := VString(req.movieHash), "moviebytesize" := VDouble(req.movieByteSize),
          "sublanguageid" := VString(req.subLanguageId)]
  }

  /** SearchSubtitles sends the token and an array holding one criteria
      struct. */
  function SearchCall(token: string, req: SearchRequest): Call {
    Call("SearchSubtitles", [VString(token), VArray([VStruct(SearchStruct(req))])])
  }

  function MovieStruct(movie: (string, real)): Value {
    VStruct(map["moviehash" := VString(movie.0), "moviesize" := VDouble(movie.1)])
  }

  function MovieStructs(movies: seq<(string, real)>): (vs: seq<Value>)
    ensures |vs| == |movies| && forall i | 0 <= i < |vs| :: vs[i] == MovieStruct(movies[i])
  {
    seq(|movies|, i requires 0 <= i < |movies| => MovieStruct(movies[i]))
  }

  function SearchToMailCall(token: string, req: SearchMailRequest): Call {
    Call("SearchToMail", [VString(token), StringArray(req.languages), VArray(MovieStructs(req.movies))])
  }

  function DownloadCall(token: string, req: DownloadRequest): Call {
    Call("DownloadSubtitles", [VString(token), IntArray(req.movies)])
  }

  const ServerInfoCall: Call := Call("ServerInfo", [])

  /** The "si" format reads its second argument as a 32-bit int although an
      int64_t is passed.  C++ leaves that mismatch undefined; the model takes
      the low 32 bits, which is what arrives on common ABIs. */
  function ReportWrongMovieHashCall(token: string, req: ReportWrongMovieHashRequest): Call {
    Call("ReportWrongMovieHash", [VString(CStr(token)), VInt(ToInt32(req.idSubMovieFile))])
  }

  /** value_int takes an `int`: the int64_t id is narrowed to 32 bits. */
  function SubtitlesVoteCall(token: string, req: SubtitlesVoteRequest): Call {
    Call("SubtitlesVote", [VString(token),
      VStruct(map["idsubtitle" := VInt(ToInt32(req.idSubtitle)), "score" := VInt(req.score)])])
  }

  /** The bad-subtitle flag goes as the int 1 or 0. */
  function AddCommentCall(token: string, req: AddCommentRequest): Call {
    Call("AddComment", [VString(token),
      VStruct(map["idsubtitle" := VInt(ToInt32(req.idSubtitle)), "comment" := VString(req.comment),
                  "badsubtitle" := VInt(if req.badSubtitle then 1 else 0)])])
  }

  function CheckMovieHashCall(token: string, req: CheckMovieHashRequest): Call {
    Call("CheckMovieHash", [VString(token), StringArray(req.movieHashes)])
  }

  function CheckSubHashCall(token: string, req: CheckSubHashRequest): Call {
    Call("CheckSubHash", [VString(token), StringArray(req.subHashes)])
  }

  function GetSubLanguagesCall(req: GetSubLanguagesRequest): Call {
    Call("GetSubLanguages", CArgs([req.lang]))
  }

  function DetectLanguageCall(token: string, req: DetectLanguageRequest): Call {
    Call("DetectLanguage", [VString(token), StringArray(req.texts)])
  }

  function GetAvailableTranslationsCall(token: string, req: GetAvailableTranslationsRequest): Call {
    Call("GetAvailableTranslations", CArgs([token, req.program]))
  }

  function GetTranslationCall(token: string, req: GetTranslationRequest): Call {
    Call("GetTranslation", CArgs([token, req.iso639, req.format, req.program]))
  }

  function AutoUpdateCall(req: AutoUpdateRequest): Call {
    Call("AutoUpdate", CArgs([req.program]))
  }

  function SearchMoviesOnImdbCall(token: string, req: SearchMoviesOnImdbRequest): Call {
    Call("SearchMoviesOnIMDB", CArgs([token, req.query]))
  }

  function GetImdbMovieDetailsCall(token: string, req: GetImdbMovieDetailsRequest): Call {
    Call("GetIMDBMovieDetails", CArgs([token, req.imdbId]))
  }

  function InsertMovieCall(token: string, req: InsertMovieRequest): Call {
    Call("InsertMovie", [VString(token),
      VStruct(map["moviename" := VString(req.movieName), "movieyear" := VString(req.movieYear)])])
  }

  // ---------------------------------------------------------------------
  // How the server reads the parameters back

  /** Strings with no NUL in them. */
  predicate NoNul(args: seq<string>) {
    forall i, j | 0 <= i < |args| && 0 <= j < |args[i]| :: args[i][j] != '\0'
  }

  /** A parameter list of C strings reads back as the arguments cut at their
      first NUL, and as the arguments themselves when they hold none. */
  lemma CArgsRoundTrip(args: seq<string>)
    ensures ParseStrings(VArray(CArgs(args))) == Some(seq(|args|, i requires 0 <= i < |args| => CStr(args[i])))
    ensures NoNul(args) ==> ParseStrings(VArray(CArgs(args))) == Some(args)
  {
    var ps := CArgs(args);
    var cut := seq(|args|, i requires 0 <= i < |args| => CStr(args[i]));
    assert ParseStrings(VArray(ps)).value == cut;
    if NoNul(args) {
      forall i | 0 <= i < |args|
        ensures cut[i] == args[i]
      {
        CStrKeeps(args[i]);
      }
      assert cut == args;
    }
  }

  /** The four LogIn strings arrive in order: user name, password, language,
      user agent. */
  lemma LogInCarriesCredentials(req: LoginRequest, userAgent: string)
    requires NoNul([req.username, req.password, req.lang, userAgent])
    ensures LogInCall(req, userAgent).name == "LogIn"
    ensures ParseStrings(VArray(LogInCall(req, userAgent).params)) == Some([req.username, req.password, req.lang, userAgent])
  {
    CArgsRoundTrip([req.username, req.password, req.lang, userAgent]);
  }

  /** The calls that pass only the token: LogOut and NoOperation. */
  lemma TokenCallsCarryToken(token: string)
    requires NoNul([token])
    ensures ParseStrings(VArray(LogOutCall(token).params)) == Some([token])
    ensures ParseStrings(VArray(NoOperationCall(token).params)) == Some([token])
  {
    CArgsRoundTrip([token]);
  }

  /** The calls that pass one argument without a token: GetSubLanguages
      and AutoUpdate. */
  lemma NoTokenCallsCarryArgument(languages: GetSubLanguagesRequest, update: AutoUpdateRequest)
    requires NoNul([languages.lang]) && NoNul([update.program])
    ensures ParseStrings(VArray(GetSubLanguagesCall(languages).params)) == Some([languages.lang])
    ensures ParseStrings(VArray(AutoUpdateCall(update).params)) == Some([update.program])
  {
    CArgsRoundTrip([languages.lang]);
    CArgsRoundTrip([update.program]);
  }

  /** The calls that pass the token and then the request's strings in
      declaration order. */
  lemma TokenAndStringsCalls(token: string, program: string, query: string, imdbId: string, req: GetTranslationRequest)
    requires NoNul([token, program]) && NoNul([token, query]) && NoNul([token, imdbId])
    requires NoNul([token, req.iso639, req.format, req.program])
    ensures ParseStrings(VArray(GetAvailableTranslationsCall(token, GetAvailableTranslationsRequest(program)).params))
            == Some([token, program])
    ensures ParseStrings(VArray(SearchMoviesOnImdbCall(token, SearchMoviesOnImdbRequest(query)).params))
            == Some([token, query])
    ensures ParseStrings(VArray(GetImdbMovieDetailsCall(token, GetImdbMovieDetailsRequest(imdbId)).params))
            == Some([token, imdbId])
    ensures ParseStrings(VArray(GetTranslationCall(token, req).params))
            == Some([token, req.iso639, req.format, req.program])
  {
    CArgsRoundTrip([token, program]);
    CArgsRoundTrip([token, query]);
    CArgsRoundTrip([token, imdbId]);
    CArgsRoundTrip([token, req.iso639, req.format, req.program]);
  }

  /** The token and the payload of a two-parameter call. */
  function TokenAndPayload(c: Call): Option<(string, Value)> {
    if |c.params| == 2 && c.params[0].VString? then Some((c.params[0].str, c.params[1])) else None
  }

  /** The server's reading of a search criteria struct. */
  function ParseSearchStruct(m: Struct): Option<SearchRequest> {
    if "sublanguageid" !in m || !m["sublanguageid"].VString? then None
    else if "imdbid" in m && m["imdbid"].VString? && m["imdbid"].str != "" then
      Some(ImdbSearch(m["sublanguageid"].str, m["imdbid"].str))
    else if "moviehash" in m && m["moviehash"].VString? && "moviebytesize" in m && m["moviebytesize"].VDouble? then
      Some(HashSearch(m["sublanguageid"].str, m["moviehash"].str, m["moviebytesize"].number))
    else None
  }

  function ParseSearch(c: Call): Option<(string, SearchRequest)> {
    var (token, payload) :- TokenAndPayload(c);
    if payload.VArray? && |payload.items| == 1 && payload.items[0].VStruct? then
      var req :- ParseSearchStruct(payload.items[0].members);
      Some((token, req))
    else None
  }

  /** The criteria struct has exactly one of two shapes: {imdbid,
      sublanguageid} for an IMDb search and {moviehash, moviebytesize,
      sublanguageid} for a hash search. */
  lemma SearchShape(req: SearchRequest)
    ensures req.imdbId != "" ==> SearchStruct(req).Keys == {"imdbid", "sublanguageid"}
    ensures req.imdbId == "" ==> SearchStruct(req).Keys == {"moviehash", "moviebytesize", "sublanguageid"}
    ensures !("imdbid" in SearchStruct(req) && "moviehash" in SearchStruct(req))
  {
  }

  /** The server reads back the token and the request; an IMDb search
      carries no hash or size. */
  lemma SearchRoundTrip(token: string, req: SearchRequest)
    ensures SearchCall(token, req).name == "SearchSubtitles"
    ensures ParseSearch(SearchCall(token, req)) ==
            Some((token, if req.imdbId != "" then ImdbSearch(req.subLanguageId, req.imdbId) else req))
  {
  }

  /** The server's reading of a movie struct of SearchToMail. */
  function ParseMovie(v: Value): Option<(string, real)> {
    if v.VStruct? && "moviehash" in v.members && v.members["moviehash"].VString?
       && "moviesize" in v.members && v.members["moviesize"].VDouble?
    then Some((v.members["moviehash"].str, v.members["moviesize"].number))
    else None
  }

  function ParseMovies(items: seq<Value>): (r: Option<seq<(string, real)>>)
    ensures r.Some? ==> |r.value| == |items|
  {
    if |items| == 0 then Some([])
    else
      var first :- ParseMovie(items[0]);
      var rest :- ParseMovies(items[1..]);
      Some([first] + rest)
  }

  function ParseSearchToMail(c: Call): Option<(string, SearchMailRequest)> {
    if |c.params| == 3 && c.params[0].VString? && c.params[2].VArray? then
      var languages :- ParseStrings(c.params[1]);
      var movies :- ParseMovies(c.params[2].items);
      Some((c.params[0].str, SearchMailRequest(languages, movies)))
    else None
  }

  lemma {:induction false} ParseMoviesOfStructs(movies: seq<(string, real)>)
    ensures ParseMovies(MovieStructs(movies)) == Some(movies)
  {
    var items := MovieStructs(movies);
    if 0 < |movies| {
      assert items[1..] == MovieStructs(movies[1..]);
      ParseMoviesOfStructs(movies[1..]);
      assert movies == [movies[0]] + movies[1..];
    }
  }

  /** SearchToMail carries the languages and the (hash, size) pairs in
      order. */
  lemma SearchToMailRoundTrip(token: string, req: SearchMailRequest)
    ensures ParseSearchToMail(SearchToMailCall(token, req)) == Some((token, req))
  {
    var c := SearchToMailCall(token, req);
    ParseStringArray(req.languages);
    assert ParseStrings(c.params[1]) == Some(req.languages);
    ParseMoviesOfStructs(req.movies);
    assert ParseMovies(c.params[2].items) == Some(req.movies);
  }

  /** The server's reading of an array of ints. */
  function ParseInts(v: Value): (r: Option<seq<Int32>>)
    ensures r.Some? ==> v.VArray? && |r.value| == |v.items|
  {
    if v.VArray? && forall i | 0 <= i < |v.items| :: v.items[i].VInt? then
      Some(seq(|v.items|, i requires 0 <= i < |v.items| => v.items[i].integer))
    else None
  }

  function ParseDownload(c: Call): Option<(string, DownloadRequest)> {
    var (token, payload) :- TokenAndPayload(c);
    var ids :- ParseInts(payload);
    Some((token, DownloadRequest(ids)))
  }

  /** DownloadSubtitles sends the requested ids as ints, in request order. */
  lemma DownloadRoundTrip(token: string, req: DownloadRequest)
    ensures DownloadCall(token, req).name == "DownloadSubtitles"
    ensures ParseDownload(DownloadCall(token, req)) == Some((token, req))
  {
    var v := IntArray(req.movies);
    assert forall i | 0 <= i < |v.items| :: v.items[i] == VInt(req.movies[i]);
    assert ParseInts(v).value == req.movies;
  }

  /** The id reported as wrong arrives unchanged while it fits an `int`,
      and as its low 32 bits otherwise. */
  lemma ReportWrongMovieHashId(token: string, req: ReportWrongMovieHashRequest)
    ensures var ps := ReportWrongMovieHashCall(token, req).params;
            |ps| == 2 && ps[1].VInt? && (req.idSubMovieFile - ps[1].integer) % TwoTo32 == 0
    ensures -0x8000_0000 <= req.idSubMovieFile < 0x8000_0000 ==>
            ReportWrongMovieHashCall(token, req).params[1] == VInt(req.idSubMovieFile)
  {
    if -0x8000_0000 <= req.idSubMovieFile < 0x8000_0000 {
      ToInt32Keeps(req.idSubMovieFile);
    }
  }

  /** The server's reading of a vote: (token, id, score). */
  function ParseVote(c: Call): Option<(string, int, int)> {
    var (token, payload) :- TokenAndPayload(c);
    if payload.VStruct? && "idsubtitle" in payload.members && payload.members["idsubtitle"].VInt?
       && "score" in payload.members && payload.members["score"].VInt?
    then Some((token, payload.members["idsubtitle"].integer as int, payload.members["score"].integer as int))
    else None
  }

  /** A vote carries the token, the id while it fits an `int`, and the
      score. */
  lemma SubtitlesVoteRoundTrip(token: string, req: SubtitlesVoteRequest)
    requires -0x8000_0000 <= req.idSubtitle < 0x8000_0000
    ensures ParseVote(SubtitlesVoteCall(token, req)) == Some((token, req.idSubtitle as int, req.score as int))
  {
    ToInt32Keeps(req.idSubtitle);
  }

  /** The server's reading of a comment: the request it stands for. */
  function ParseComment(c: Call): Option<(string, AddCommentRequest)> {
    var (token, payload) :- TokenAndPayload(c);
    if payload.VStruct? && "idsubtitle" in payload.members && payload.members["idsubtitle"].VInt?
       && "comment" in payload.members && payload.members["comment"].VString?
       && "badsubtitle" in payload.members && payload.members["badsubtitle"].VInt?
    then
      Some((token, AddCommentRequest(payload.members["idsubtitle"].integer, payload.members["comment"].str,
                                     payload.members["badsubtitle"].integer != 0)))
    else None
  }

  /** A comment carries the token, the id while it fits an `int`, the text,
      and the flag as 1 for true and 0 for false. */
  lemma AddCommentRoundTrip(token: string, req: AddCommentRequest)
    requires -0x8000_0000 <= req.idSubtitle < 0x8000_0000
    ensures ParseComment(AddCommentCall(token, req)) == Some((token, req))
    ensures AddCommentCall(token, req).params[1].members["badsubtitle"] == VInt(if req.badSubtitle then 1 else 0)
  {
    ToInt32Keeps(req.idSubtitle);
  }

  /** The server's reading of a token followed by a list of strings. */
  function ParseTokenAndStrings(c: Call): Option<(string, seq<string>)> {
    var (token, payload) :- TokenAndPayload(c);
    var ss :- ParseStrings(payload);
    Some((token, ss))
  }

  /** CheckMovieHash, CheckSubHash and DetectLanguage send their lists whole
      and in order. */
  lemma StringListCallsRoundTrip(token: string, hashes: seq<string>)
    ensures ParseTokenAndStrings(CheckMovieHashCall(token, CheckMovieHashRequest(hashes))) == Some((token, hashes))
    ensures ParseTokenAndStrings(CheckSubHashCall(token, CheckSubHashRequest(hashes))) == Some((token, hashes))
    ensures ParseTokenAndStrings(DetectLanguageCall(token, DetectLanguageRequest(hashes))) == Some((token, hashes))
  {
    ParseStringArray(hashes);
  }

  /** The server's reading of InsertMovie. */
  function ParseInsertMovie(c: Call): Option<(string, InsertMovieRequest)> {
    var (token, payload) :- TokenAndPayload(c);
    if payload.VStruct? && "moviename" in payload.members && payload.members["moviename"].VString?
       && "movieyear" in payload.members && payload.members["movieyear"].VString?
    then Some((token, InsertMovieRequest(payload.members["moviename"].str, payload.members["movieyear"].str)))
    else None
  }

  lemma InsertMovieRoundTrip(token: string, req: InsertMovieRequest)
    ensures ParseInsertMovie(InsertMovieCall(token, req)) == Some((token, req))
  {
  }
}
