/** The typed requests and responses of src/types.h, and the status line
    every response carries. */
module Types {
  import opened Wrappers
  import opened Text
  import opened SubFiles
  import opened Statuses

  // ---------------------------------------------------------------------
  // Requests

  /** SearchRequest: a hash search when `imdbId` is empty, an IMDb search
      otherwise. */
  datatype SearchRequest = SearchRequest(subLanguageId: string, movieHash: string, movieByteSize: real, imdbId: string)

  /** SearchRequest(sub_language_id, movie_hash, movie_byte_size). */
  function HashSearch(subLanguageId: string, movieHash: string, movieByteSize: real): (r: SearchRequest)
    ensures r.imdbId == ""
    ensures r.subLanguageId == subLanguageId && r.movieHash == movieHash && r.movieByteSize == movieByteSize
  {
    SearchRequest(subLanguageId, movieHash, movieByteSize, "")
  }

  /** SearchRequest(sub_language_id, imdb_id).  The byte size is left
      uninitialised by the source; the model puts 0.0 there. */
  function ImdbSearch(subLanguageId: string, imdbId: string): (r: SearchRequest)
    ensures r.imdbId == imdbId && r.movieHash == ""
    ensures r.subLanguageId == subLanguageId
  {
    SearchRequest(subLanguageId, "", 0.0, imdbId)
  }

  datatype SearchMailRequest = SearchMailRequest(languages: seq<string>, movies: seq<(string, real)>)

  datatype DownloadRequest = DownloadRequest(movies: seq<Int32>)

  datatype LoginRequest = LoginRequest(username: string, password: string, lang: string)

  /** LoginRequest(): anonymous login, every field empty. */
  const AnonymousLogin: LoginRequest := LoginRequest("", "", "")

  datatype ReportWrongMovieHashRequest = ReportWrongMovieHashRequest(idSubMovieFile: Int64)

  datatype SubtitlesVoteRequest = SubtitlesVoteRequest(idSubtitle: Int64, score: Int16)

  datatype AddCommentRequest = AddCommentRequest(idSubtitle: Int64, comment: string, badSubtitle: bool)

  datatype CheckMovieHashRequest = CheckMovieHashRequest(movieHashes: seq<string>)

  /** CheckMovieHashRequest(const string&): a list of one hash. */
  function SingleMovieHash(movieHash: string): (r: CheckMovieHashRequest)
    ensures |r.movieHashes| == 1 && r.movieHashes[0] == movieHash
  {
    CheckMovieHashRequest([movieHash])
  }

  datatype CheckSubHashRequest = CheckSubHashRequest(subHashes: seq<string>)

  /** CheckSubHashRequest(string): a list of one hash. */
  function SingleSubHash(subHash: string): (r: CheckSubHashRequest)
    ensures |r.subHashes| == 1 && r.subHashes[0] == subHash
  {
    CheckSubHashRequest([subHash])
  }

  datatype GetSubLanguagesRequest = GetSubLanguagesRequest(lang: string)

  /** GetSubLanguagesRequest(): names in English. */
  const DefaultSubLanguages: GetSubLanguagesRequest := GetSubLanguagesRequest("en")

  datatype DetectLanguageRequest = DetectLanguageRequest(texts: seq<string>)

  datatype GetAvailableTranslationsRequest = GetAvailableTranslationsRequest(program: string)

  datatype GetTranslationRequest = GetTranslationRequest(iso639: string, format: string, program: string)

  datatype AutoUpdateRequest = AutoUpdateRequest(program: string)

  datatype SearchMoviesOnImdbRequest = SearchMoviesOnImdbRequest(query: string)

  datatype GetImdbMovieDetailsRequest = GetImdbMovieDetailsRequest(imdbId: string)

  datatype InsertMovieRequest = InsertMovieRequest(movieName: string, movieYear: string)

  // ---------------------------------------------------------------------
  // Records inside responses

  datatype MovieInfo = MovieInfo(movieHash: string, movieImdbId: string, movieName: string, movieYear: string)

  datatype LangInfo = LangInfo(subLanguageId: string, languageName: string, iso639: string)

  datatype TranslationInfo = TranslationInfo(lastCreated: string, stringsNo: string)

  datatype ImdbEntry = ImdbEntry(id: string, title: string)

  // ---------------------------------------------------------------------
  // Responses

  /** LogOutResponse, NoOperationResponse, SearchMailResponse,
      ReportWrongMovieHashResponse and AddCommentResponse: a status only. */
  datatype StatusResponse = StatusResponse(status: Status)

  datatype LoginResponse = LoginResponse(status: Status, token: string)

  datatype SearchResponse = SearchResponse(status: Status, data: seq<SubFile>)

  /** Pairs of (idsubtitlefile, base64 data). */
  datatype DownloadResponse = DownloadResponse(status: Status, subtitles: seq<(string, string)>)

  /** ServerInfoResponse: the server sends no status and none is set. */
  datatype ServerInfoResponse = ServerInfoResponse(
    xmlrpcVersion: string,
    xmlrpcUrl: string,
    application: string,
    contact: string,
    websiteUrl: string,
    usersOnlineTotal: string,
    usersOnlineProgram: string,
    usersLoggedin: string,
    usersMaxAlltime: string,
    usersRegistered: string,
    subsDownloads: string,
    subsSubtitleFiles: string,
    moviesTotal: string,
    moviesAka: string,
    totalSubtitlesLanguages: string,
    lastUpdateStrings: map<string, string>
  )

  /** SubtitlesVoteResponse: the three result fields are never filled in. */
  datatype SubtitlesVoteResponse = SubtitlesVoteResponse(status: Status, subRatings: string, subSumVotes: string, idSubtitle: string)

  datatype CheckMovieHashResponse = CheckMovieHashResponse(status: Status, movieInfos: map<string, MovieInfo>)

  datatype CheckSubHashResponse = CheckSubHashResponse(status: Status, subIds: map<string, string>)

  datatype GetSubLanguagesResponse = GetSubLanguagesResponse(status: Status, langInfos: seq<LangInfo>)

  datatype DetectLanguageResponse = DetectLanguageResponse(status: Status, detectedLangs: map<string, string>)

  datatype GetAvailableTranslationsResponse = GetAvailableTranslationsResponse(status: Status, translationInfos: map<string, TranslationInfo>)

  datatype GetTranslationResponse = GetTranslationResponse(status: Status, translation: string)

  datatype AutoUpdateResponse = AutoUpdateResponse(status: Status, version: string, urlWindows: string, urlLinux: string, comments: string)

  datatype SearchMoviesOnImdbResponse = SearchMoviesOnImdbResponse(status: Status, imdbResults: seq<ImdbEntry>)

  /** GetImdbMovieDetailsResponse; `certifications` is never filled in. */
  datatype ImdbDetails = ImdbDetails(
    id: string,
    title: string,
    year: string,
    cover: string,
    cast: map<string, string>,
    directors: map<string, string>,
    writers: map<string, string>,
    awards: string,
    genres: seq<string>,
    countries: seq<string>,
    languages: seq<string>,
    duration: string,
    certifications: seq<string>,
    tagline: string,
    plot: string,
    goofs: string,
    trivia: string,
    requestFrom: string
  )

  /** A default-constructed GetImdbMovieDetailsResponse: all fields empty. */
  const EmptyDetails: ImdbDetails :=
    ImdbDetails("", "", "", "", map[], map[], map[], "", [], [], [], "", [], "", "", "", "", "")

  datatype GetImdbMovieDetailsResponse = GetImdbMovieDetailsResponse(status: Status, details: ImdbDetails)

  datatype InsertMovieResponse = InsertMovieResponse(status: Status, id: string)
}
