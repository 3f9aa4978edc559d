/** class Subtle of src/subtle.cc: a session against an XmlRpcClient.  The
    client's replies are parameters of each operation, and the calls the
    session makes are kept in order in `trace`. */
module Session {
  import opened Wrappers
  import opened Text
  import opened SubFiles
  import opened Statuses
  import opened Types

  const ServerUrl: string := "http://api.opensubtitles.org/xml-rpc"
  const UserAgent: string := "libsubtle"

  /** A call on the XmlRpcClient. */
  datatype Call =
    | Init(userAgent: string, url: string)
    | LogIn(login: LoginRequest)
    | LogOut(token: string)
    | Search(token: string, search: SearchRequest)
    | Download(token: string, download: DownloadRequest)

  /** The session: the token kept from the login, and the calls made. */
  datatype Subtle = Subtle(token: string, trace: seq<Call>)

  /** What DownloadSubtitles hands to the file-writing code: the base64
      payload and the file name it is unpacked to. */
  datatype Output = Output(payload: string, fileName: string)

  /** The two calls the constructor makes. */
  const Opening: seq<Call> := [Init(UserAgent, ServerUrl), LogIn(AnonymousLogin)]

  /** Subtle::Subtle: Init, then an anonymous LogIn whose token is kept
      whatever the status. */
  function Open(reply: LoginResponse): Subtle {
    Subtle(reply.token, Opening)
  }

  /** A call made after the constructor, with the session's token. */
  predicate CarriesToken(c: Call, token: string) {
    match c
    case Search(t, _) => t == token
    case Download(t, _) => t == token
    case LogOut(t) => t == token
    case _ => false
  }

  /** A live session: the constructor's calls, then only searches and
      downloads that pass the token. */
  predicate WellFormed(s: Subtle) {
    && |s.trace| >= 2 && s.trace[..2] == Opening
    && forall i | 2 <= i < |s.trace| :: CarriesToken(s.trace[i], s.token) && !s.trace[i].LogOut?
  }

  lemma OpenWellFormed(reply: LoginResponse)
    ensures WellFormed(Open(reply)) && Open(reply).token == reply.token
    ensures Open(reply).trace[1].login.username == "" && Open(reply).trace[1].login.password == ""
  {
  }

  /** Subtle::SearchSubtitles: one hash search with the token; the records
      come back as the client returned them. */
  function SearchSubtitles(s: Subtle, lang: string, hash: string, size: real, reply: SearchResponse): (r: (Subtle, seq<SubFile>))
    ensures r.0.token == s.token && r.1 == reply.data
    ensures r.0.trace == s.trace + [Search(s.token, HashSearch(lang, hash, size))]
    ensures r.0.trace[|s.trace|].search.imdbId == "" && r.0.trace[|s.trace|].search.movieHash == hash
  {
    (Subtle(s.token, s.trace + [Search(s.token, HashSearch(lang, hash, size))]), reply.data)
  }

  /** Subtle::DownloadSubtitles: search; on a hit, std::stoi of the best
      match's file id (which may raise), one download of that id, and an
      output only if the client returned a payload.  The session keeps the
      calls made before an exception. */
  function DownloadSubtitles(s: Subtle, lang: string, hash: string, size: real,
                             found: SearchResponse, got: DownloadResponse): (r: (Subtle, Result<Option<Output>>))
    ensures r.0.token == s.token && s.trace < r.0.trace && |r.0.trace| <= |s.trace| + 2
    ensures forall i | |s.trace| <= i < |r.0.trace| :: CarriesToken(r.0.trace[i], s.token) && !r.0.trace[i].LogOut?
  {
    var (s', search) := SearchSubtitles(s, lang, hash, size, found);
    if |search| == 0 then (s', Ok(None))
    else FetchBest(s', search, got)
  }

  /** The part of DownloadSubtitles after a search that found something. */
  function FetchBest(s: Subtle, search: seq<SubFile>, got: DownloadResponse): (r: (Subtle, Result<Option<Output>>))
    requires |search| > 0
    ensures r.0.token == s.token && s.trace <= r.0.trace && |r.0.trace| <= |s.trace| + 1
    ensures forall i | |s.trace| <= i < |r.0.trace| :: r.0.trace[i].Download? && r.0.trace[i].token == s.token
  {
    var best := Stoi(search[0].IDSubtitleFile);
    if best.Err? then (s, Err(best.error))
    else
      var s' := Subtle(s.token, s.trace + [Download(s.token, DownloadRequest([best.value]))]);
      if |got.subtitles| == 0 then (s', Ok(None))
      else (s', Ok(Some(Output(got.subtitles[0].1, search[0].SubFileName))))
  }

  /** Subtle::~Subtle: LogOut only when the login gave a token. */
  function Close(s: Subtle): Subtle {
    if s.token != "" then Subtle(s.token, s.trace + [LogOut(s.token)]) else s
  }

  // ---------------------------------------------------------------------
  // DownloadSubtitles

  /** Nothing found: no download call and no output. */
  lemma DownloadNothingFound(s: Subtle, lang: string, hash: string, size: real, found: SearchResponse, got: DownloadResponse)
    requires found.data == []
    ensures var (t, r) := DownloadSubtitles(s, lang, hash, size, found, got);
            && t.trace == s.trace + [Search(s.token, HashSearch(lang, hash, size))]
            && r == Ok(None)
  {
  }

  /** A hit: exactly one download, of the first record's file id alone;
      the output is the first payload, named after the first record. */
  lemma DownloadFirstMatch(s: Subtle, lang: string, hash: string, size: real, found: SearchResponse, got: DownloadResponse)
    requires found.data != [] && Stoi(found.data[0].IDSubtitleFile).Ok?
    ensures var d := DownloadSubtitles(s, lang, hash, size, found, got);
            var best := Stoi(found.data[0].IDSubtitleFile).value;
            && d.0.trace == s.trace + [Search(s.token, HashSearch(lang, hash, size)), Download(s.token, DownloadRequest([best]))]
            && d.1.Ok?
            && (d.1.value.Some? <==> got.subtitles != [])
            && (d.1.value.Some? ==> d.1.value.value == Output(got.subtitles[0].1, found.data[0].SubFileName))
  {
    var s1 := SearchSubtitles(s, lang, hash, size, found).0;
    var best := Stoi(found.data[0].IDSubtitleFile).value;
    assert DownloadSubtitles(s, lang, hash, size, found, got) == FetchBest(s1, found.data, got);
    FetchBestOfNumber(s1, found.data, got, best);
    assert s1.trace + [Download(s.token, DownloadRequest([best]))] ==
           s.trace + [Search(s.token, HashSearch(lang, hash, size)), Download(s.token, DownloadRequest([best]))];
  }

  lemma FetchBestOfNumber(s: Subtle, search: seq<SubFile>, got: DownloadResponse, best: Int32)
    requires |search| > 0 && Stoi(search[0].IDSubtitleFile) == Ok(best)
    ensures FetchBest(s, search, got).0 == Subtle(s.token, s.trace + [Download(s.token, DownloadRequest([best]))])
    ensures FetchBest(s, search, got).1 ==
            Ok(if got.subtitles == [] then None else Some(Output(got.subtitles[0].1, search[0].SubFileName)))
  {
  }

  /** A file id that is not a number raises std::stoi's exception after the
      search and before any download. */
  lemma DownloadBadId(s: Subtle, lang: string, hash: string, size: real, found: SearchResponse, got: DownloadResponse)
    requires found.data != [] && Stoi(found.data[0].IDSubtitleFile).Err?
    ensures var (t, r) := DownloadSubtitles(s, lang, hash, size, found, got);
            && t.trace == s.trace + [Search(s.token, HashSearch(lang, hash, size))]
            && r == Err(Stoi(found.data[0].IDSubtitleFile).error)
  {
  }

  /** An output, when there is one, names a file the search returned and
      carries a payload the download returned. */
  lemma DownloadOutputFromReplies(s: Subtle, lang: string, hash: string, size: real, found: SearchResponse, got: DownloadResponse)
    ensures var r := DownloadSubtitles(s, lang, hash, size, found, got).1;
            r.Ok? && r.value.Some? ==>
              && found.data != [] && r.value.value.fileName == found.data[0].SubFileName
              && got.subtitles != [] && r.value.value.payload == got.subtitles[0].1
  {
  }

  // ---------------------------------------------------------------------
  // The session as a whole

  /** What a user of the session does between construction and
      destruction. */
  datatype Step =
    | SearchStep(lang: string, hash: string, size: real, reply: SearchResponse)
    | DownloadStep(lang: string, hash: string, size: real, found: SearchResponse, got: DownloadResponse)

  function Apply(s: Subtle, step: Step): Subtle {
    match step
    case SearchStep(lang, hash, size, reply) => SearchSubtitles(s, lang, hash, size, reply).0
    case DownloadStep(lang, hash, size, found, got) => DownloadSubtitles(s, lang, hash, size, found, got).0
  }

  /** Apply the steps in order. */
  function Run(s: Subtle, steps: seq<Step>): Subtle
    decreases |steps|
  {
    if |steps| == 0 then s else Run(Apply(s, steps[0]), steps[1..])
  }

  /** One step keeps the token and passes it in every call it makes. */
  lemma ApplyKeepsToken(s: Subtle, step: Step)
    requires WellFormed(s)
    ensures WellFormed(Apply(s, step)) && Apply(s, step).token == s.token
    ensures s.trace <= Apply(s, step).trace
  {
    var t := Apply(s, step);
    match step {
      case SearchStep(lang, hash, size, reply) =>
      case DownloadStep(lang, hash, size, found, got) =>
    }
    assert t.trace[..2] == s.trace[..2];
  }

  /** The token never changes after the constructor, every later call
      passes it, and no call is ever taken back. */
  lemma {:induction false} RunKeepsToken(s: Subtle, steps: seq<Step>)
    requires WellFormed(s)
    ensures WellFormed(Run(s, steps)) && Run(s, steps).token == s.token
    ensures s.trace <= Run(s, steps).trace
    decreases |steps|
  {
    if |steps| != 0 {
      ApplyKeepsToken(s, steps[0]);
      RunKeepsToken(Apply(s, steps[0]), steps[1..]);
    }
  }

  /** A whole session: the constructor's two calls, then calls with the
      login's token, and a LogOut as the last call exactly when the token
      is not empty, and nowhere else. */
  lemma SessionLifetime(reply: LoginResponse, steps: seq<Step>)
    ensures var t := Close(Run(Open(reply), steps));
            && |t.trace| >= 2 && t.trace[..2] == Opening
            && (forall i | 2 <= i < |t.trace| :: CarriesToken(t.trace[i], reply.token))
            && (reply.token != "" <==> t.trace[|t.trace| - 1] == LogOut(reply.token))
            && (forall i | 0 <= i < |t.trace| - 1 :: !t.trace[i].LogOut?)
  {
    var s := Run(Open(reply), steps);
    RunKeepsToken(Open(reply), steps);
    assert s.trace[0] == Opening[0] && s.trace[1] == Opening[1];
    assert forall i | 0 <= i < |s.trace| :: !s.trace[i].LogOut?;
  }
}
