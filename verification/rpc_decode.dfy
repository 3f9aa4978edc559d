/** The reply half of the session-level XmlRpcImpl methods of
    src/rpc_impl.cc: LogIn, LogOut, NoOperation, SearchSubtitles,
    SearchToMail, DownloadSubtitles, ReportWrongMovieHash, SubtitlesVote and
    AddComment.  A decoder takes the value the transport returned and answers
    the typed response, or the exception the C++ code raises. */
module RpcDecode {
  import opened Wrappers
  import opened Text
  import opened XmlRpc
  import opened SubFiles
  import opened Statuses
  import opened Types

  /** response.SetStatus(s(values, "status"), d(values, "seconds")).  Both
      accessors raise the same xmlrpc type error, so the unspecified order in
      which C++ evaluates them does not show. */
  function ReadStatus(values: Struct): (r: Result<Status>)
    ensures r.Ok? ==> (GetString(values, "status") == Ok(r.value.message)
                       && GetDouble(values, "seconds") == Ok(r.value.seconds)
                       && Stoi(r.value.message) == Ok(r.value.status))
  {
    var message :- GetString(values, "status");
    var seconds :- GetDouble(values, "seconds");
    SetStatus(message, seconds)
  }

  /** A reply without a status line reads as "", which std::stoi rejects. */
  lemma ReadStatusWithoutStatus(values: Struct)
    requires "status" !in values && GetDouble(values, "seconds").Ok?
    ensures ReadStatus(values) == Err(InvalidArgument)
  {
    assert GetString(values, "status") == Ok("");
    SetStatusRejectsText("", GetDouble(values, "seconds").value);
  }

  /** A reply as the server builds it: `body` plus the status line and the
      time the server took. */
  function Reply(message: string, seconds: real, body: Struct): Value {
    VStruct(body["status" := VString(message)]["seconds" := VDouble(seconds)])
  }

  /** The status part of a reply decodes as SetStatus of its status line. */
  lemma ReadStatusOfReply(message: string, seconds: real, body: Struct)
    ensures ReadStatus(Reply(message, seconds, body).members) == SetStatus(message, seconds)
  {
  }

  /** Replies that agree on status and seconds. */
  predicate SameStatusMembers(a: Struct, b: Struct) {
    ("status" in a <==> "status" in b) && ("status" in a ==> a["status"] == b["status"])
    && ("seconds" in a <==> "seconds" in b) && ("seconds" in a ==> a["seconds"] == b["seconds"])
  }

  // ---------------------------------------------------------------------
  // LogIn

  /** XmlRpcImpl::LogIn: the token is read only when the status line is
      exactly "200 OK"; it stays empty otherwise. */
  function DecodeLogIn(result: Value): Result<LoginResponse> {
    var values :- AsStruct(result);
    var status :- ReadStatus(values);
    var ok :- CheckResponse(values);
    var token :- if ok then GetString(values, "token") else Ok("");
    Ok(LoginResponse(status, token))
  }

  /** Whatever the reply, a decoded token is non-empty only under the status
      line "200 OK", and then it is the reply's token member. */
  lemma LogInTokenOnlyOnOk(result: Value)
    ensures DecodeLogIn(result).Ok? && DecodeLogIn(result).value.status.message != StatusOk ==>
            DecodeLogIn(result).value.token == ""
    ensures DecodeLogIn(result).Ok? && DecodeLogIn(result).value.status.message == StatusOk ==>
            GetString(result.members, "token") == Ok(DecodeLogIn(result).value.token)
  {
  }

  function LoginReply(message: string, seconds: real, token: string): Value {
    Reply(message, seconds, map["token" := VString(token)])
  }

  /** A login reply decodes to its status line and, under "200 OK" only, its
      token. */
  lemma DecodeLoginReply(message: string, seconds: real, token: string)
    requires Stoi(message).Ok?
    ensures DecodeLogIn(LoginReply(message, seconds, token)) ==
            Ok(LoginResponse(Status(Stoi(message).value, message, seconds), if message == StatusOk then token else ""))
  {
    var values := LoginReply(message, seconds, token).members;
    assert values["token"] == VString(token);
    assert ReadStatus(values) == Ok(Status(Stoi(message).value, message, seconds));
  }

  // ---------------------------------------------------------------------
  // Methods whose response is the status alone

  /** LogOut, NoOperation, SearchToMail, ReportWrongMovieHash and AddComment:
      only the status is read. */
  function DecodeStatusOnly(result: Value): Result<StatusResponse> {
    var values :- AsStruct(result);
    var status :- ReadStatus(values);
    Ok(StatusResponse(status))
  }

  /** Members other than status and seconds do not matter. */
  lemma DecodeStatusOnlyIgnoresBody(a: Struct, b: Struct)
    requires SameStatusMembers(a, b)
    ensures DecodeStatusOnly(VStruct(a)) == DecodeStatusOnly(VStruct(b))
  {
    assert GetString(a, "status") == GetString(b, "status");
    assert GetDouble(a, "seconds") == GetDouble(b, "seconds");
    assert ReadStatus(a) == ReadStatus(b);
  }

  /** SubtitlesVote reads the status only; its three result fields stay
      empty. */
  function DecodeSubtitlesVote(result: Value): (r: Result<SubtitlesVoteResponse>)
    ensures r.Ok? ==> r.value.subRatings == "" && r.value.subSumVotes == "" && r.value.idSubtitle == ""
    ensures r.Ok? <==> DecodeStatusOnly(result).Ok?
    ensures r.Ok? ==> r.value.status == DecodeStatusOnly(result).value.status
  {
    var values :- AsStruct(result);
    var status :- ReadStatus(values);
    Ok(SubtitlesVoteResponse(status, "", "", ""))
  }

  // ---------------------------------------------------------------------
  // SearchSubtitles

  /** The string members of a search record: the conversion of any other
      member raises inside a try and is ignored. */
  function StringMembers(m: Struct): (r: map<string, string>)
    ensures r.Keys <= m.Keys
    ensures forall k | k in m :: (k in r <==> m[k].VString?) && (k in r ==> m[k] == VString(r[k]))
  {
    map k | k in m && m[k].VString? :: m[k].str
  }

  /** One element of the data array: a struct (v() raises otherwise) whose
      string members build a SubFile. */
  function SearchRecord(v: Value): Result<SubFile> {
    var m :- AsStruct(v);
    FromMap(StringMembers(m))
  }

  /** XmlRpcImpl::SearchSubtitles: no results unless the status is OK and
      the data member is not a boolean; otherwise one record per element,
      in server order. */
  function DecodeSearch(result: Value): Result<SearchResponse> {
    var values :- AsStruct(result);
    var status :- ReadStatus(values);
    if status.status != OK then Ok(SearchResponse(status, []))
    else
      var data :- Member(values, "data");
      if data.VBool? then Ok(SearchResponse(status, []))
      else
        var items :- AsArray(data);
        var records :- EachItem(items, SearchRecord);
        Ok(SearchResponse(status, records))
  }

  /** A status other than OK gives no results, whatever the data member
      holds, and keeps the decoded status. */
  lemma SearchNotOkIsEmpty(message: string, seconds: real, body: Struct)
    requires SetStatus(message, seconds).Ok? && SetStatus(message, seconds).value.status != OK
    ensures DecodeSearch(Reply(message, seconds, body)) == Ok(SearchResponse(SetStatus(message, seconds).value, []))
  {
    ReadStatusOfReply(message, seconds, body);
  }

  /** A status line that SetStatus reads as OK, such as "200 OK". */
  predicate IsOkStatus(status: Status) {
    SetStatus(status.message, status.seconds) == Ok(status) && status.status == OK
  }

  /** The boolean `false` the server sends for "nothing found" gives no
      results. */
  lemma SearchFalseIsEmpty(status: Status, flag: bool)
    requires IsOkStatus(status)
    ensures DecodeSearch(Reply(status.message, status.seconds, map["data" := VBool(flag)])) ==
            Ok(SearchResponse(status, []))
  {
    var values := Reply(status.message, status.seconds, map["data" := VBool(flag)]).members;
    ReadStatusOfReply(status.message, status.seconds, map["data" := VBool(flag)]);
    assert values["data"] == VBool(flag);
  }

  /** Structs as the elements of an array. */
  function StructItems(records: seq<Struct>): (vs: seq<Value>)
    ensures |vs| == |records| && forall i | 0 <= i < |vs| :: vs[i] == VStruct(records[i])
  {
    seq(|records|, i requires 0 <= i < |records| => VStruct(records[i]))
  }

  /** The search reply a server builds from its records. */
  function SearchReply(status: Status, records: seq<Struct>): Value {
    Reply(status.message, status.seconds, map["data" := VArray(StructItems(records))])
  }

  /** Under OK, the data member must be there, and an array that is not
      the boolean `false` is read element by element. */
  lemma DecodeSearchUnderOk(values: Struct, status: Status)
    requires ReadStatus(values) == Ok(status) && status.status == OK
    requires "data" in values && values["data"].VArray?
    ensures var e := EachItem(values["data"].items, SearchRecord);
            DecodeSearch(VStruct(values)) == if e.Ok? then Ok(SearchResponse(status, e.value)) else Err(e.error)
  {
  }

  /** The members of a reply built from records. */
  lemma SearchReplyMembers(status: Status, records: seq<Struct>)
    requires IsOkStatus(status)
    ensures ReadStatus(SearchReply(status, records).members) == Ok(status)
    ensures "data" in SearchReply(status, records).members
    ensures SearchReply(status, records).members["data"] == VArray(StructItems(records))
  {
    ReadStatusOfReply(status.message, status.seconds, map["data" := VArray(StructItems(records))]);
  }

  /** Under OK, the records are the data array read by EachItem. */
  lemma SearchUnderOk(status: Status, records: seq<Struct>)
    requires IsOkStatus(status)
    ensures var e := EachItem(StructItems(records), SearchRecord);
            DecodeSearch(SearchReply(status, records)) == if e.Ok? then Ok(SearchResponse(status, e.value)) else Err(e.error)
  {
    SearchReplyMembers(status, records);
    DecodeSearchUnderOk(SearchReply(status, records).members, status);
  }

  /** The data array of records read element by element: every record
      must build a SubFile, and a record that cannot is std::out_of_range. */
  lemma SearchRecordsOf(records: seq<Struct>)
    ensures var e := EachItem(StructItems(records), SearchRecord);
            && (e.Ok? <==> forall i | 0 <= i < |records| :: FromMap(StringMembers(records[i])).Ok?)
            && (e.Ok? ==> |e.value| == |records|
                          && forall i | 0 <= i < |records| :: FromMap(StringMembers(records[i])) == Ok(e.value[i]))
            && (e.Err? ==> e.error == OutOfRange)
  {
    var items := StructItems(records);
    assert forall i | 0 <= i < |records| :: SearchRecord(items[i]) == FromMap(StringMembers(records[i]));
    forall i | 0 <= i < |records|
      ensures FromMap(StringMembers(records[i])).Err? ==> FromMap(StringMembers(records[i])).error == OutOfRange
    {
      FromMapSucceedsIff(StringMembers(records[i]));
    }
  }

  /** Under OK, each record decodes on its own, in order, and the first
      record that cannot build a SubFile fails the whole search. */
  lemma SearchDecodesEachRecord(status: Status, records: seq<Struct>)
    requires IsOkStatus(status)
    ensures var r := DecodeSearch(SearchReply(status, records));
            && (r.Ok? <==> forall i | 0 <= i < |records| :: FromMap(StringMembers(records[i])).Ok?)
            && (r.Ok? ==> r.value.status == status && |r.value.data| == |records|
                          && forall i | 0 <= i < |records| :: FromMap(StringMembers(records[i])) == Ok(r.value.data[i]))
            && (r.Err? ==> r.error == OutOfRange)
  {
    SearchUnderOk(status, records);
    SearchRecordsOf(records);
  }

  /** A record carrying a SubFile's strings plus members of other types. */
  function RecordOf(file: SubFile, junk: Struct): Struct {
    junk + StringStruct(ToMap(file))
  }

  /** Non-string members of a record are dropped before the SubFile is
      built, so such a record builds the SubFile it carries. */
  lemma RecordOfBuilds(file: SubFile, junk: Struct)
    requires forall k | k in junk :: !junk[k].VString?
    ensures FromMap(StringMembers(RecordOf(file, junk))) == Ok(file)
  {
    var d, m := RecordOf(file, junk), ToMap(file);
    var r := StringMembers(d);
    forall k | k in m
      ensures k in r && r[k] == m[k]
    {
      assert d[k] == StringStruct(m)[k] == VString(m[k]);
    }
    assert r.Keys == m.Keys;
    assert r == m;
    FromMapToMap(file);
  }

  function RecordsOf(files: seq<SubFile>, junk: seq<Struct>): (rs: seq<Struct>)
    requires |junk| == |files|
    ensures |rs| == |files| && forall i | 0 <= i < |rs| :: rs[i] == RecordOf(files[i], junk[i])
  {
    seq(|files|, i requires 0 <= i < |files| => RecordOf(files[i], junk[i]))
  }

  /** SubFiles sent as string structs come back whole and in order, and
      non-string members added to a record change nothing. */
  lemma SearchRoundTrip(status: Status, files: seq<SubFile>, junk: seq<Struct>)
    requires IsOkStatus(status)
    requires |junk| == |files|
    requires forall i | 0 <= i < |junk| :: forall k | k in junk[i] :: !junk[i][k].VString?
    ensures DecodeSearch(SearchReply(status, RecordsOf(files, junk))) == Ok(SearchResponse(status, files))
  {
    var records := RecordsOf(files, junk);
    forall i | 0 <= i < |files|
      ensures FromMap(StringMembers(records[i])) == Ok(files[i])
    {
      RecordOfBuilds(files[i], junk[i]);
    }
    SearchRecordsOf(records);
    var e := EachItem(StructItems(records), SearchRecord);
    assert e.value == files;
    SearchUnderOk(status, records);
  }

  // ---------------------------------------------------------------------
  // DownloadSubtitles

  /** One element of the data array: (s(idsubtitlefile), s(data)). */
  function DownloadEntry(v: Value): Result<(string, string)> {
    var m :- AsStruct(v);
    var id :- GetString(m, "idsubtitlefile");
    var payload :- GetString(m, "data");
    Ok((id, payload))
  }

  /** XmlRpcImpl::DownloadSubtitles: the data array is read only when the
      status is OK. */
  function DecodeDownload(result: Value): Result<DownloadResponse> {
    var values :- AsStruct(result);
    var status :- ReadStatus(values);
    if status.status != OK then Ok(DownloadResponse(status, []))
    else
      var data :- Member(values, "data");
      var items :- AsArray(data);
      var subtitles :- EachItem(items, DownloadEntry);
      Ok(DownloadResponse(status, subtitles))
  }

  /** A status other than OK downloads nothing. */
  lemma DownloadNotOkIsEmpty(message: string, seconds: real, body: Struct)
    requires SetStatus(message, seconds).Ok? && SetStatus(message, seconds).value.status != OK
    ensures DecodeDownload(Reply(message, seconds, body)) == Ok(DownloadResponse(SetStatus(message, seconds).value, []))
  {
    ReadStatusOfReply(message, seconds, body);
  }

  function DownloadItem(entry: (string, string)): Value {
    VStruct(map["idsubtitlefile" := VString(entry.0), "data" := VString(entry.1)])
  }

  function DownloadItems(entries: seq<(string, string)>): (vs: seq<Value>)
    ensures |vs| == |entries| && forall i | 0 <= i < |vs| :: vs[i] == DownloadItem(entries[i])
  {
    seq(|entries|, i requires 0 <= i < |entries| => DownloadItem(entries[i]))
  }

  /** Downloaded (id, payload) pairs come back one per element, in order. */
  lemma DownloadRoundTrip(status: Status, entries: seq<(string, string)>)
    requires IsOkStatus(status)
    ensures DecodeDownload(Reply(status.message, status.seconds, map["data" := VArray(DownloadItems(entries))])) ==
            Ok(DownloadResponse(status, entries))
  {
    var items := DownloadItems(entries);
    forall i | 0 <= i < |items|
      ensures DownloadEntry(items[i]) == Ok(entries[i])
    {
      var m := items[i].members;
      assert m["idsubtitlefile"] == VString(entries[i].0) && m["data"] == VString(entries[i].1);
    }
    var r := EachItem(items, DownloadEntry);
    assert r.value == entries;
    var values := Reply(status.message, status.seconds, map["data" := VArray(items)]).members;
    ReadStatusOfReply(status.message, status.seconds, map["data" := VArray(items)]);
    assert values["data"] == VArray(items);
  }
}
