/** XmlRpcImpl::ServerInfo of src/rpc_impl.cc.  The reply carries no status
    line.  Fifteen members are read in order; the three user counts are
    read with i() and assigned to std::string fields; then every member of
    last_update_strings is copied with ds().  Every read that fails raises
    the xmlrpc type error and nothing of the response survives. */
module ServerInfoDecode {
  import opened Wrappers
  import opened Text
  import opened XmlRpc
  import opened Types

  /** The members read, in the order they are read. */
  const ServerKeys: seq<string> :=
    ["xmlrpc_version", "xmlrpc_url", "application", "contact", "website_url",
     "users_online_total", "users_online_program", "users_loggedin",
     "users_max_alltime", "users_registered", "subs_downloads", "subs_subtitle_files",
     "movies_total", "movies_aka", "total_subtitles_languages"]

  lemma ServerKeysDistinct()
    ensures forall i, j | 0 <= i < j < |ServerKeys| :: ServerKeys[i] != ServerKeys[j]
    ensures "last_update_strings" !in ServerKeys
  {
  }

  /** The positions read with i() rather than s(). */
  predicate IsCount(i: nat) {
    5 <= i < 8
  }

  /** `std::string field = int64_t`: std::string's assignment from a char,
      so the field holds the one char the value converts to. */
  function CountAsChar(n: Int32): string {
    [(n % 256) as char]
  }

  /** std::to_string, what the assignment evidently means. */
  function CountAsDecimal(n: Int32): string {
    ToDecimal(n)
  }

  /** Read member `i`: s() for a text field, i() rendered by `count` for a
      user count. */
  function ReadField(d: Struct, count: Int32 -> string, i: nat): Result<string>
    requires i < |ServerKeys|
  {
    if IsCount(i) then
      var n :- GetInt(d, ServerKeys[i]);
      Ok(count(n))
    else GetString(d, ServerKeys[i])
  }

  /** The reads from member `i` on; the first that raises ends the call. */
  function ReadFields(d: Struct, count: Int32 -> string, i: nat): (r: Result<seq<string>>)
    requires i <= |ServerKeys|
    ensures r.Ok? <==> forall j | i <= j < |ServerKeys| :: ReadField(d, count, j).Ok?
    ensures r.Ok? ==> |r.value| == |ServerKeys| - i
                      && forall j | i <= j < |ServerKeys| :: ReadField(d, count, j) == Ok(r.value[j - i])
    ensures r.Err? ==> r.error == TypeMismatch
    decreases |ServerKeys| - i
  {
    if i == |ServerKeys| then Ok([])
    else
      var first :- ReadField(d, count, i);
      var rest :- ReadFields(d, count, i + 1);
      Ok([first] + rest)
  }

  /** The fifteen string fields of a response, in the order they are read. */
  function ServerFields(x: ServerInfoResponse): (v: seq<string>)
    ensures |v| == |ServerKeys|
  {
    [x.xmlrpcVersion, x.xmlrpcUrl, x.application, x.contact, x.websiteUrl,
     x.usersOnlineTotal, x.usersOnlineProgram, x.usersLoggedin,
     x.usersMaxAlltime, x.usersRegistered, x.subsDownloads, x.subsSubtitleFiles,
     x.moviesTotal, x.moviesAka, x.totalSubtitlesLanguages]
  }

  /** The response whose string fields, in reading order, are `v`. */
  function FromServerFields(v: seq<string>, updates: map<string, string>): (x: ServerInfoResponse)
    requires |v| == |ServerKeys|
    ensures ServerFields(x) == v && x.lastUpdateStrings == updates
  {
    ServerInfoResponse(v[0], v[1], v[2], v[3], v[4], v[5], v[6], v[7], v[8], v[9], v[10], v[11], v[12], v[13], v[14], updates)
  }

  /** ServerInfo with the user counts rendered by `count`. */
  function DecodeServerInfoWith(result: Value, count: Int32 -> string): Result<ServerInfoResponse> {
    var values :- AsStruct(result);
    var fields :- ReadFields(values, count, 0);
    var langs :- Member(values, "last_update_strings");
    var updates :- AsStruct(langs);
    var strings :- EachMember(updates, StringOf);
    Ok(FromServerFields(fields, strings))
  }

  /** XmlRpcImpl::ServerInfo as written. */
  function DecodeServerInfo(result: Value): Result<ServerInfoResponse> {
    DecodeServerInfoWith(result, CountAsChar)
  }

  /** XmlRpcImpl::ServerInfo with the counts written in decimal. */
  function DecodeServerInfoIntended(result: Value): Result<ServerInfoResponse> {
    DecodeServerInfoWith(result, CountAsDecimal)
  }

  // ---------------------------------------------------------------------
  // Replies

  /** The member a server sends at position `i`. */
  function SentValue(x: ServerInfoResponse, total: Int32, program: Int32, loggedin: Int32, i: nat): Value
    requires i < |ServerKeys|
  {
    if i == 5 then VInt(total)
    else if i == 6 then VInt(program)
    else if i == 7 then VInt(loggedin)
    else VString(ServerFields(x)[i])
  }

  /** The reply a server sends: the text fields of `x`, the three user
      counts as ints and the update times of `x`. */
  function ServerInfoReply(x: ServerInfoResponse, total: Int32, program: Int32, loggedin: Int32): Value {
    ServerKeysDistinct();
    VStruct((map i | 0 <= i < |ServerKeys| :: ServerKeys[i] := SentValue(x, total, program, loggedin, i))
            ["last_update_strings" := VStruct(StringStruct(x.lastUpdateStrings))])
  }

  lemma ServerInfoReplyAt(x: ServerInfoResponse, total: Int32, program: Int32, loggedin: Int32)
    ensures var d := ServerInfoReply(x, total, program, loggedin).members;
            && (forall i | 0 <= i < |ServerKeys| :: ServerKeys[i] in d && d[ServerKeys[i]] == SentValue(x, total, program, loggedin, i))
            && "last_update_strings" in d && d["last_update_strings"] == VStruct(StringStruct(x.lastUpdateStrings))
  {
    ServerKeysDistinct();
  }

  /** The fields `count` makes of a reply. */
  function Rendered(x: ServerInfoResponse, count: Int32 -> string, total: Int32, program: Int32, loggedin: Int32): ServerInfoResponse {
    x.(usersOnlineTotal := count(total), usersOnlineProgram := count(program), usersLoggedin := count(loggedin))
  }

  lemma ReadFieldOfReply(x: ServerInfoResponse, count: Int32 -> string, total: Int32, program: Int32, loggedin: Int32, j: nat)
    requires j < |ServerKeys|
    ensures ReadField(ServerInfoReply(x, total, program, loggedin).members, count, j) ==
            Ok(ServerFields(Rendered(x, count, total, program, loggedin))[j])
  {
    ServerInfoReplyAt(x, total, program, loggedin);
  }

  lemma ReadFieldsOfReply(x: ServerInfoResponse, count: Int32 -> string, total: Int32, program: Int32, loggedin: Int32)
    ensures ReadFields(ServerInfoReply(x, total, program, loggedin).members, count, 0) ==
            Ok(ServerFields(Rendered(x, count, total, program, loggedin)))
  {
    var d := ServerInfoReply(x, total, program, loggedin).members;
    var y := Rendered(x, count, total, program, loggedin);
    forall j | 0 <= j < |ServerKeys|
      ensures ReadField(d, count, j) == Ok(ServerFields(y)[j])
    {
      ReadFieldOfReply(x, count, total, program, loggedin, j);
    }
    assert ReadFields(d, count, 0).value == ServerFields(y);
  }

  /** A reply decodes to its text fields and update times, with the user
      counts rendered by `count`. */
  lemma ServerInfoRoundTrip(x: ServerInfoResponse, count: Int32 -> string, total: Int32, program: Int32, loggedin: Int32)
    ensures DecodeServerInfoWith(ServerInfoReply(x, total, program, loggedin), count) ==
            Ok(Rendered(x, count, total, program, loggedin))
  {
    ServerInfoReplyAt(x, total, program, loggedin);
    ReadFieldsOfReply(x, count, total, program, loggedin);
    StringOfStringStruct(x.lastUpdateStrings);
    var y := Rendered(x, count, total, program, loggedin);
    assert FromServerFields(ServerFields(y), x.lastUpdateStrings) == y;
  }

  /** Every failure is the xmlrpc type error; a reply without the update
      times raises even when every other field is there. */
  lemma ServerInfoNeedsUpdateTimes(values: Struct)
    requires "last_update_strings" !in values
    ensures DecodeServerInfoWith(VStruct(values), CountAsChar) == Err(TypeMismatch)
    ensures DecodeServerInfoWith(VStruct(values), CountAsDecimal) == Err(TypeMismatch)
  {
  }

  /** One update time that is not a string fails the whole call. */
  lemma ServerInfoAllOrNothing(values: Struct, count: Int32 -> string, lang: string)
    requires ReadFields(values, count, 0).Ok?
    requires "last_update_strings" in values && values["last_update_strings"].VStruct?
    requires lang in values["last_update_strings"].members && !values["last_update_strings"].members[lang].VString?
    ensures DecodeServerInfoWith(VStruct(values), count) == Err(TypeMismatch)
  {
    assert StringOf(values["last_update_strings"].members[lang]) == None;
  }

  // ---------------------------------------------------------------------
  // The user counts

  /** As written, each user count becomes a one-char string holding the
      count's low byte. */
  lemma ServerInfoCountsAsWritten(x: ServerInfoResponse, total: Int32, program: Int32, loggedin: Int32)
    ensures var r := DecodeServerInfo(ServerInfoReply(x, total, program, loggedin));
            && r.Ok?
            && |r.value.usersOnlineTotal| == 1 && r.value.usersOnlineTotal[0] as int == total % 256
            && |r.value.usersOnlineProgram| == 1 && r.value.usersOnlineProgram[0] as int == program % 256
            && |r.value.usersLoggedin| == 1 && r.value.usersLoggedin[0] as int == loggedin % 256
  {
    ServerInfoRoundTrip(x, CountAsChar, total, program, loggedin);
  }

  /** A count of 1234 users becomes the char 0xD2, which does not read back
      as a number. */
  lemma CountOf1234AsWritten()
    ensures CountAsChar(1234) == [210 as char]
    ensures Stoi(CountAsChar(1234)) == Err(InvalidArgument)
  {
    assert 1234 % 256 == 210;
    var c := CountAsChar(1234);
    assert c[0] == 210 as char;
    assert !(IsSpace(c[0]) || IsDigit(c[0]) || c[0] == '+' || c[0] == '-');
    StoiRejectsNonNumeric(c);
  }

  /** Written in decimal, every user count reads back with std::stoi. */
  lemma ServerInfoCountsIntended(x: ServerInfoResponse, total: Int32, program: Int32, loggedin: Int32)
    ensures var r := DecodeServerInfoIntended(ServerInfoReply(x, total, program, loggedin));
            && r.Ok?
            && Stoi(r.value.usersOnlineTotal) == Ok(total)
            && Stoi(r.value.usersOnlineProgram) == Ok(program)
            && Stoi(r.value.usersLoggedin) == Ok(loggedin)
  {
    ServerInfoRoundTrip(x, CountAsDecimal, total, program, loggedin);
    DecimalReadsBack(total);
    DecimalReadsBack(program);
    DecimalReadsBack(loggedin);
  }

  lemma DecimalReadsBack(n: Int32)
    ensures Stoi(CountAsDecimal(n)) == Ok(n)
  {
    StoiReadsDecimal(n, "");
    assert ToDecimal(n) + "" == ToDecimal(n);
  }
}
