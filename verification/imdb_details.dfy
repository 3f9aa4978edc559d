/** XmlRpcImpl::GetImdbMovieDetails of src/rpc_impl.cc.  The status and the
    data struct are read outside any try, so a failure there raises; the
    seventeen fields are then read inside a try whose catch(...) swallows
    everything, so the response keeps whatever was filled in before the
    first read that raised, including the part of a map or list copied
    before its first non-string element. */
module ImdbDetailsDecode {
  import opened Wrappers
  import opened Text
  import opened XmlRpc
  import opened Statuses
  import opened Types
  import opened RpcDecode

  /** The simple fields, in the order they are read. */
  const TextKeys: seq<string> :=
    ["id", "title", "year", "cover", "awards", "duration", "tagline", "plot", "goofs", "trivia", "request_from"]

  lemma TextKeysDistinct()
    ensures forall i, j | 0 <= i < j < |TextKeys| :: TextKeys[i] != TextKeys[j]
  {
  }

  /** The simple fields of a response, in the order they are read. */
  function Texts(x: ImdbDetails): (t: seq<string>)
    ensures |t| == |TextKeys|
  {
    [x.id, x.title, x.year, x.cover, x.awards, x.duration, x.tagline, x.plot, x.goofs, x.trivia, x.requestFrom]
  }

  /** `x` with its first |vs| simple fields set to `vs`. */
  function WithTexts(x: ImdbDetails, vs: seq<string>): (r: ImdbDetails)
    requires |vs| <= |TextKeys|
    ensures Texts(r) == vs + Texts(x)[|vs|..]
    ensures r.cast == x.cast && r.directors == x.directors && r.writers == x.writers
    ensures r.genres == x.genres && r.countries == x.countries && r.languages == x.languages
    ensures r.certifications == x.certifications
  {
    var t := vs + Texts(x)[|vs|..];
    x.(id := t[0], title := t[1], year := t[2], cover := t[3], awards := t[4], duration := t[5],
       tagline := t[6], plot := t[7], goofs := t[8], trivia := t[9], requestFrom := t[10])
  }

  /** The s() reads of the simple fields, up to the first that raises. */
  function ReadTexts(d: Struct, keys: seq<string>): (r: Filled<seq<string>>)
    ensures |r.value| <= |keys|
    ensures forall i | 0 <= i < |r.value| :: GetString(d, keys[i]) == Ok(r.value[i])
    ensures r.complete <==> |r.value| == |keys|
    ensures !r.complete ==> GetString(d, keys[|r.value|]).Err?
  {
    if |keys| == 0 then Filled([], true)
    else
      var first := GetString(d, keys[0]);
      if first.Err? then Filled([], false)
      else
        var rest := ReadTexts(d, keys[1..]);
        assert forall i | 1 <= i <= |rest.value| :: keys[i] == keys[1..][i - 1];
        Filled([first.value] + rest.value, rest.complete)
  }

  /** The body of the try: the simple fields, then the three maps, then
      the three lists, each step only if every earlier one ran to the end. */
  function FillDetails(d: Struct): ImdbDetails {
    var texts := ReadTexts(d, TextKeys);
    var r := WithTexts(EmptyDetails, texts.value);
    if !texts.complete then r else FillMaps(d, r)
  }

  /** The ToStrMap steps: cast, directors, writers. */
  function FillMaps(d: Struct, r: ImdbDetails): ImdbDetails {
    var cast := ToStrMap(d, "cast", r.cast);
    var r := r.(cast := cast.value);
    if !cast.complete then r
    else
      var directors := ToStrMap(d, "directors", r.directors);
      var r := r.(directors := directors.value);
      if !directors.complete then r
      else
        var writers := ToStrMap(d, "writers", r.writers);
        var r := r.(writers := writers.value);
        if !writers.complete then r else FillLists(d, r)
  }

  /** The ToStrVector steps: genres, countries, languages. */
  function FillLists(d: Struct, r: ImdbDetails): ImdbDetails {
    var genres := ToStrVector(d, "genres", r.genres);
    var r := r.(genres := genres.value);
    if !genres.complete then r
    else
      var countries := ToStrVector(d, "countries", r.countries);
      var r := r.(countries := countries.value);
      if !countries.complete then r
      else
        var languages := ToStrVector(d, "languages", r.languages);
        r.(languages := languages.value)
  }

  /** XmlRpcImpl::GetImdbMovieDetails */
  function DecodeGetImdbMovieDetails(result: Value): Result<GetImdbMovieDetailsResponse> {
    var values :- AsStruct(result);
    var status :- ReadStatus(values);
    var data :- Member(values, "data");
    var fields :- AsStruct(data);
    Ok(GetImdbMovieDetailsResponse(status, FillDetails(fields)))
  }

  /** The data struct is read outside the try: a reply without one raises. */
  lemma ImdbDetailsNeedData(values: Struct)
    requires ReadStatus(values).Ok?
    requires "data" !in values || !values["data"].VStruct?
    ensures DecodeGetImdbMovieDetails(VStruct(values)) == Err(TypeMismatch)
  {
  }

  /** Whatever the data struct holds, the decoder does not raise once the
      status and the struct have been read. */
  lemma ImdbDetailsNeverRaiseInside(message: string, seconds: real, fields: Struct)
    requires SetStatus(message, seconds).Ok?
    ensures DecodeGetImdbMovieDetails(Reply(message, seconds, map["data" := VStruct(fields)])) ==
            Ok(GetImdbMovieDetailsResponse(SetStatus(message, seconds).value, FillDetails(fields)))
  {
    var body := map["data" := VStruct(fields)];
    ReadStatusOfReply(message, seconds, body);
    assert Reply(message, seconds, body).members["data"] == VStruct(fields);
  }

  // ---------------------------------------------------------------------
  // A complete data struct

  /** Every field that is read, simple ones first. */
  const AllKeys: seq<string> := TextKeys + ["cast", "directors", "writers", "genres", "countries", "languages"]

  lemma AllKeysDistinct()
    ensures forall i, j | 0 <= i < j < |AllKeys| :: AllKeys[i] != AllKeys[j]
  {
  }

  /** The member a server sends for field `i` of `x`. */
  function FieldValue(x: ImdbDetails, i: nat): Value
    requires i < |AllKeys|
  {
    if i < |TextKeys| then VString(Texts(x)[i])
    else
      [VStruct(StringStruct(x.cast)), VStruct(StringStruct(x.directors)), VStruct(StringStruct(x.writers)),
       StringArray(x.genres), StringArray(x.countries), StringArray(x.languages)][i - |TextKeys|]
  }

  /** The data struct a server sends for `x`. */
  function DetailsData(x: ImdbDetails): Struct {
    AllKeysDistinct();
    map i | 0 <= i < |AllKeys| :: AllKeys[i] := FieldValue(x, i)
  }

  lemma DetailsDataAt(x: ImdbDetails)
    ensures forall i | 0 <= i < |AllKeys| :: AllKeys[i] in DetailsData(x) && DetailsData(x)[AllKeys[i]] == FieldValue(x, i)
  {
    AllKeysDistinct();
  }

  lemma DetailsDataMembers(x: ImdbDetails)
    ensures forall i | 0 <= i < |TextKeys| :: TextKeys[i] in DetailsData(x) && DetailsData(x)[TextKeys[i]] == VString(Texts(x)[i])
    ensures "cast" in DetailsData(x) && DetailsData(x)["cast"] == VStruct(StringStruct(x.cast))
    ensures "directors" in DetailsData(x) && DetailsData(x)["directors"] == VStruct(StringStruct(x.directors))
    ensures "writers" in DetailsData(x) && DetailsData(x)["writers"] == VStruct(StringStruct(x.writers))
    ensures "genres" in DetailsData(x) && DetailsData(x)["genres"] == StringArray(x.genres)
    ensures "countries" in DetailsData(x) && DetailsData(x)["countries"] == StringArray(x.countries)
    ensures "languages" in DetailsData(x) && DetailsData(x)["languages"] == StringArray(x.languages)
  {
    DetailsDataAt(x);
    assert forall i | 0 <= i < |TextKeys| :: AllKeys[i] == TextKeys[i];
    assert AllKeys[11] == "cast" && AllKeys[12] == "directors" && AllKeys[13] == "writers";
    assert AllKeys[14] == "genres" && AllKeys[15] == "countries" && AllKeys[16] == "languages";
  }

  lemma ReadAllTexts(x: ImdbDetails)
    ensures ReadTexts(DetailsData(x), TextKeys) == Filled(Texts(x), true)
  {
    var d := DetailsData(x);
    DetailsDataMembers(x);
    assert forall i | 0 <= i < |TextKeys| :: GetString(d, TextKeys[i]) == Ok(Texts(x)[i]);
    var r := ReadTexts(d, TextKeys);
    assert r.complete;
    assert r.value == Texts(x);
  }

  /** Three maps sent as structs of strings are copied whole. */
  lemma MapsOfStrings(d: Struct, cast: map<string, string>, directors: map<string, string>, writers: map<string, string>, r: ImdbDetails)
    requires "cast" in d && d["cast"] == VStruct(StringStruct(cast))
    requires "directors" in d && d["directors"] == VStruct(StringStruct(directors))
    requires "writers" in d && d["writers"] == VStruct(StringStruct(writers))
    requires r.cast == map[] && r.directors == map[] && r.writers == map[]
    ensures FillMaps(d, r) == FillLists(d, r.(cast := cast, directors := directors, writers := writers))
  {
    ToStrMapOfStringStruct(d, "cast", cast, map[]);
    ToStrMapOfStringStruct(d, "directors", directors, map[]);
    ToStrMapOfStringStruct(d, "writers", writers, map[]);
    assert map[] + cast == cast && map[] + directors == directors && map[] + writers == writers;
  }

  /** Three lists sent as arrays of strings are copied whole. */
  lemma ListsOfStrings(d: Struct, genres: seq<string>, countries: seq<string>, languages: seq<string>, r: ImdbDetails)
    requires "genres" in d && d["genres"] == StringArray(genres)
    requires "countries" in d && d["countries"] == StringArray(countries)
    requires "languages" in d && d["languages"] == StringArray(languages)
    requires r.genres == [] && r.countries == [] && r.languages == []
    ensures FillLists(d, r) == r.(genres := genres, countries := countries, languages := languages)
  {
    ToStrVectorOfStringArray(d, "genres", genres, []);
    ToStrVectorOfStringArray(d, "countries", countries, []);
    ToStrVectorOfStringArray(d, "languages", languages, []);
    assert [] + genres == genres && [] + countries == countries && [] + languages == languages;
  }

  /** A data struct holding every field as the server sends it gives back
      every field; the certifications are never read. */
  lemma ImdbDetailsRoundTrip(x: ImdbDetails)
    requires x.certifications == []
    ensures FillDetails(DetailsData(x)) == x
  {
    var d := DetailsData(x);
    DetailsDataMembers(x);
    ReadAllTexts(x);
    var r := WithTexts(EmptyDetails, Texts(x));
    MapsOfStrings(d, x.cast, x.directors, x.writers, r);
    var r' := r.(cast := x.cast, directors := x.directors, writers := x.writers);
    ListsOfStrings(d, x.genres, x.countries, x.languages, r');
    var y := r'.(genres := x.genres, countries := x.countries, languages := x.languages);
    assert Texts(y) == Texts(x);
    assert y == x;
  }

  // ---------------------------------------------------------------------
  // Where the try stops

  /** A simple field that raises keeps the ones read before it and leaves
      every later field empty. */
  lemma ImdbDetailsStopAtText(d: Struct)
    requires !ReadTexts(d, TextKeys).complete
    ensures var n := |ReadTexts(d, TextKeys).value|;
            var r := FillDetails(d);
            && GetString(d, TextKeys[n]).Err?
            && (forall i | 0 <= i < n :: GetString(d, TextKeys[i]) == Ok(Texts(r)[i]))
            && (forall i | n <= i < |TextKeys| :: Texts(r)[i] == "")
            && r.cast == map[] && r.directors == map[] && r.writers == map[]
            && r.genres == [] && r.countries == [] && r.languages == []
  {
    var texts := ReadTexts(d, TextKeys);
    var r := FillDetails(d);
    assert r == WithTexts(EmptyDetails, texts.value);
    assert Texts(r) == texts.value + Texts(EmptyDetails)[|texts.value|..];
  }

  /** A cast that is not all strings keeps every simple field and the cast
      members before the first non-string one, and leaves the later maps
      and lists empty. */
  lemma ImdbDetailsStopInCast(d: Struct)
    requires ReadTexts(d, TextKeys).complete
    requires "cast" in d && d["cast"].VStruct? && !AllStrings(d["cast"].members)
    ensures var r := FillDetails(d);
            && Texts(r) == ReadTexts(d, TextKeys).value
            && r.cast == StringPrefix(d["cast"].members)
            && r.directors == map[] && r.writers == map[]
            && r.genres == [] && r.countries == [] && r.languages == []
  {
    var texts := ReadTexts(d, TextKeys);
    assert texts.value + Texts(EmptyDetails)[|texts.value|..] == texts.value;
  }

  /** A genre list that is not all strings keeps the simple fields and all
      three maps, and the genres before the first non-string one; the
      countries and languages stay empty. */
  lemma ImdbDetailsStopInGenres(d: Struct)
    requires ReadTexts(d, TextKeys).complete
    requires ToStrMap(d, "cast", map[]).complete && ToStrMap(d, "directors", map[]).complete
    requires ToStrMap(d, "writers", map[]).complete
    requires "genres" in d && d["genres"].VArray?
    requires !forall i | 0 <= i < |d["genres"].items| :: d["genres"].items[i].VString?
    ensures var r := FillDetails(d);
            var items := d["genres"].items;
            && Texts(r) == ReadTexts(d, TextKeys).value
            && r.cast == ToStrMap(d, "cast", map[]).value
            && r.directors == ToStrMap(d, "directors", map[]).value
            && r.writers == ToStrMap(d, "writers", map[]).value
            && |r.genres| < |items|
            && (forall i | 0 <= i < |r.genres| :: items[i] == VString(r.genres[i]))
            && !items[|r.genres|].VString?
            && r.countries == [] && r.languages == []
  {
    var texts := ReadTexts(d, TextKeys);
    var r0 := WithTexts(EmptyDetails, texts.value);
    assert texts.value + Texts(EmptyDetails)[|texts.value|..] == texts.value;
    var r1 := r0.(cast := ToStrMap(d, "cast", map[]).value, directors := ToStrMap(d, "directors", map[]).value,
                  writers := ToStrMap(d, "writers", map[]).value);
    assert FillDetails(d) == FillLists(d, r1);
    ToStrVectorAppends(d, "genres", []);
  }
}
