# subtle in Dafny

A model of libsubtle, the C++ client library for the OpenSubtitles XML-RPC
service. The model has three parts:

- **The movie hash** (`Hasher` in src/hash.h). The hash is the file size
  plus the 64-bit little-endian words of the first 64 KiB and of a second
  64 KiB window, modulo 2^64. It is rendered as 16 lower-case hex digits.
  - The file is an `ifstream`, modelled as a byte sequence with a read
    position, an eofbit and a failbit.
  - Below 64 KiB, the first read loop ends on a failed read. The C++11
    `seekg` clears eofbit only, so the second loop reads nothing.
  - Between 64 KiB and 128 KiB the two windows overlap, and the shared
    words count twice.
  - The second window's offset goes through `Max(int, int)`.
- **The wire format** (`XmlRpcImpl` in src/rpc_impl.cc, the typed requests
  and responses of src/types.h, the `SubFile` constructor of
  src/subfile.cc).
  - An XML-RPC value is a datatype (`XmlRpc.Value`).
  - Each remote method has an encoder (`RpcEncode`) from the typed request
    to the method name and parameters.
  - Each remote method has a decoder (`RpcDecode`, `RpcLookup`,
    `ServerInfoDecode`, `ImdbDetailsDecode`) from the returned value to the
    typed response, or to the exception the C++ code raises.
  - Every exception is a `Wrappers.Error`:
    - the xmlrpc type error (`TypeMismatch`);
    - `std::stoi`'s `invalid_argument` and `out_of_range`;
    - `map::at`'s `out_of_range`;
    - `SubtleException`.
- **The session** (`Subtle` in src/subtle.cc).
  - A `Session.Subtle` value holds the login token and the calls made on
    the client, in order.
  - The client's replies are parameters of each operation.

The modules are:

- `Wrappers`: `Option`, `Result`, `Error`.
- `Text`: fixed-width integers, `std::stoi`, `std::to_string`, the order of
  `std::string` keys in a `std::map`.
- `Hash`: the hash and its hex rendering.
- `XmlRpc`: values, and the accessors `ds`, `s`, `i`, `d`, `v`,
  `CheckResponse`, `ToStrMap`, `ToStrVector`.
- `SubFiles`: `SubFile` and its constructor from a string map.
- `Statuses`: the `Status` enum and `Response::SetStatus`.
- `Types`: the requests and responses, and their constructors.
- `RpcEncode`: the request side of every method, with a parser for each
  call shape to state round trips.
- `RpcDecode`: the reply side of LogIn, LogOut, NoOperation,
  SearchSubtitles, SearchToMail, DownloadSubtitles, ReportWrongMovieHash,
  SubtitlesVote and AddComment.
- `RpcLookup`: the reply side of CheckMovieHash, CheckSubHash,
  GetSubLanguages, GetAvailableTranslations, DetectLanguage,
  GetTranslation, AutoUpdate, SearchMoviesOnImdb and InsertMovie.
- `ImdbDetailsDecode`: GetIMDBMovieDetails and its partial results.
- `ServerInfoDecode`: ServerInfo.
- `Session`: the `Subtle` constructor, destructor, `SearchSubtitles` and
  `DownloadSubtitles`.

Conventions:

- Strings are `seq<char>`, one char per byte of the `std::string`.
- Doubles are `real` values that are carried and never computed with.
- `std::map` iterates its keys in `Text.LexLess` order.
  - Where a loop over a map can stop part-way (`ToStrMap` inside
    GetIMDBMovieDetails), the model states which keys it reached.
  - Everywhere else the loop either finishes or raises, and its order does
    not show.
- An absent member that the C++ code takes with `values[k]` is an
  uninstantiated xmlrpc value. Using it raises the type error, so:
  - `Member`, `GetInt` and `GetDouble` answer `TypeMismatch` for an absent
    key;
  - `s()` (`XmlRpc.GetString`) answers `""`.

## Model

| member | source | states |
|---|---|---|
| Hash.ComputeHash | src/hash.h:19-35 | The two read loops and the seek, run on the stream model, compute `HashOf`: the size plus the words of the first window and of the window at `TailOffset`, modulo 2^64 |
| Hash.ReadFrom | src/hash.h:27-29 | One read loop reads at most 8192 whole words: all 8192 when a full window remains, otherwise every whole word up to the end; a trailing partial word is never added |
| Hash.ReadWindow | src/hash.h:27-33 | A read loop on a failed stream reads nothing and keeps the stream failed; on a good stream it computes the functional `WindowRead` |
| Hash.TailOffset | src/hash.h:30 | The second window lies inside the file, and it starts at size − 65536 whenever that difference fits in an `int` |
| Hash.TwoWindowsHash | src/hash.h:22-33 | The seek after the first loop leaves a failed stream failed and otherwise lands on `TailOffset`; the second loop completes the closed form |
| Hash.SmallFileHash | src/hash.h:26-33 | Below 64 KiB the hash is the size plus the file's whole words, modulo 2^64 |
| Hash.LargeFileHash | src/hash.h:26-33 | From 64 KiB up to 2^31 + 64 KiB the hash is the size plus the words of the first 64 KiB plus those of the last 64 KiB, modulo 2^64 |
| Hash.OverlapCountedTwice | src/hash.h:27-33 | For sizes from 64 KiB to 128 KiB that are a multiple of 8, the words shared by both windows are counted twice |
| Hash.WholeWindowCountedTwice | src/hash.h:27-33 | A file of exactly 64 KiB counts each of its words twice |
| Hash.EmptyFileHash | src/hash.h:26 | The empty file hashes to 0, rendered "0000000000000000" |
| Hash.Hex | src/hash.h:39 | The rendering has exactly the requested width and only lower-case hex digits |
| Hash.HexRoundTrip | src/hash.h:39 | Reading the zero-padded hex rendering back gives the number |
| Hash.ComputeHashAsString | src/hash.h:37-41 | Exactly 16 lower-case hex digits, which read back as `ComputeHash` |
| Hash.TailOffsetTruncated | src/hash.h:30 | As written, for sizes from 2^31 + 64 KiB up to 2^32 + 64 KiB the tail offset wraps to 0, and the hash counts the first window twice instead of the last one |
| Hash.IntendedTailOffset | src/hash.h:30 | The corrected offset always ends the window at the end of the file |
| Hash.IntendedHashUsesLastWindow | src/hash.h:20-34 | With the corrected offset, every file of at least 64 KiB hashes the first and the last 64 KiB |
| Hash.IntendedHashAgrees | src/hash.h:20-34 | The corrected hash equals the hash as written wherever the `int` does not overflow |
| Text.ToInt32 | src/rpc_impl.cc:307-308 | The narrowing of an `int64_t` to the `int` that `value_int` takes keeps the value modulo 2^32 |
| Text.StoiReadsDecimal | src/types.h:112 | `std::stoi` reads back the decimal rendering of every `int`, followed by any text that does not start with a digit |
| Text.StoiRejectsNonNumeric | src/types.h:112 | `std::stoi` raises `invalid_argument` exactly when no digit follows the leading white space and the optional sign |
| Text.StoiRejectsWide | src/types.h:112 | `std::stoi` raises `out_of_range` on a digit run whose value does not fit in an `int` |
| Text.LexLessTransitive | src/rpc_impl.cc:59-62 | The key order of a `std::map` is transitive |
| Text.LexLessTotal | src/rpc_impl.cc:59-62 | Two distinct keys are ordered one way or the other |
| Text.LexLessAsymmetric | src/rpc_impl.cc:59-62 | No two keys are ordered both ways |
| XmlRpc.GetStringCases | src/rpc_impl.cc:28-37 | `s()` gives "" for an absent key, the string for a string member, and the type error for any other member; it succeeds exactly when the key is absent or holds a string |
| XmlRpc.CheckResponseExact | src/rpc_impl.cc:51-53 | The status check is true exactly when the status text equals "200 OK"; "200 OK " with a trailing space is not OK |
| XmlRpc.CStrKeeps | src/rpc_impl.cc:82-84 | A string without NUL passes through `c_str()` unchanged |
| XmlRpc.CStr | src/rpc_impl.cc:82-84 | `c_str()` keeps the prefix up to the first NUL |
| XmlRpc.ToStrMapStopsAtLeastNonString | src/rpc_impl.cc:55-64 | When a struct holds a non-string, `ToStrMap` has inserted exactly the members whose keys come before the least non-string key |
| XmlRpc.ToStrMapOfStringStruct | src/rpc_impl.cc:55-64 | A struct of strings is copied into the target whole, overriding existing keys |
| XmlRpc.ToStrVectorAppends | src/rpc_impl.cc:66-75 | `ToStrVector` appends the leading strings of the array in order; it completes exactly when every item is a string, and otherwise stops at the first non-string |
| XmlRpc.ToStrVectorOfStringArray | src/rpc_impl.cc:66-75 | An array of strings is appended whole and in order |
| XmlRpc.EachItem | src/rpc_impl.cc:153-171 | Decoding an array succeeds exactly when every item decodes, keeps the order and the length, and otherwise raises the first item's error |
| XmlRpc.EachMember | src/rpc_impl.cc:359-367 | Decoding a struct member by member succeeds exactly when every member decodes, keeps the keys, and otherwise raises the type error |
| XmlRpc.StringOfStringStruct | src/rpc_impl.cc:277-282 | Copying a struct of strings with `ds()` gives back the string map |
| XmlRpc.ParseStringArray | src/rpc_impl.cc:348-352 | An array built from strings parses back to the same strings in order |
| SubFiles.LookupAll | src/subfile.cc:10-42 | The lookups succeed exactly when every key is present, give the values at the keys in order, and otherwise raise `out_of_range` |
| SubFiles.FromMapSucceedsIff | src/subfile.cc:10-42 | Construction succeeds exactly when all 31 keys are present; a missing key raises `out_of_range` |
| SubFiles.FromMapFields | src/subfile.cc:11-41 | Each field equals the map's value at its same-named key |
| SubFiles.FromMapIgnoresExtras | src/subfile.cc:10 | Two maps that agree on the 31 keys give the same result |
| SubFiles.FromMapToMap | src/subfile.cc:10-42 | Constructing from a record's own key map gives the record back |
| SubFiles.ToMapAt | src/subfile.cc:11-41 | A record's key map has exactly the 31 keys, each holding its field |
| Statuses.SetStatus | src/types.h:107-114 | The getters answer the message and the seconds stored, and the status is the integer `std::stoi` reads from the message; it succeeds exactly when `std::stoi` does, and raises `std::stoi`'s error otherwise |
| Statuses.SetStatusReadsCode | src/types.h:112 | The status is the integer the message starts with |
| Statuses.SetStatusOfOkLine | src/types.h:110-114 | "200 OK" stores status OK |
| Statuses.SetStatusOfUnauthorizedLine | src/types.h:110-114 | "401 Unauthorized" stores status UNAUTHORIZED |
| Statuses.SetStatusRejectsText | src/types.h:112 | A message with no digit after its leading white space and sign, "" among them, raises `invalid_argument` |
| Statuses.SetStatusKeepsUnknownCodes | src/types.h:27-45 | A code inside the enum's range of values that names none of its members, 302, is stored as it is |
| Types.HashSearch | src/types.h:128-132 | The hash-mode constructor leaves the IMDb id empty and keeps its arguments |
| Types.ImdbSearch | src/types.h:134-136 | The IMDb-mode constructor sets the IMDb id and leaves the hash empty |
| Types.SingleMovieHash | src/types.h:260-262 | The single-hash constructor makes a one-element list |
| Types.SingleSubHash | src/types.h:277-279 | The single-hash constructor makes a one-element list |
| RpcEncode.CArgsRoundTrip | src/rpc_impl.cc:82-84 | Arguments passed through `c_str()` arrive as strings in order, unchanged when they hold no NUL |
| RpcEncode.LogInCarriesCredentials | src/rpc_impl.cc:80-84 | LogIn sends the user name, password, language and user agent, in that order |
| RpcEncode.TokenCallsCarryToken | src/rpc_impl.cc:96-108 | LogOut and NoOperation send the token alone |
| RpcEncode.NoTokenCallsCarryArgument | src/rpc_impl.cc:406-503 | GetSubLanguages sends the language alone, and AutoUpdate the program name alone |
| RpcEncode.TokenAndStringsCalls | src/rpc_impl.cc:460-558 | GetAvailableTranslations, GetTranslation, SearchMoviesOnIMDB and GetIMDBMovieDetails send the token, then the request's strings in order |
| RpcEncode.SearchShape | src/rpc_impl.cc:121-130 | A non-empty IMDb id sends the keys {imdbid, sublanguageid}, otherwise {moviehash, moviebytesize, sublanguageid}; never both imdbid and moviehash |
| RpcEncode.SearchRoundTrip | src/rpc_impl.cc:114-139 | The search call carries the token and a one-struct array that parses back to the request |
| RpcEncode.SearchToMailRoundTrip | src/rpc_impl.cc:178-208 | SearchToMail sends the token, the languages and the (hash, size) pairs, which parse back to the request |
| RpcEncode.DownloadRoundTrip | src/rpc_impl.cc:223-232 | DownloadSubtitles sends the ids as an int array in request order |
| RpcEncode.ReportWrongMovieHashId | src/rpc_impl.cc:287-291 | The id goes out as a 32-bit int (assuming its low 32 bits arrive): equal modulo 2^32, and unchanged when it fits |
| RpcEncode.SubtitlesVoteRoundTrip | src/rpc_impl.cc:299-314 | The vote struct carries the subtitle id and the score |
| RpcEncode.AddCommentRoundTrip | src/rpc_impl.cc:321-335 | The comment struct parses back to the request, with the flag sent as 1 or 0 |
| RpcEncode.StringListCallsRoundTrip | src/rpc_impl.cc:342-446 | CheckMovieHash, CheckSubHash and DetectLanguage send the token and the strings in order |
| RpcEncode.InsertMovieRoundTrip | src/rpc_impl.cc:595-609 | InsertMovie sends a struct holding the name and the year |
| RpcDecode.ReadStatus | src/rpc_impl.cc:88 | The status read keeps the status text and the seconds, and the code is what `std::stoi` reads from the text |
| RpcDecode.ReadStatusWithoutStatus | src/rpc_impl.cc:88 | A reply without a status raises `invalid_argument`, since `s()` gives "" |
| RpcDecode.ReadStatusOfReply | src/rpc_impl.cc:88 | A reply's status and seconds decode as SetStatus of them |
| RpcDecode.LogInTokenOnlyOnOk | src/rpc_impl.cc:86-93 | The token is read only when the status text is exactly "200 OK", and stays empty otherwise |
| RpcDecode.DecodeLoginReply | src/rpc_impl.cc:80-94 | A login reply decodes to its status, and to its token exactly when the status is "200 OK" |
| RpcDecode.DecodeStatusOnlyIgnoresBody | src/rpc_impl.cc:96-112 | LogOut, NoOperation, SearchToMail, ReportWrongMovieHash and AddComment depend only on the status and the seconds |
| RpcDecode.DecodeSubtitlesVote | src/rpc_impl.cc:315-318 | SubtitlesVote decodes as a status-only reply, and its three result strings stay empty |
| RpcDecode.StringMembers | src/rpc_impl.cc:161-168 | A search record keeps exactly its string members and drops the rest |
| RpcDecode.SearchNotOkIsEmpty | src/rpc_impl.cc:141-147 | A status other than OK gives no records and keeps the decoded status |
| RpcDecode.SearchFalseIsEmpty | src/rpc_impl.cc:143-147 | A boolean `data` gives no records and keeps the status |
| RpcDecode.SearchDecodesEachRecord | src/rpc_impl.cc:149-173 | One SubFile per array element in order; a record missing a key raises `out_of_range` and fails the whole search |
| RpcDecode.RecordOfBuilds | src/rpc_impl.cc:158-170 | A record holding a SubFile's 31 strings, plus any non-string members, constructs that SubFile |
| RpcDecode.SearchRoundTrip | src/rpc_impl.cc:114-176 | An OK reply of records decodes to the files in order |
| RpcDecode.DownloadNotOkIsEmpty | src/rpc_impl.cc:235-237 | A status other than OK gives no subtitles and keeps the status |
| RpcDecode.DownloadRoundTrip | src/rpc_impl.cc:237-250 | An OK reply gives one (idsubtitlefile, data) pair per entry, in order |
| RpcLookup.CheckMovieHashRoundTrip | src/rpc_impl.cc:342-370 | A reply decodes to one MovieInfo per hash key |
| RpcLookup.CheckMovieHashNeedsData | src/rpc_impl.cc:359 | A reply without `data` raises the type error |
| RpcLookup.CheckMovieHashAllOrNothing | src/rpc_impl.cc:360-367 | One malformed entry raises the type error for the whole call |
| RpcLookup.SubIdOf | src/rpc_impl.cc:392-400 | An int entry becomes a decimal string that `std::stoi` reads back; a string entry is kept; anything else is rejected |
| RpcLookup.SubIdOfZero | src/rpc_impl.cc:395-396 | The int 0 becomes "0" |
| RpcLookup.CheckSubHashRoundTrip | src/rpc_impl.cc:372-404 | Found hashes keep their ids and missing hashes, sent as int 0, read "0" |
| RpcLookup.CheckSubHashRejectsOtherTypes | src/rpc_impl.cc:397-398 | An entry neither int nor string raises the type error |
| RpcLookup.OkStatus | src/rpc_impl.cc:414 | The status GetSubLanguages records is SetStatus of "200 OK": code OK |
| RpcLookup.GetSubLanguagesIgnoresStatus | src/rpc_impl.cc:413-414 | GetSubLanguages records "200 OK" whatever status the reply carries |
| RpcLookup.GetSubLanguagesRoundTrip | src/rpc_impl.cc:406-431 | A reply decodes to its languages in order, with status "200 OK" |
| RpcLookup.GetAvailableTranslationsRoundTrip | src/rpc_impl.cc:460-481 | A reply decodes to one TranslationInfo per program key, with status "200 OK" |
| RpcLookup.DetectLanguageRoundTrip | src/rpc_impl.cc:433-458 | A struct of strings decodes to the same text-to-language map |
| RpcLookup.DetectLanguageAllOrNothing | src/rpc_impl.cc:451-455 | One non-string language raises the type error for the whole call |
| RpcLookup.GetTranslationRaisesUnlessOk | src/rpc_impl.cc:491-494 | Any status text that `std::stoi` reads, other than "200 OK", raises a SubtleException carrying that text |
| RpcLookup.GetTranslationRoundTrip | src/rpc_impl.cc:483-498 | An OK reply decodes to its translation text |
| RpcLookup.AutoUpdateRoundTrip | src/rpc_impl.cc:500-525 | A reply decodes to its version, links and comments, and its status |
| RpcLookup.AutoUpdateOneLink | src/rpc_impl.cc:506-521 | An absent link or comment reads as "" |
| RpcLookup.AutoUpdateReadsLinksFirst | src/rpc_impl.cc:508-510 | A non-string Windows link raises before the status is read |
| RpcLookup.SearchMoviesOnImdbRoundTrip | src/rpc_impl.cc:527-551 | A reply decodes to its (id, title) entries in order |
| RpcLookup.SearchMoviesOnImdbNeedsData | src/rpc_impl.cc:536-540 | A reply without `data` raises the type error |
| RpcLookup.InsertMovieRoundTrip | src/rpc_impl.cc:610-612 | The movie id is read from the reply, or is "" when absent |
| ImdbDetailsDecode.ReadTexts | src/rpc_impl.cc:566-576 | The text fields are read in order up to the first one that raises |
| ImdbDetailsDecode.ImdbDetailsNeedData | src/rpc_impl.cc:562 | A reply without a `data` struct raises the type error, outside the `try` |
| ImdbDetailsDecode.ImdbDetailsNeverRaiseInside | src/rpc_impl.cc:565-590 | Once `data` is a struct, the call never raises: the `try` swallows every error |
| ImdbDetailsDecode.ImdbDetailsRoundTrip | src/rpc_impl.cc:553-593 | Details sent as strings, string maps and string arrays decode to the same details |
| ImdbDetailsDecode.ImdbDetailsStopAtText | src/rpc_impl.cc:565-590 | When a text field raises, the earlier ones are kept and the later ones and every collection stay empty |
| ImdbDetailsDecode.ImdbDetailsStopInCast | src/rpc_impl.cc:578-590 | When the cast holds a non-string, the texts and the cast entries already inserted are kept, and everything after stays empty |
| ImdbDetailsDecode.ImdbDetailsStopInGenres | src/rpc_impl.cc:583-590 | When a genre is not a string, the texts, the three maps and the leading genres are kept; countries and languages stay empty |
| ServerInfoDecode.ReadFields | src/rpc_impl.cc:261-275 | The fifteen reads succeed exactly when each one does, give the fields in order, and otherwise raise the type error |
| ServerInfoDecode.ServerInfoRoundTrip | src/rpc_impl.cc:255-285 | A reply decodes to its text fields and update times, with the user counts rendered by the count conversion |
| ServerInfoDecode.ServerInfoNeedsUpdateTimes | src/rpc_impl.cc:277 | A reply without `last_update_strings` raises the type error |
| ServerInfoDecode.ServerInfoAllOrNothing | src/rpc_impl.cc:279-282 | One non-string update time raises the type error for the whole call |
| ServerInfoDecode.ServerInfoCountsAsWritten | src/rpc_impl.cc:266-268 | As written, each user count becomes one char holding the count's low byte |
| ServerInfoDecode.CountOf1234AsWritten | src/rpc_impl.cc:266 | A count of 1234 becomes the char 0xD2, which `std::stoi` rejects |
| ServerInfoDecode.ServerInfoCountsIntended | src/rpc_impl.cc:266-268 | Rendered in decimal, each count reads back with `std::stoi` |
| Session.OpenWellFormed | src/subtle.cc:22-37 | The constructor calls Init with "libsubtle" and the service URL, then one anonymous LogIn, and keeps the returned token whatever the status |
| Session.SearchSubtitles | src/subtle.cc:39-47 | One hash-mode search with the session's token; the records come back unchanged and in order |
| Session.DownloadSubtitles | src/subtle.cc:49-73 | The token is kept, one or two calls are added, and each passes the token |
| Session.DownloadNothingFound | src/subtle.cc:51-54 | An empty search makes no download call and produces no output |
| Session.DownloadFirstMatch | src/subtle.cc:54-68 | A hit makes exactly one download, of the first record's id alone; there is output exactly when a payload came back, and it is the first payload named after the first record |
| Session.DownloadBadId | src/subtle.cc:56 | A file id that is not a number raises `std::stoi`'s error after the search and before any download |
| Session.DownloadOutputFromReplies | src/subtle.cc:61-68 | Any output names a file the search returned and carries a payload the download returned |
| Session.RunKeepsToken | src/subtle.cc:39-73 | Any sequence of searches and downloads keeps the token, passes it in every call, and never takes back a call |
| Session.SessionLifetime | src/subtle.cc:25-73 | A whole session: the two opening calls, then calls with the login's token, and one LogOut, as the last call, exactly when the token is not empty |

## Left out

- The XML-RPC transport (`xmlrpc_c::clientSimple` and `client_.call`) is a
  foreign library. Each decoder takes the value the call returned, and each
  encoder gives the method name and the parameters it would send.
- Floating point: `seconds`, `movie_byte_size_` and `moviesize` are
  carried as `real` values and never computed with.
- Writing the downloaded subtitle (`base64_decode`, `mkstemp`, `ofstream`,
  `system("gunzip ...")`, the message on `cout`) is file and process I/O.
  `Session.DownloadSubtitles` answers only which payload goes to which
  file name.
- The `Print` and `PrintTitle` methods only write to standard output.
- src/md5.h, src/example.cc, src/example_using_lib.cc and the two test
  files are not part of this model.
- The declarations in src/subtle.h and src/rpc_impl.h that have no
  definition (the file-path overload and `Subtle::Login`) are not modelled.
- `Session`: the client is not an object. Its replies are parameters of
  each operation, and the calls the session makes are the `trace` of a
  `Session.Subtle` value rather than a ghost field of a class.
- Statuses.SetStatus: the cast of the parsed integer to the `Status` enum is
  not checked in C++. The enum's values span 0..511. A code outside that
  range, a negative one among them, has no defined result once cast
  (unspecified before C++17, undefined from C++17). The model stores the
  integer as it is and promises nothing the program defines for such codes.
  `StatusCodes` lists the named values.
- RpcDecode.StringMembers: `file[member.first] = ds(member.second)`
  (src/rpc_impl.cc:164) is modelled with C++17's sequencing, where the
  right operand runs first and a non-string member throws before the key is
  inserted. Before C++17 the order is unspecified; with `operator[]` first,
  the key would be inserted as "" before `ds` throws.
- XmlRpc.ToStrMapStopsAtLeastNonString: the same C++17 sequencing of
  `result[item.first] = ds(item.second)` (src/rpc_impl.cc:61). Under an
  earlier standard the key of the first non-string member could be left in
  the map with value "".
- ImdbDetailsDecode.ImdbDetailsStopInCast: rests on the same C++17
  sequencing through `ToStrMap`; under an earlier standard the partial cast
  map could also hold the failing key, mapped to "".
- RpcDecode.ReadStatus: C++ evaluates `s(values, "status")` and
  `d(values, "seconds")` in an unspecified order. Both raise the same type
  error, so the order does not show. The model reads the status first.
- Types.ImdbSearch: the IMDb-mode `SearchRequest` constructor leaves
  `movie_byte_size_` uninitialised. The model sets it to 0.0, and the
  encoder does not send it in that mode.
- RpcEncode.ReportWrongMovieHashId: the `int64_t` id is passed through
  varargs to the "si" format, which reads a 32-bit int
  (src/rpc_impl.cc:289-291). The mismatched read is undefined behaviour in
  C++. The model assumes the low 32 bits arrive, as they do on common ABIs;
  the program itself does not promise that.
- RpcEncode.SubtitlesVoteRoundTrip: the round trip is stated for subtitle
  ids that fit in an `int`. Wider ids are narrowed to 32 bits by `value_int`
  (src/rpc_impl.cc:307-308 and src/rpc_impl.cc:329).
- RpcEncode.AddCommentRoundTrip: the same restriction to ids that fit in an
  `int`.
- ImdbDetailsDecode.ImdbDetailsRoundTrip: the decoder never fills
  `certifications_`, so the round trip is stated for details without them.
- Hash.ComputeHash: the stream is a file whose size `tellg` reports. A
  stream that fails to open or to seek to its end is not modelled.
- Session.DownloadSubtitles: a `std::stoi` error and the caller's handling
  of it are an `Err` result. The calls made before it stay in the trace.

## Behaviour worth noting

- Status line: the code calls `std::stoi` on the whole status text, not on
  a three-digit code before the first space. It accepts leading spaces, a
  sign and any number of digits that fit an `int`, and raises
  `invalid_argument` or `out_of_range` (src/types.h:112).
- Non-string members: they are dropped only in search records
  (src/rpc_impl.cc:161-168). In GetIMDBMovieDetails, `ToStrMap` and
  `ToStrVector` stop at the first one, and the `try` keeps what was read
  before it (src/rpc_impl.cc:565-590).
- Small files: the two hash windows overlap below 128 KiB only from 64 KiB
  up. Below 64 KiB the second loop reads nothing, because the first loop
  leaves the stream failed (src/hash.h:27-33).
- Download destination: no directory is taken; the subtitle is written to
  the file name from the search record (src/subtle.cc:66-67).

## Findings

| source | as written | input that shows it | evidently intended | confidence | as-written member | corrected member |
|---|---|---|---|---|---|---|
| src/hash.h:30, src/hash.h:44-50 | The tail offset `Max(0, fsize - 65536)` passes the 64-bit difference through `int`. It wraps from 2^31 + 64 KiB on, and `Max` then picks 0 or a wrapped offset. | A file of 2^31 + 65536 bytes: the second window is read from offset 0, so the first 64 KiB count twice and the last 64 KiB not at all. | The second window is the last 64 KiB of the file, as in the OpenSubtitles hash. | not executed | Hash.TailOffsetTruncated | Hash.IntendedHashUsesLastWindow |
| src/rpc_impl.cc:266-268 | `std::string` members are assigned an `int64_t`, which picks `operator=(char)`. Each user count becomes one char holding its low byte. | users_online_total = 1234 gives the one-char string "\xD2", which is not a number. | The count in decimal (`std::to_string`). | not executed | ServerInfoDecode.CountOf1234AsWritten | ServerInfoDecode.ServerInfoCountsIntended |
