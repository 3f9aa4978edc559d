/** The xmlrpc_c value tree and the small accessors every decoder of
    src/rpc_impl.cc goes through: ds, s, i, d, v, CheckResponse, ToStrMap and
    ToStrVector.  A conversion to the wrong type is an xmlrpc_c error, which
    the model reports as `TypeMismatch`. */
module XmlRpc {
  import opened Wrappers
  import opened Text

  /** xmlrpc_c::value, restricted to the types the client sends or reads. */
  datatype Value =
    | VString(str: string)
    | VInt(integer: Int32)
    | VBool(flag: bool)
    | VDouble(number: real)
    | VArray(items: seq<Value>)
    | VStruct(members: map<string, Value>)

  /** StructDict: std::map<string, xmlrpc_c::value>. */
  type Struct = map<string, Value>

  // ---------------------------------------------------------------------
  // Conversions

  /** ds(v): value_string(v) converted to std::string. */
  function AsString(v: Value): Result<string> {
    if v.VString? then Ok(v.str) else Err(TypeMismatch)
  }

  /** v(val): value_struct(val) converted to StructDict. */
  function AsStruct(v: Value): Result<Struct> {
    if v.VStruct? then Ok(v.members) else Err(TypeMismatch)
  }

  /** value_array(v).vectorValueValue(). */
  function AsArray(v: Value): Result<seq<Value>> {
    if v.VArray? then Ok(v.items) else Err(TypeMismatch)
  }

  /** `values[k]` used as a value: an absent key yields an uninstantiated
      xmlrpc_c::value, and every use of one raises. */
  function Member(d: Struct, k: string): Result<Value> {
    if k in d then Ok(d[k]) else Err(TypeMismatch)
  }

  /** s(v, k): the string at `k`, or "" when `k` is absent. */
  function GetString(d: Struct, k: string): Result<string> {
    if k in d then AsString(d[k]) else Ok("")
  }

  /** i(v, k): value_int(v[k]), which also raises when `k` is absent. */
  function GetInt(d: Struct, k: string): Result<Int32> {
    if k in d && d[k].VInt? then Ok(d[k].integer) else Err(TypeMismatch)
  }

  /** d(v, k): value_double(v[k]), which also raises when `k` is absent. */
  function GetDouble(d: Struct, k: string): Result<real> {
    if k in d && d[k].VDouble? then Ok(d[k].number) else Err(TypeMismatch)
  }

  /** CheckResponse: whether s(values, "status") is exactly "200 OK". */
  function CheckResponse(d: Struct): Result<bool> {
    var message :- GetString(d, "status");
    Ok(message == StatusOk)
  }

  /** The status text every successful reply carries. */
  const StatusOk: string := "200 OK"

  /** s() answers "" for an absent key, the string itself for a string
      member, and raises for a member of any other type. */
  lemma GetStringCases(d: Struct, k: string)
    ensures k !in d ==> GetString(d, k) == Ok("")
    ensures k in d && d[k].VString? ==> GetString(d, k) == Ok(d[k].str)
    ensures k in d && !d[k].VString? ==> GetString(d, k) == Err(TypeMismatch)
    ensures GetString(d, k).Ok? <==> k !in d || d[k].VString?
  {
  }

  /** CheckResponse holds exactly for the status text "200 OK": a longer or
      shorter text starting with 200 does not count. */
  lemma CheckResponseExact(d: Struct)
    requires "status" in d && d["status"].VString?
    ensures CheckResponse(d) == Ok(d["status"].str == StatusOk)
    ensures CheckResponse(d["status" := VString("200 OK ")]) == Ok(false)
  {
  }

  // ---------------------------------------------------------------------
  // Builders: how a reply or a parameter carrying only strings looks

  /** A struct whose members are the given strings. */
  function StringStruct(m: map<string, string>): (d: Struct)
    ensures d.Keys == m.Keys
  {
    map k | k in m :: VString(m[k])
  }

  /** An array of strings. */
  function StringArray(ss: seq<string>): (v: Value)
    ensures v.VArray? && |v.items| == |ss|
  {
    VArray(seq(|ss|, i requires 0 <= i < |ss| => VString(ss[i])))
  }

  /** The strings of an array that holds only strings. */
  function ParseStrings(v: Value): (r: Option<seq<string>>)
    ensures r.Some? ==> v.VArray? && |r.value| == |v.items|
  {
    if v.VArray? && forall i | 0 <= i < |v.items| :: v.items[i].VString? then
      Some(seq(|v.items|, i requires 0 <= i < |v.items| => v.items[i].str))
    else None
  }

  /** An array of strings parses back to its strings. */
  lemma ParseStringArray(ss: seq<string>)
    ensures ParseStrings(StringArray(ss)) == Some(ss)
  {
    var v := StringArray(ss);
    assert forall i | 0 <= i < |v.items| :: v.items[i] == VString(ss[i]);
    var r := seq(|v.items|, i requires 0 <= i < |v.items| => v.items[i].str);
    assert r == ss;
  }

  /** s() on a struct of strings answers what was put in, and "" elsewhere. */
  lemma GetStringOfStringStruct(m: map<string, string>, k: string)
    ensures GetString(StringStruct(m), k) == Ok(if k in m then m[k] else "")
  {
  }

  // ---------------------------------------------------------------------
  // std::string::c_str()

  /** The text a C string argument carries: everything before the first
      NUL.  The "ssss"-style calls pass std::string through c_str(). */
  function CStr(s: string): (r: string)
    ensures |r| <= |s| && r == s[..|r|]
    ensures forall i | 0 <= i < |r| :: r[i] != '\0'
    ensures |r| < |s| ==> s[|r|] == '\0'
  {
    if |s| == 0 || s[0] == '\0' then ""
    else
      var tail := CStr(s[1..]);
      assert forall i | 1 <= i <= |tail| :: s[i] == tail[i - 1];
      [s[0]] + tail
  }

  /** A string with no NUL goes through c_str() unchanged. */
  lemma {:induction false} CStrKeeps(s: string)
    requires forall i | 0 <= i < |s| :: s[i] != '\0'
    ensures CStr(s) == s
  {
  }

  // ---------------------------------------------------------------------
  // Fill loops that stop at the first member of the wrong type

  /** What a fill loop left in its target, and whether it ran to the end
      (false: it raised part-way). */
  datatype Filled<T> = Filled(value: T, complete: bool)

  predicate AllStrings(m: Struct) {
    forall k | k in m :: m[k].VString?
  }

  /** The string members of `m` that come, in key order, before its first
      member of another type: what the loop of ToStrMap inserts before
      ds() raises. */
  function StringPrefix(m: Struct): map<string, string> {
    map k | k in m && m[k].VString? && (forall j | j in m && LexLess(j, k) :: m[j].VString?) :: m[k].str
  }

  /** ToStrMap(value_dict, field, target): when `field` is present it must be
      a struct, whose members are copied into `target` in key order until
      the first one that is not a string. */
  function ToStrMap(d: Struct, field: string, target: map<string, string>): Filled<map<string, string>> {
    if field !in d then Filled(target, true)
    else if !d[field].VStruct? then Filled(target, false)
    else Filled(target + StringPrefix(d[field].members), AllStrings(d[field].members))
  }

  /** The length of the run of strings that starts `items`. */
  function StringRun(items: seq<Value>): (n: nat)
    ensures n <= |items|
    ensures forall i | 0 <= i < n :: items[i].VString?
    ensures n < |items| ==> !items[n].VString?
  {
    if 0 < |items| && items[0].VString? then
      var n := 1 + StringRun(items[1..]);
      assert forall i | 1 <= i < n :: items[i] == items[1..][i - 1];
      n
    else 0
  }

  /** The strings of a run of string values. */
  function Strings(items: seq<Value>): (ss: seq<string>)
    requires forall i | 0 <= i < |items| :: items[i].VString?
    ensures |ss| == |items|
  {
    seq(|items|, i requires 0 <= i < |items| => items[i].str)
  }

  /** ToStrVector(value_dict, field, target): when `field` is present it must
      be an array, whose elements are appended to `target` in order until
      the first one that is not a string. */
  function ToStrVector(d: Struct, field: string, target: seq<string>): Filled<seq<string>> {
    if field !in d then Filled(target, true)
    else if !d[field].VArray? then Filled(target, false)
    else
      var items := d[field].items;
      var n := StringRun(items);
      Filled(target + Strings(items[..n]), n == |items|)
  }

  /** A struct with a non-string member stops the copy at the least such key:
      every string member below it is copied and nothing from it on. */
  lemma ToStrMapStopsAtLeastNonString(m: Struct, bad: string)
    requires bad in m && !m[bad].VString?
    requires forall j | j in m && LexLess(j, bad) :: m[j].VString?
    ensures !AllStrings(m)
    ensures StringPrefix(m) == map k | k in m && LexLess(k, bad) :: m[k].str
  {
    forall k | k in m && m[k].VString? && (forall j | j in m && LexLess(j, k) :: m[j].VString?)
      ensures LexLess(k, bad)
    {
      LexLessTotal(k, bad);
    }
    forall k | k in m && LexLess(k, bad)
      ensures forall j | j in m && LexLess(j, k) :: m[j].VString?
    {
      forall j | j in m && LexLess(j, k)
        ensures m[j].VString?
      {
        LexLessTransitive(j, k, bad);
      }
    }
  }

  /** A member that is a struct of strings is copied whole. */
  lemma ToStrMapOfStringStruct(d: Struct, field: string, m: map<string, string>, target: map<string, string>)
    requires field in d && d[field] == VStruct(StringStruct(m))
    ensures ToStrMap(d, field, target) == Filled(target + m, true)
  {
    assert StringPrefix(StringStruct(m)) == m;
  }

  /** A member that is an array of strings is appended whole. */
  lemma ToStrVectorOfStringArray(d: Struct, field: string, ss: seq<string>, target: seq<string>)
    requires field in d && d[field] == StringArray(ss)
    ensures ToStrVector(d, field, target) == Filled(target + ss, true)
  {
    var items := d[field].items;
    assert forall i | 0 <= i < |items| :: items[i] == VString(ss[i]);
    assert StringRun(items) == |items|;
    assert items[..|items|] == items;
    assert Strings(items) == ss;
  }

  /** An array of strings is appended whole; otherwise exactly the leading
      strings are appended, in order. */
  lemma ToStrVectorAppends(d: Struct, field: string, target: seq<string>)
    requires field in d && d[field].VArray?
    ensures var r := ToStrVector(d, field, target);
            var items := d[field].items;
            && target <= r.value
            && (forall i | |target| <= i < |r.value| :: items[i - |target|] == VString(r.value[i]))
            && (r.complete <==> forall i | 0 <= i < |items| :: items[i].VString?)
            && (!r.complete ==> !items[|r.value| - |target|].VString?)
  {
    var items := d[field].items;
    var n := StringRun(items);
    assert forall i | 0 <= i < n :: items[..n][i] == items[i];
  }

  // ---------------------------------------------------------------------
  // Loops over arrays and structs

  /** A loop over value_array(v).vectorValueValue() that converts every
      element with `f` and stops at the first element that raises. */
  function EachItem<T>(items: seq<Value>, f: Value -> Result<T>): (r: Result<seq<T>>)
    ensures r.Ok? <==> forall i | 0 <= i < |items| :: f(items[i]).Ok?
    ensures r.Ok? ==> |r.value| == |items| && forall i | 0 <= i < |items| :: f(items[i]) == Ok(r.value[i])
    ensures r.Err? ==> exists i | 0 <= i < |items| :: f(items[i]) == Err(r.error) && forall j | 0 <= j < i :: f(items[j]).Ok?
  {
    if |items| == 0 then Ok([])
    else
      var first :- f(items[0]);
      var rest := EachItem(items[1..], f);
      if rest.Err? then
        ghost var i :| 0 <= i < |items[1..]| && f(items[1..][i]) == Err(rest.error) && forall j | 0 <= j < i :: f(items[1..][j]).Ok?;
        assert f(items[i + 1]) == Err(rest.error) && forall j | 0 <= j < i + 1 :: f(items[j]).Ok?;
        Err(rest.error)
      else
        Ok([first] + rest.value)
  }

  /** A loop over the members of a struct that converts every value with
      `f`, where `f` answers None for a conversion that raises an xmlrpc
      type error.  Nothing of a failed loop is kept by its callers. */
  function EachMember<T>(m: Struct, f: Value -> Option<T>): (r: Result<map<string, T>>)
    ensures r.Ok? <==> forall k | k in m :: f(m[k]).Some?
    ensures r.Err? ==> r.error == TypeMismatch
    ensures r.Ok? ==> r.value.Keys == m.Keys && forall k | k in m :: f(m[k]) == Some(r.value[k])
  {
    if forall k | k in m :: f(m[k]).Some? then Ok(map k | k in m :: f(m[k]).value) else Err(TypeMismatch)
  }

  /** A conversion that raises, seen as a missing value. */
  function AsOption<T>(r: Result<T>): (o: Option<T>)
    ensures o.Some? <==> r.Ok?
    ensures o.Some? ==> o.value == r.value
  {
    if r.Ok? then Some(r.value) else None
  }

  /** ds() as a member conversion: the string, or the xmlrpc type error. */
  function StringOf(v: Value): Option<string> {
    AsOption(AsString(v))
  }

  /** A struct of strings converts member by member to the strings. */
  lemma StringOfStringStruct(m: map<string, string>)
    ensures EachMember(StringStruct(m), StringOf) == Ok(m)
  {
    var d := StringStruct(m);
    assert forall k | k in d :: StringOf(d[k]) == Some(m[k]);
    assert EachMember(d, StringOf).value == m;
  }
}
