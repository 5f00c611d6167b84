/** The Python objects `json.loads` produces, and the two things the core
    does with them: iterate over them (`for card in flashcards`) and turn
    field values into text (`str(card["question"])`). */
module Json {
  import opened Wrappers
  import opened PyStrings

  /** A decoded JSON document as Python objects: `None`, `bool`, `int`,
      `float`, `str`, `list` and `dict`. A `dict` is its members in document
      order; a repeated key is kept as written, and lookups see its last value,
      as `json.loads` does. A float is kept as its literal. */
  datatype Json =
    | JNull
    | JBool(b: bool)
    | JInt(i: int)
    | JFloat(literal: string)
    | JString(s: string)
    | JArray(elements: seq<Json>)
    | JObject(members: seq<(string, Json)>)

  /** What `json.loads` can raise: `JSONDecodeError` for text that is not
      JSON, or another exception for text it accepts but cannot convert
      (`RecursionError` on very deep nesting, `ValueError` on an integer
      literal longer than the interpreter's digit limit). Each carries its
      `str()`. */
  datatype LoadFailure = DecodeError(msg: string) | OtherLoadError(msg: string)

  /** The parts of the Python runtime the model takes as given: the JSON
      decoder (`json.loads`, which returns a value or raises) and `repr`,
      which is what `str` returns for a float, a list or a dict. */
  datatype Runtime = Runtime(loads: string -> Result<Json, LoadFailure>, repr: Json -> string)

  /** `key in d` for a decoded dict. */
  function HasKey(members: seq<(string, Json)>, key: string): bool
  {
    if members == [] then false
    else members[|members| - 1].0 == key || HasKey(members[..|members| - 1], key)
  }

  /** `d[key]`: the value of the last member named `key`. */
  function Get(members: seq<(string, Json)>, key: string): (v: Json)
    requires HasKey(members, key)
    ensures exists i :: 0 <= i < |members| && members[i] == (key, v) &&
              forall j :: i < j < |members| ==> members[j].0 != key
  {
    var n := |members|;
    var last := members[n - 1];
    if last.0 == key then
      assert members[n - 1] == (key, last.1);
      last.1
    else
      var init := members[..n - 1];
      var v := Get(init, key);
      var i :| 0 <= i < n - 1 && init[i] == (key, v) && forall j :: i < j < n - 1 ==> init[j].0 != key;
      assert members[i] == (key, v);
      assert forall j :: i < j < n ==> members[j].0 != key by {
        forall j | i < j < n ensures members[j].0 != key {
          if j < n - 1 { assert members[j] == init[j]; }
        }
      }
      v
  }

  /** The keys of a decoded dict, each once, in first-occurrence order:
      what iterating over the dict visits. */
  function DictKeys(members: seq<(string, Json)>): (keys: seq<string>)
    ensures forall k :: k in keys <==> HasKey(members, k)
    ensures forall i, j :: 0 <= i < j < |keys| ==> keys[i] != keys[j]
  {
    if members == [] then []
    else
      var keys := DictKeys(members[..|members| - 1]);
      var k := members[|members| - 1].0;
      if k in keys then keys else keys + [k]
  }

  /** The name of a scalar's Python type, as a `TypeError` reports it. */
  function TypeName(v: Json): string
  {
    match v
    case JNull => "NoneType"
    case JBool(_) => "bool"
    case JInt(_) => "int"
    case JFloat(_) => "float"
    case JString(_) => "str"
    case JArray(_) => "list"
    case JObject(_) => "dict"
  }

  /** Is `v` a container Python can iterate? */
  predicate IsIterable(v: Json) {
    v.JString? || v.JArray? || v.JObject?
  }

  /** `for item in v`: a list yields its elements, a string its characters
      (as one-character strings), a dict its keys; `None`, booleans and
      numbers raise `TypeError: '<type>' object is not iterable`. */
  function Iterate(v: Json): (r: Result<seq<Json>, string>)
    ensures r.Err? <==> !IsIterable(v)
    ensures r.Err? ==> r.error == "'" + TypeName(v) + "' object is not iterable"
    ensures v.JArray? ==> r == Ok(v.elements)
    ensures v.JString? ==>
              && r.Ok? && |r.value| == |v.s|
              && forall i :: 0 <= i < |v.s| ==> r.value[i] == JString([v.s[i]])
    ensures v.JObject? ==>
              && r.Ok? && |r.value| == |DictKeys(v.members)|
              && forall i :: 0 <= i < |r.value| ==> r.value[i] == JString(DictKeys(v.members)[i])
  {
    match v
    case JArray(es) => Ok(es)
    case JString(s) => Ok(seq(|s|, i requires 0 <= i < |s| => JString([s[i]])))
    case JObject(ms) =>
      var keys := DictKeys(ms);
      Ok(seq(|keys|, i requires 0 <= i < |keys| => JString(keys[i])))
    case _ => Err("'" + TypeName(v) + "' object is not iterable")
  }

  /** `str(v)`: a string is itself; `None`, `True` and `False` are their
      names; an int is its decimal digits; floats, lists and dicts are their
      `repr`. */
  function Str(v: Json, rt: Runtime): string
  {
    match v
    case JString(s) => s
    case JNull => "None"
    case JBool(b) => if b then "True" else "False"
    case JInt(i) => IntText(i)
    case _ => rt.repr(v)
  }
}
