/** Decoded JSON values and the environment facts the adapters receive:
    a file that is missing, malformed or decoded, and a finished command. */
module Json {
  import opened Wrappers
  import opened Text

  /** A value as `json.load` returns it. An object keeps its members in file
      order; a decoder yields each key once. Numbers are integers. */
  datatype JValue =
    | JNull
    | JBool(b: bool)
    | JNum(n: int)
    | JStr(s: string)
    | JArr(items: seq<JValue>)
    | JObj(fields: seq<(string, JValue)>)

  /** The member named `key` of an object's member list, if any. */
  function Lookup(fields: seq<(string, JValue)>, key: string): (r: Option<JValue>)
    ensures r.Some? <==> exists i :: 0 <= i < |fields| && fields[i].0 == key
    ensures r.Some? ==> (key, r.value) in fields
  {
    if |fields| == 0 then None
    else if fields[0].0 == key then Some(fields[0].1)
    else Lookup(fields[1..], key)
  }

  /** `d.get(key)` on an object; nothing for any other kind of value. */
  /** A lookup passes over leading members whose names differ from the key
      in length. */
  lemma {:induction false} LookupSkips(fields: seq<(string, JValue)>, i: nat, key: string)
    requires i <= |fields|
    requires forall j :: 0 <= j < i ==> |fields[j].0| != |key|
    ensures Lookup(fields, key) == Lookup(fields[i..], key)
    decreases i
  {
    if i > 0 {
      assert fields[0].0 != key;
      LookupSkips(fields[1..], i - 1, key);
      assert fields[1..][i - 1..] == fields[i..];
    }
  }

  function Get(v: JValue, key: string): Option<JValue> {
    if v.JObj? then Lookup(v.fields, key) else None
  }

  /** Python's `key in d` for an object. */
  predicate HasKey(v: JValue, key: string) {
    Get(v, key).Some?
  }

  /** Python truthiness of a decoded value. */
  predicate Truthy(v: JValue) {
    match v
    case JNull => false
    case JBool(b) => b
    case JNum(n) => n != 0
    case JStr(s) => s != []
    case JArr(items) => items != []
    case JObj(fields) => fields != []
  }

  /** The string held at `key`, or "" when the member is absent or not a string. */
  function StrField(v: JValue, key: string): (r: string)
    ensures r != [] ==> Get(v, key) == Some(JStr(r))
  {
    match Get(v, key)
    case Some(JStr(s)) => s
    case _ => []
  }

  /** Python's `str(v)` for scalars; a list or object renders as "". */
  function PyStr(v: JValue): string {
    match v
    case JNull => "None"
    case JBool(b) => if b then "True" else "False"
    case JNum(n) => IntToString(n)
    case JStr(s) => s
    case _ => []
  }

  /** The values `for x in v` visits that can be objects, or the TypeError
      Python raises when `v` cannot be iterated. Iterating an object or a
      string visits strings only, so it offers no candidates. */
  function Elements(v: JValue): (r: Result<seq<JValue>>)
    ensures r.Err? <==> v.JNull? || v.JBool? || v.JNum?
    ensures r.Ok? && r.value != [] ==> v == JArr(r.value)
  {
    match v
    case JArr(xs) => Ok(xs)
    case JObj(_) => Ok([])
    case JStr(_) => Ok([])
    case _ => Err("TypeError")
  }

  /** A subscript: `v[i]` or `v["name"]`. */
  datatype Key = Index(i: nat) | Name(name: string)

  /** Python's `v[key]` on a decoded value, or the error it raises: an
      IndexError past the end of a list or string, a KeyError for a member an
      object lacks (an object's keys are strings, so an integer subscript is
      never found), and a TypeError for any other combination. */
  function Subscript(v: JValue, key: Key): (r: Result<JValue>)
    ensures v.JObj? && key.Name? ==> (r.Ok? <==> HasKey(v, key.name))
    ensures v.JObj? && key.Name? && r.Ok? ==> Get(v, key.name) == Some(r.value)
    ensures v.JArr? && key.Index? ==> (r.Ok? <==> key.i < |v.items|)
    ensures v.JArr? && key.Index? && r.Ok? ==> r.value == v.items[key.i]
    ensures !(v.JObj? || v.JArr? || v.JStr?) ==> r == Err("TypeError")
  {
    match (v, key)
    case (JArr(xs), Index(i)) => if i < |xs| then Ok(xs[i]) else Err("IndexError")
    case (JStr(s), Index(i)) => if i < |s| then Ok(JStr([s[i]])) else Err("IndexError")
    case (JObj(_), Name(k)) => if HasKey(v, k) then Ok(Get(v, k).value) else Err("KeyError")
    case (JObj(_), Index(_)) => Err("KeyError")
    case _ => Err("TypeError")
  }

  /** `v[k1][k2]...`: the first error along the path stops the walk. */
  function Path(v: JValue, keys: seq<Key>): (r: Result<JValue>)
    ensures keys == [] ==> r == Ok(v)
    decreases |keys|
  {
    if keys == [] then Ok(v)
    else match Subscript(v, keys[0])
      case Err(e) => Err(e)
      case Ok(w) => Path(w, keys[1..])
  }

  /** What reading and decoding a JSON file produced. */
  datatype FileState = Missing | Malformed | Decoded(value: JValue)

  /** A finished shell command: exit status and standard output as text. */
  datatype CommandResult = CommandResult(returncode: int, stdout: string)
}
