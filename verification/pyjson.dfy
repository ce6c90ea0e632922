/** Decoded JSON as Python sees it (`json.loads` output and MCP tool
    arguments), its truthiness, `str()` of a value, and the library calls the
    server makes but which are not modelled here. */
module PyJson {
  import opened Results
  import opened Dicts
  import Text

  /** A JSON value after `json.loads`. Numbers are integers only; objects are
      insertion-ordered dicts. */
  datatype Json =
    | JNull
    | JBool(b: bool)
    | JInt(n: int)
    | JStr(s: string)
    | JArr(items: seq<Json>)
    | JObj(fields: Dict<Json>)

  /** Python truthiness: `None`, `False`, `0` and empty strings, lists and
      dicts are false. */
  predicate Truthy(j: Json)
  {
    match j
    case JNull => false
    case JBool(b) => b
    case JInt(n) => n != 0
    case JStr(s) => |s| > 0
    case JArr(items) => |items| > 0
    case JObj(fields) => |fields| > 0
  }

  /** `x or default`. */
  function Or(x: Json, default: Json): (r: Json)
    ensures Truthy(x) ==> r == x
    ensures !Truthy(x) ==> r == default
  {
    if Truthy(x) then x else default
  }

  /** `d.get(k)`, with `None` for a missing key. */
  function GetOrNull(d: Dict<Json>, k: string): (r: Json)
    ensures k !in KeySet(d) ==> r == JNull
  {
    match Get(d, k)
    case Some(v) => v
    case None => JNull
  }

  /** Library calls used as black boxes: `shlex.quote`, `json.dumps`, Python's
      `repr` of a list or dict (what `str()` prints for those), `shlex.join`,
      and `str(Path(p).expanduser().resolve())`. */
  datatype Lib = Lib(
    quote: string -> string,
    dumps: Json -> string,
    reprContainer: Json -> string,
    shellJoin: seq<string> -> string,
    resolve: string -> string)

  /** `str(value)`. */
  function Str(j: Json, lib: Lib): (r: string)
    ensures j.JStr? ==> r == j.s
  {
    match j
    case JNull => "None"
    case JBool(b) => if b then "True" else "False"
    case JInt(n) => Text.IntToString(n)
    case JStr(s) => s
    case _ => lib.reprContainer(j)
  }
}
