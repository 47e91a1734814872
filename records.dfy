/**
 * The plain dictionaries that TSRs and TSR chains serialise to. Keys are strings; a value
 * is one of the kinds these records hold. A matrix is stored as the transform it lists,
 * since `tolist` and `numpy.array` undo each other.
 */
module Records {
  import opened Outcomes
  import opened Geometry

  datatype Value =
    | VTransform(transform: Transform)
    | VBox(box: Box)
    | VInt(integer: int)
    | VStr(str: string)
    | VBool(flag: bool)
    | VInts(ints: seq<int>)
    | VRecords(records: seq<map<string, Value>>)

  type Record = map<string, Value>

  /** `d[key]` where the value must be a matrix. */
  function GetTransform(d: Record, key: string): (r: Result<Transform>)
    ensures key !in d ==> r == Err(MissingKey(key))
    ensures r.Ok? <==> key in d && d[key].VTransform?
    ensures r.Ok? ==> r.value == d[key].transform
  {
    if key !in d then Err(MissingKey(key))
    else if d[key].VTransform? then Ok(d[key].transform)
    else Err(WrongType(key))
  }

  /** `d[key]` where the value must be a 6x2 bound matrix. */
  function GetBox(d: Record, key: string): (r: Result<Box>)
    ensures key !in d ==> r == Err(MissingKey(key))
    ensures r.Ok? <==> key in d && d[key].VBox?
    ensures r.Ok? ==> r.value == d[key].box
  {
    if key !in d then Err(MissingKey(key))
    else if d[key].VBox? then Ok(d[key].box)
    else Err(WrongType(key))
  }

  /** `d[key]` where the value must be a boolean. */
  function GetBool(d: Record, key: string): (r: Result<bool>)
    ensures key !in d ==> r == Err(MissingKey(key))
    ensures r.Ok? <==> key in d && d[key].VBool?
    ensures r.Ok? ==> r.value == d[key].flag
  {
    if key !in d then Err(MissingKey(key))
    else if d[key].VBool? then Ok(d[key].flag)
    else Err(WrongType(key))
  }

  /** `d[key]` where the value must be a string. */
  function GetStr(d: Record, key: string): (r: Result<string>)
    ensures key !in d ==> r == Err(MissingKey(key))
    ensures r.Ok? <==> key in d && d[key].VStr?
    ensures r.Ok? ==> r.value == d[key].str
  {
    if key !in d then Err(MissingKey(key))
    else if d[key].VStr? then Ok(d[key].str)
    else Err(WrongType(key))
  }

  /** `d[key]` where the value must be a list of integers. */
  function GetInts(d: Record, key: string): (r: Result<seq<int>>)
    ensures key !in d ==> r == Err(MissingKey(key))
    ensures r.Ok? <==> key in d && d[key].VInts?
    ensures r.Ok? ==> r.value == d[key].ints
  {
    if key !in d then Err(MissingKey(key))
    else if d[key].VInts? then Ok(d[key].ints)
    else Err(WrongType(key))
  }

  /** `d[key]` where the value must be a list of records. */
  function GetRecords(d: Record, key: string): (r: Result<seq<Record>>)
    ensures key !in d ==> r == Err(MissingKey(key))
    ensures r.Ok? <==> key in d && d[key].VRecords?
    ensures r.Ok? ==> r.value == d[key].records
  {
    if key !in d then Err(MissingKey(key))
    else if d[key].VRecords? then Ok(d[key].records)
    else Err(WrongType(key))
  }

  /** `d.get(key, default)` where a present value must be an integer. */
  function GetIntOr(d: Record, key: string, default: int): (r: Result<int>)
    ensures key !in d ==> r == Ok(default)
    ensures key in d ==> (r.Ok? <==> d[key].VInt?)
    ensures key in d && r.Ok? ==> r.value == d[key].integer
  {
    if key !in d then Ok(default)
    else if d[key].VInt? then Ok(d[key].integer)
    else Err(WrongType(key))
  }

  /** `d.get(key, default)` where a present value must be a string. */
  function GetStrOr(d: Record, key: string, default: string): (r: Result<string>)
    ensures key !in d ==> r == Ok(default)
    ensures key in d ==> (r.Ok? <==> d[key].VStr?)
    ensures key in d && r.Ok? ==> r.value == d[key].str
  {
    if key !in d then Ok(default)
    else if d[key].VStr? then Ok(d[key].str)
    else Err(WrongType(key))
  }
}
