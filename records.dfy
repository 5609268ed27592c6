/** The semi-structured records the catalogue clients and the database hand
    to the code, as Python sees them: JSON-like values with Python's
    truthiness, `or`, `dict.get`, `int()` and `str()`. Objects read by
    attribute and dictionaries read by key are the same thing here: a map
    from field name to value, where an absent field reads as `None`. */
module Records {
  import opened Text

  datatype Value =
    | Null
    | Bool(b: bool)
    | Int(i: int)
    | Str(s: string)
    | List(items: seq<Value>)
    | Obj(fields: map<string, Value>)

  type Record = map<string, Value>

  /** Python's `bool(v)`. */
  predicate Truthy(v: Value) {
    match v
    case Null => false
    case Bool(b) => b
    case Int(i) => i != 0
    case Str(s) => s != ""
    case List(xs) => xs != []
    case Obj(m) => |m| > 0
  }

  /** Python's `a or b`: the first operand when it is truthy, else the second. */
  function Or(a: Value, b: Value): (r: Value)
    ensures Truthy(r) <==> Truthy(a) || Truthy(b)
    ensures r == a || r == b
    ensures Truthy(a) ==> r == a
    ensures !Truthy(a) ==> r == b
  {
    if Truthy(a) then a else b
  }

  /** `d.get(key)`. */
  function Get(r: Record, key: string): Value {
    if key in r then r[key] else Null
  }

  /** A value read as a record; anything but an object reads as the empty one. */
  function AsRecord(v: Value): Record {
    if v.Obj? then v.fields else map[]
  }

  /** A value read as a string; anything but a string reads as "". */
  function AsString(v: Value): string {
    if v.Str? then v.s else ""
  }

  /** `int(v)`, or `None` where Python raises. */
  function PyInt(v: Value): Option<int> {
    match v
    case Null => None
    case Bool(b) => Some(if b then 1 else 0)
    case Int(i) => Some(i)
    case Str(s) => ParseInt(s)
    case List(_) => None
    case Obj(_) => None
  }

  /** `str(v)` for scalars; the `repr` of a list or an object is not modelled. */
  function PyStr(v: Value): string {
    match v
    case Null => "None"
    case Bool(b) => if b then "True" else "False"
    case Int(i) => IntToString(i)
    case Str(s) => s
    case List(_) => ""
    case Obj(_) => ""
  }

  /** `v not in (None, "")`. */
  predicate Present(v: Value) {
    v != Null && v != Str("")
  }

  /** The accessor `g(obj, *names)`: tries the names in order. */
  function FirstPresent(r: Record, names: seq<string>): Value {
    if names == [] then Null
    else if Present(Get(r, names[0])) then Get(r, names[0])
    else FirstPresent(r, names[1..])
  }

  /** `g` returns the value of the first name whose value is neither `None`
      nor "", and `None` when there is no such name. */
  lemma {:induction false} FirstPresentSpec(r: Record, names: seq<string>)
    ensures var v := FirstPresent(r, names);
            && (v == Null <==> forall k :: 0 <= k < |names| ==> !Present(Get(r, names[k])))
            && (v != Null ==> Present(v) && exists k :: 0 <= k < |names| && v == Get(r, names[k])
                                                   && forall j :: 0 <= j < k ==> !Present(Get(r, names[j])))
  {
    if names != [] && !Present(Get(r, names[0])) {
      FirstPresentSpec(r, names[1..]);
      assert forall k :: 1 <= k < |names| ==> names[k] == names[1..][k - 1];
      var v := FirstPresent(r, names);
      if v != Null {
        var k :| 0 <= k < |names[1..]| && v == Get(r, names[1..][k])
                 && forall j :: 0 <= j < k ==> !Present(Get(r, names[1..][j]));
        assert v == Get(r, names[k + 1]);
        assert forall j :: 0 <= j < k + 1 ==> !Present(Get(r, names[j]));
      }
    } else if names != [] {
      assert FirstPresent(r, names) == Get(r, names[0]);
    }
  }
}
