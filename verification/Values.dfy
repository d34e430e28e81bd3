/** The Python values a decoded JSON payload is made of, and sequence helpers shared by the stores.

    Python's `True == 1` and `False == 0`, so booleans are the numbers 1 and 0 here. */
module Values {

  datatype Option<+T> = None | Some(value: T)

  datatype Result<+T> = Success(value: T) | Failure(error: string)

  datatype Value =
    | Null
    | Num(n: real)
    | Str(text: string)
    | List(items: seq<Value>)
    | Dict(fields: map<string, Value>)

  /** Python's truth value of a JSON value. */
  predicate Truthy(v: Value) {
    match v
    case Null => false
    case Num(n) => n != 0.0
    case Str(s) => s != ""
    case List(xs) => xs != []
    case Dict(m) => m != map[]
  }

  /** `d.get(name)`: a missing field reads as `None`. */
  function Get(d: map<string, Value>, name: string): Value {
    if name in d then d[name] else Null
  }

  function Elements<T(!new)>(s: seq<T>): (r: set<T>)
    ensures forall x :: x in r <==> x in s
  {
    set x | x in s
  }

  ghost predicate Distinct<T>(s: seq<T>) {
    forall i, j :: 0 <= i < j < |s| ==> s[i] != s[j]
  }

  /** `[x for x in s if x != y]`. */
  function Without<T(==,!new)>(s: seq<T>, y: T): (r: seq<T>)
    ensures forall x :: x in r <==> x in s && x != y
    ensures |r| <= |s|
  {
    if s == [] then []
    else if s[0] == y then Without(s[1..], y)
    else [s[0]] + Without(s[1..], y)
  }

  lemma {:induction false} WithoutKeepsDistinct<T(!new)>(s: seq<T>, y: T)
    requires Distinct(s)
    ensures Distinct(Without(s, y))
    ensures |Without(s, y)| == |s| - (if y in s then 1 else 0)
  {
    if s != [] {
      WithoutKeepsDistinct(s[1..], y);
      assert s == [s[0]] + s[1..];
      assert s[0] !in s[1..];
      assert s[0] !in Without(s[1..], y);
    }
  }

  lemma DistinctCons<T(!new)>(x: T, t: seq<T>)
    ensures Distinct([x] + t) <==> x !in t && Distinct(t)
  {
    var s := [x] + t;
    if Distinct(s) {
      forall i, j | 0 <= i < j < |t| ensures t[i] != t[j] { assert s[i + 1] != s[j + 1]; }
      forall j | 0 <= j < |t| ensures t[j] != x { assert s[0] != s[j + 1]; }
    }
  }

  /** `len(set(s)) == len(s)` says exactly that no two positions of `s` hold the same value. */
  lemma {:induction false} CardinalityMeansDistinct<T(!new)>(s: seq<T>)
    ensures |Elements(s)| <= |s|
    ensures |Elements(s)| == |s| <==> Distinct(s)
  {
    if s != [] {
      var x, t := s[0], s[1..];
      CardinalityMeansDistinct(t);
      DistinctCons(x, t);
      assert s == [x] + t;
      assert Elements(s) == {x} + Elements(t);
      if x in t { assert Elements(s) == Elements(t); }
    }
  }
}
