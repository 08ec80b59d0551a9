// ToStrMap: the normalisation of parsed YAML metadata into values that JSON
// can encode, turning every map with interface keys into a map with string
// keys, at any depth.  A non-string key makes the source panic; here that is
// the None result.
module MdRender {
  datatype Option<T> = None | Some(value: T)

  /** A key of a map with interface keys: a string, or any other value (numbers stand for all of them). */
  datatype Key = StrKey(s: string) | OtherKey(n: int)

  /** A parsed YAML value: a scalar, a map with string keys, a map with interface keys, or a list. */
  datatype Value =
    | Scalar(text: string)
    | StrMap(m: map<string, Value>)
    | AnyMap(entries: map<Key, Value>)
    | List(items: seq<Value>)

  /** A value with no interface-keyed map anywhere inside it. */
  predicate Normal(v: Value) {
    match v
    case Scalar(_) => true
    case StrMap(m) => forall k :: k in m ==> Normal(m[k])
    case AnyMap(_) => false
    case List(items) => forall i :: 0 <= i < |items| ==> Normal(items[i])
  }

  /** A value holding, at some depth, an interface-keyed map with a key that is not a string. */
  predicate Panics(v: Value) {
    match v
    case Scalar(_) => false
    case StrMap(m) => exists k :: k in m && Panics(m[k])
    case AnyMap(m) => exists k :: k in m && (k.OtherKey? || Panics(m[k]))
    case List(items) => exists i :: 0 <= i < |items| && Panics(items[i])
  }

  /** The string keys of an interface-keyed map, as strings. */
  function StrKeys(m: map<Key, Value>): (r: set<string>)
    ensures forall s :: s in r <==> StrKey(s) in m
  {
    set k | k in m && k.StrKey? :: k.s
  }

  /** ToStrMap: None where the source panics on a key that is not a string. */
  function ToStrMap(v: Value): (r: Option<Value>)
    ensures r.None? <==> Panics(v)
    ensures r.Some? ==> Normal(r.value)
  {
    match v
    case Scalar(_) => Some(v)
    case StrMap(m) =>
      if exists k :: k in m && ToStrMap(m[k]).None? then None
      else Some(StrMap(map k | k in m :: ToStrMap(m[k]).value))
    case AnyMap(m) =>
      if exists k :: k in m && (k.OtherKey? || ToStrMap(m[k]).None?) then None
      else
        Some(StrMap(map s | s in StrKeys(m) :: ToStrMap(m[StrKey(s)]).value))
    case List(items) =>
      if exists i :: 0 <= i < |items| && ToStrMap(items[i]).None? then None
      else Some(List(seq(|items|, i requires 0 <= i < |items| => ToStrMap(items[i]).value)))
  }

  /** Scalars pass through unchanged. */
  lemma ScalarUnchanged(text: string)
    ensures ToStrMap(Scalar(text)) == Some(Scalar(text))
  {
  }

  /** A list keeps its length, and each element is converted in place. */
  lemma ListShape(items: seq<Value>)
    requires ToStrMap(List(items)).Some?
    ensures ToStrMap(List(items)).value.List?
    ensures |ToStrMap(List(items)).value.items| == |items|
    ensures forall i :: 0 <= i < |items| ==> Some(ToStrMap(List(items)).value.items[i]) == ToStrMap(items[i])
  {
    assert !(exists i :: 0 <= i < |items| && ToStrMap(items[i]).None?);
  }

  /** A string-keyed map keeps its keys, and each value is converted. */
  lemma StrMapShape(m: map<string, Value>)
    requires ToStrMap(StrMap(m)).Some?
    ensures ToStrMap(StrMap(m)).value.StrMap?
    ensures ToStrMap(StrMap(m)).value.m.Keys == m.Keys
    ensures forall k :: k in m ==> Some(ToStrMap(StrMap(m)).value.m[k]) == ToStrMap(m[k])
  {
    assert !(exists k :: k in m && ToStrMap(m[k]).None?);
  }

  /** An interface-keyed map that converts has only string keys, and becomes a string-keyed map of the same entries. */
  lemma AnyMapShape(m: map<Key, Value>)
    requires ToStrMap(AnyMap(m)).Some?
    ensures ToStrMap(AnyMap(m)).value.StrMap?
    ensures forall k :: k in m ==> k.StrKey? && k.s in ToStrMap(AnyMap(m)).value.m
    ensures forall k :: k in m ==> Some(ToStrMap(AnyMap(m)).value.m[k.s]) == ToStrMap(m[k])
    ensures forall s :: s in ToStrMap(AnyMap(m)).value.m ==> StrKey(s) in m
  {
    assert !(exists k :: k in m && (k.OtherKey? || ToStrMap(m[k]).None?));
  }

  /** A value already normal is left exactly as it is. */
  lemma {:induction false} NormalUnchanged(v: Value)
    requires Normal(v)
    ensures ToStrMap(v) == Some(v)
  {
    match v
    case Scalar(_) =>
    case AnyMap(_) =>
    case StrMap(m) =>
      forall k | k in m
        ensures ToStrMap(m[k]) == Some(m[k])
      {
        NormalUnchanged(m[k]);
      }
      assert !(exists k :: k in m && ToStrMap(m[k]).None?);
      var r := map k | k in m :: ToStrMap(m[k]).value;
      assert ToStrMap(v) == Some(StrMap(r));
      assert r.Keys == m.Keys;
      assert forall k :: k in r ==> r[k] == m[k];
      assert r == m;
    case List(items) =>
      forall i | 0 <= i < |items|
        ensures ToStrMap(items[i]) == Some(items[i])
      {
        NormalUnchanged(items[i]);
      }
      assert !(exists i :: 0 <= i < |items| && ToStrMap(items[i]).None?);
      assert seq(|items|, i requires 0 <= i < |items| => ToStrMap(items[i]).value) == items;
  }

  /** Converting twice is converting once. */
  lemma ToStrMapIdempotent(v: Value)
    requires ToStrMap(v).Some?
    ensures ToStrMap(ToStrMap(v).value) == ToStrMap(v)
  {
    NormalUnchanged(ToStrMap(v).value);
  }
}
