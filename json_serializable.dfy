/**
 * `deepMap` and `fromJson` of the JSON helpers: a decoded JSON value is
 * walked level by level with a list of optional callables, one per level;
 * the callable of a level turns every dictionary found at that level into
 * an object, and lists are looked through without being converted.
 */
module JsonSerializable {
  import opened Wrappers

  /**
   * A decoded JSON value, or an object a callable made. Numbers are
   * integers here.
   */
  datatype Value =
    | Null
    | Bool(b: bool)
    | Num(n: int)
    | Str(s: string)
    | List(items: seq<Value>)
    | Dict(entries: map<string, Value>)
    | Instance(cls: string, fields: map<string, Value>)

  /** What a callable of the map list may raise: the exception `deepMap` catches. */
  datatype Raised = AttributeError

  /**
   * A class or function of the map list: `deepMap` calls it with a
   * dictionary, the empty-string shortcut of `fromJson` with nothing; it
   * returns an object or raises.
   */
  type Callable = Option<map<string, Value>> -> Result<Value, Raised>

  /** What `fromJson` raises: the error of `json.loads`, or what a callable raised. */
  datatype JsonError = JSONDecodeError | Raise(raised: Raised)

  /**
   * The values `deepMap` can walk with `depth` callables: at every level
   * that still has a callable the value is a dictionary, a list or a string
   * (which iterates over its characters), and the values below it can be
   * walked with the callables that are left.
   */
  predicate Mappable(obj: Value, depth: nat)
    decreases depth
  {
    if depth == 0 then true
    else match obj
      case Dict(d) => forall k :: k in d ==> Mappable(d[k], depth - 1)
      case List(xs) => forall i :: 0 <= i < |xs| ==> Mappable(xs[i], depth - 1)
      case Str(_) => true
      case _ => false
  }

  /** Like `Mappable`, with no string at a level that still has a callable. */
  predicate Walkable(obj: Value, depth: nat)
    decreases depth
  {
    if depth == 0 then true
    else match obj
      case Dict(d) => forall k :: k in d ==> Walkable(d[k], depth - 1)
      case List(xs) => forall i :: 0 <= i < |xs| ==> Walkable(xs[i], depth - 1)
      case _ => false
  }

  lemma {:induction false} WalkableMappable(obj: Value, depth: nat)
    requires Walkable(obj, depth)
    ensures Mappable(obj, depth)
    decreases depth
  {
    if depth > 0 {
      match obj
      case Dict(d) =>
        forall k | k in d ensures Mappable(d[k], depth - 1) {
          WalkableMappable(d[k], depth - 1);
        }
      case List(xs) =>
        forall i | 0 <= i < |xs| ensures Mappable(xs[i], depth - 1) {
          WalkableMappable(xs[i], depth - 1);
        }
    }
  }

  /** `obj if curMap is None else curMap(obj)` */
  function Apply(curMap: Option<Callable>, d: map<string, Value>): Result<Value, Raised>
  {
    if curMap.None? then Ok(Dict(d)) else curMap.value(Some(d))
  }

  /**
   * `deepMap(obj, mapElements)`. A dictionary's values are walked first and
   * whatever one of them raises propagates; a list or a string is walked
   * item by item, and when an item raises AttributeError the comprehension
   * is abandoned and the object comes back unmapped.
   */
  function DeepMap(obj: Value, mapElements: seq<Option<Callable>>): Result<Value, Raised>
    requires Mappable(obj, |mapElements|)
    decreases |mapElements|
  {
    if mapElements == [] then Ok(obj)
    else
      var curMap, otherMaps := mapElements[0], mapElements[1..];
      match obj
      case Dict(d) =>
        if otherMaps == [] then Apply(curMap, d)
        else if exists k :: k in d && DeepMap(d[k], otherMaps).Err? then Err(AttributeError)
        else Apply(curMap, map k | k in d :: DeepMap(d[k], otherMaps).value)
      case List(xs) =>
        if exists i :: 0 <= i < |xs| && DeepMap(xs[i], otherMaps).Err? then Ok(obj)
        else Ok(List(seq(|xs|, i requires 0 <= i < |xs| => DeepMap(xs[i], otherMaps).value)))
      case Str(s) =>
        if exists i :: 0 <= i < |s| && DeepMap(Str([s[i]]), otherMaps).Err? then Ok(obj)
        else Ok(List(seq(|s|, i requires 0 <= i < |s| => DeepMap(Str([s[i]]), otherMaps).value)))
  }

  /** Only a dictionary raises: a list or a string catches what its items raise. */
  lemma DeepMapRaises(obj: Value, mapElements: seq<Option<Callable>>)
    requires Mappable(obj, |mapElements|)
    ensures DeepMap(obj, mapElements).Err? ==> mapElements != [] && obj.Dict?
  {
  }

  /**
   * A list never raises: when one of its items raises AttributeError it
   * comes back unmapped, otherwise as the list of its walked items; the
   * callable of its own level is not applied.
   */
  lemma DeepMapListFallback(xs: seq<Value>, mapElements: seq<Option<Callable>>)
    requires mapElements != [] && Mappable(List(xs), |mapElements|)
    ensures DeepMap(List(xs), mapElements).Ok?
    ensures (exists i :: 0 <= i < |xs| && DeepMap(xs[i], mapElements[1..]).Err?) ==> DeepMap(List(xs), mapElements) == Ok(List(xs))
    ensures (forall i :: 0 <= i < |xs| ==> DeepMap(xs[i], mapElements[1..]).Ok?) ==>
      var r := DeepMap(List(xs), mapElements).value;
      && r.List? && |r.items| == |xs|
      && forall i :: 0 <= i < |xs| ==> r.items[i] == DeepMap(xs[i], mapElements[1..]).value
  {
  }

  /** Even with no callable anywhere, a string above the last level comes back as a list of its characters. */
  lemma DeepMapSplitsStrings()
    ensures DeepMap(Str("ab"), [None]) == Ok(List([Str("a"), Str("b")]))
  {
    var s := "ab";
    var others: seq<Option<Callable>> := [None][1..];
    assert others == [];
    assert ["ab"[0]] == "a" && ["ab"[1]] == "b";
    assert forall i :: 0 <= i < |s| ==> DeepMap(Str([s[i]]), others) == Ok(Str([s[i]]));
    assert seq(|s|, i requires 0 <= i < |s| => DeepMap(Str([s[i]]), others).value) == [Str("a"), Str("b")];
  }

  /** A callable that always raises AttributeError. */
  function RaiseAlways(arg: Option<map<string, Value>>): Result<Value, Raised>
  {
    Err(AttributeError)
  }

  /**
   * The catch: a dictionary inside a list whose callable raises leaves the
   * list unmapped, while the same dictionary inside a dictionary makes the
   * whole walk raise.
   */
  lemma DeepMapCatches()
    ensures DeepMap(List([Dict(map[])]), [None, Some(RaiseAlways)]) == Ok(List([Dict(map[])]))
    ensures DeepMap(Dict(map["k" := Dict(map[])]), [None, Some(RaiseAlways)]) == Err(AttributeError)
  {
    var m: seq<Option<Callable>> := [None, Some(RaiseAlways)];
    var others := m[1..];
    assert others == [Some(RaiseAlways)];
    assert DeepMap(Dict(map[]), others) == Err(AttributeError);
    var xs := [Dict(map[])];
    assert 0 <= 0 < |xs| && DeepMap(xs[0], others).Err?;
    assert "k" in map["k" := Dict(map[])];
  }

  /** No callable of the list ever raises. */
  ghost predicate NeverRaises(mapElements: seq<Option<Callable>>)
  {
    forall i, arg :: 0 <= i < |mapElements| && mapElements[i].Some? ==> mapElements[i].value(arg).Ok?
  }

  /**
   * With callables that never raise, the walk never raises and the
   * AttributeError fallback is never taken: every list comes back as the
   * list of its walked items.
   */
  lemma {:induction false} DeepMapTotal(obj: Value, mapElements: seq<Option<Callable>>)
    requires Mappable(obj, |mapElements|) && NeverRaises(mapElements)
    ensures DeepMap(obj, mapElements).Ok?
    ensures obj.List? && mapElements != [] ==>
      var r := DeepMap(obj, mapElements).value;
      && r.List? && |r.items| == |obj.items|
      && forall i :: 0 <= i < |obj.items| ==> DeepMap(obj.items[i], mapElements[1..]) == Ok(r.items[i])
    ensures obj.Dict? && mapElements != [] && mapElements[0].None? ==>
      var r := DeepMap(obj, mapElements).value;
      && r.Dict? && r.entries.Keys == obj.entries.Keys
      && forall k :: k in obj.entries ==>
        if |mapElements| == 1 then r.entries[k] == obj.entries[k]
        else DeepMap(obj.entries[k], mapElements[1..]) == Ok(r.entries[k])
    decreases |mapElements|
  {
    if mapElements != [] {
      var others := mapElements[1..];
      assert NeverRaises(others) by {
        forall i, arg | 0 <= i < |others| && others[i].Some? ensures others[i].value(arg).Ok? {
          assert others[i] == mapElements[i + 1];
        }
      }
      match obj
      case Dict(d) =>
        forall k | k in d ensures DeepMap(d[k], others).Ok? {
          DeepMapTotal(d[k], others);
        }
      case List(xs) =>
        forall i | 0 <= i < |xs| ensures DeepMap(xs[i], others).Ok? {
          DeepMapTotal(xs[i], others);
        }
      case Str(s) =>
        forall i | 0 <= i < |s| ensures DeepMap(Str([s[i]]), others).Ok? {
          DeepMapTotal(Str([s[i]]), others);
        }
    }
  }

  /** No level has a callable. */
  predicate NoCallables(mapElements: seq<Option<Callable>>)
  {
    forall i :: 0 <= i < |mapElements| ==> mapElements[i].None?
  }

  /**
   * The shape of a walk with no callables, defined on its own: down to
   * `depth` levels, every string is split into its one-character strings,
   * and dictionaries and lists keep their keys, lengths and order.
   */
  function Explode(obj: Value, depth: nat): (r: Value)
    requires Mappable(obj, depth)
    ensures depth > 0 && obj.Dict? ==> r.Dict? && r.entries.Keys == obj.entries.Keys
    ensures depth > 0 && obj.List? ==> r.List? && |r.items| == |obj.items|
    ensures depth > 0 && obj.Str? ==> r.List? && |r.items| == |obj.s|
    decreases depth
  {
    if depth == 0 then obj
    else match obj
      case Dict(d) => Dict(map k | k in d :: Explode(d[k], depth - 1))
      case List(xs) => List(seq(|xs|, i requires 0 <= i < |xs| => Explode(xs[i], depth - 1)))
      case Str(s) => List(seq(|s|, i requires 0 <= i < |s| => Explode(Str([s[i]]), depth - 1)))
  }

  /** With no callable at any level, `deepMap` never raises and gives the exploded value. */
  lemma {:induction false} DeepMapNoCallables(obj: Value, mapElements: seq<Option<Callable>>)
    requires Mappable(obj, |mapElements|) && NoCallables(mapElements)
    ensures DeepMap(obj, mapElements) == Ok(Explode(obj, |mapElements|))
    decreases |mapElements|
  {
    if mapElements != [] {
      var others := mapElements[1..];
      var depth := |mapElements|;
      assert NoCallables(others) by {
        forall i | 0 <= i < |others| ensures others[i].None? {
          assert others[i] == mapElements[i + 1];
        }
      }
      match obj
      case Dict(d) =>
        forall k | k in d ensures DeepMap(d[k], others) == Ok(Explode(d[k], depth - 1)) {
          DeepMapNoCallables(d[k], others);
        }
        NoCallablesDict(d, mapElements);
      case List(xs) =>
        forall i | 0 <= i < |xs| ensures DeepMap(xs[i], others) == Ok(Explode(xs[i], depth - 1)) {
          DeepMapNoCallables(xs[i], others);
        }
        assert seq(|xs|, i requires 0 <= i < |xs| => DeepMap(xs[i], others).value)
          == seq(|xs|, i requires 0 <= i < |xs| => Explode(xs[i], depth - 1));
      case Str(s) =>
        forall i | 0 <= i < |s| ensures DeepMap(Str([s[i]]), others) == Ok(Explode(Str([s[i]]), depth - 1)) {
          DeepMapNoCallables(Str([s[i]]), others);
        }
        assert seq(|s|, i requires 0 <= i < |s| => DeepMap(Str([s[i]]), others).value)
          == seq(|s|, i requires 0 <= i < |s| => Explode(Str([s[i]]), depth - 1));
    }
  }

  /** The dictionary step of `DeepMapNoCallables`. */
  lemma NoCallablesDict(d: map<string, Value>, mapElements: seq<Option<Callable>>)
    requires mapElements != [] && mapElements[0].None? && Mappable(Dict(d), |mapElements|)
    requires forall k :: k in d ==> DeepMap(d[k], mapElements[1..]) == Ok(Explode(d[k], |mapElements| - 1))
    ensures DeepMap(Dict(d), mapElements) == Ok(Explode(Dict(d), |mapElements|))
  {
    if |mapElements| == 1 {
      NoCallablesDictLast(d, mapElements);
    } else {
      NoCallablesDictDeep(d, mapElements);
    }
  }

  /** The dictionary step at the last level: the dictionary comes back as it is. */
  lemma NoCallablesDictLast(d: map<string, Value>, mapElements: seq<Option<Callable>>)
    requires |mapElements| == 1 && mapElements[0].None?
    ensures DeepMap(Dict(d), mapElements) == Ok(Explode(Dict(d), 1))
  {
    var exploded := map k | k in d :: Explode(d[k], 0);
    assert exploded == d;
  }

  /** The dictionary step above the last level: the values are walked. */
  lemma NoCallablesDictDeep(d: map<string, Value>, mapElements: seq<Option<Callable>>)
    requires |mapElements| > 1 && mapElements[0].None? && Mappable(Dict(d), |mapElements|)
    requires forall k :: k in d ==> DeepMap(d[k], mapElements[1..]) == Ok(Explode(d[k], |mapElements| - 1))
    ensures DeepMap(Dict(d), mapElements) == Ok(Explode(Dict(d), |mapElements|))
  {
    var others := mapElements[1..];
    assert forall k :: k in d ==> DeepMap(d[k], others).Ok?;
    var mapped := map k | k in d :: DeepMap(d[k], others).value;
    assert mapped == map k | k in d :: Explode(d[k], |mapElements| - 1);
    assert DeepMap(Dict(d), mapElements) == Apply(None, mapped);
  }

  /** Without strings above the last level there is nothing to split. */
  lemma {:induction false} ExplodeWalkable(obj: Value, depth: nat)
    requires Walkable(obj, depth)
    ensures Mappable(obj, depth) && Explode(obj, depth) == obj
    decreases depth
  {
    WalkableMappable(obj, depth);
    if depth > 0 {
      match obj
      case Dict(d) =>
        forall k | k in d ensures Explode(d[k], depth - 1) == d[k] {
          ExplodeWalkable(d[k], depth - 1);
        }
        assert (map k | k in d :: Explode(d[k], depth - 1)) == d;
      case List(xs) =>
        forall i | 0 <= i < |xs| ensures Explode(xs[i], depth - 1) == xs[i] {
          ExplodeWalkable(xs[i], depth - 1);
        }
        assert seq(|xs|, i requires 0 <= i < |xs| => Explode(xs[i], depth - 1)) == xs;
    }
  }

  /** No callable at any level and no string above the last one: the walk changes nothing. */
  lemma DeepMapIdentity(obj: Value, mapElements: seq<Option<Callable>>)
    requires Walkable(obj, |mapElements|) && NoCallables(mapElements)
    ensures Mappable(obj, |mapElements|) && DeepMap(obj, mapElements) == Ok(obj)
  {
    ExplodeWalkable(obj, |mapElements|);
    DeepMapNoCallables(obj, mapElements);
  }

  /**
   * `fromJson(jsonStr, castTypes)`: an empty text with a first callable
   * gives that callable called with nothing, without decoding; otherwise
   * the text is decoded by `loads` and walked. What a callable raises
   * propagates out of `fromJson`.
   */
  function FromJson(jsonStr: string, castTypes: seq<Option<Callable>>, loads: string -> Result<Value, JsonError>): Result<Value, JsonError>
    requires loads(jsonStr).Ok? ==> Mappable(loads(jsonStr).value, |castTypes|)
  {
    if jsonStr == "" && castTypes != [] && castTypes[0].Some? then
      match castTypes[0].value(None)
      case Ok(v) => Ok(v)
      case Err(e) => Err(Raise(e))
    else
      match loads(jsonStr)
      case Err(e) => Err(e)
      case Ok(rawObj) =>
        match DeepMap(rawObj, castTypes)
        case Ok(v) => Ok(v)
        case Err(e) => Err(Raise(e))
  }

  /** The empty-string shortcut holds whatever `loads` would make of the empty text. */
  lemma FromJsonEmpty(castTypes: seq<Option<Callable>>, loads: string -> Result<Value, JsonError>, other: string -> Result<Value, JsonError>)
    requires castTypes != [] && castTypes[0].Some?
    requires loads("").Ok? ==> Mappable(loads("").value, |castTypes|)
    requires other("").Ok? ==> Mappable(other("").value, |castTypes|)
    ensures FromJson("", castTypes, loads) == FromJson("", castTypes, other)
    ensures castTypes[0].value(None).Ok? ==> FromJson("", castTypes, loads) == Ok(castTypes[0].value(None).value)
  {
  }

  /**
   * With callables that never raise, `fromJson` fails only where a text is
   * decoded and does not decode, and otherwise gives the walked value.
   */
  lemma FromJsonNeverRaises(jsonStr: string, castTypes: seq<Option<Callable>>, loads: string -> Result<Value, JsonError>)
    requires loads(jsonStr).Ok? ==> Mappable(loads(jsonStr).value, |castTypes|)
    requires NeverRaises(castTypes) && (loads(jsonStr).Err? ==> loads(jsonStr).error == JSONDecodeError)
    ensures FromJson(jsonStr, castTypes, loads).Err? <==>
      !(jsonStr == "" && castTypes != [] && castTypes[0].Some?) && loads(jsonStr).Err?
    ensures FromJson(jsonStr, castTypes, loads).Err? ==> FromJson(jsonStr, castTypes, loads).error == JSONDecodeError
    ensures !(jsonStr == "" && castTypes != [] && castTypes[0].Some?) && loads(jsonStr).Ok? ==>
      FromJson(jsonStr, castTypes, loads) == Ok(DeepMap(loads(jsonStr).value, castTypes).value)
  {
    if !(jsonStr == "" && castTypes != [] && castTypes[0].Some?) && loads(jsonStr).Ok? {
      DeepMapTotal(loads(jsonStr).value, castTypes);
    } else if jsonStr == "" && castTypes != [] && castTypes[0].Some? {
      assert castTypes[0].value(None).Ok?;
    }
  }
}
