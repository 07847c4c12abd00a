/** JSON values, and reading and writing along a dotted path. */
module Json {
  import opened Options
  import opened Text

  datatype Json =
    | Null
    | Bool(b: bool)
    | Number(n: int)
    | Str(s: string)
    | Array(items: seq<Json>)
    | Object(fields: map<string, Json>)

  /** The values that count as false in a condition. */
  predicate Falsy(v: Json) {
    v == Null || v == Bool(false) || v == Number(0) || v == Str("") || v == Array([]) || v == Object(map[])
  }

  /** The keys of a dotted path. */
  function Keys(path: string): (keys: seq<string>)
    ensures keys != []
    decreases |path|
  {
    match Cut(path, '.')
    case None => [path]
    case Some((first, rest)) => [first] + Keys(rest)
  }

  /** None stands for an exception: something on the path is neither an object nor null. */
  function Get(data: Json, keys: seq<string>): Option<Json>
    decreases |keys|
  {
    if keys == [] then Some(data)
    else if data == Null then Some(Null)
    else if !data.Object? then None
    else Get(if keys[0] in data.fields then data.fields[keys[0]] else Null, keys[1..])
  }

  /** None stands for an exception: something on the path is there and is not an object. */
  function Set(data: Json, keys: seq<string>, value: Json): Option<Json>
    requires keys != []
    decreases |keys|
  {
    if !data.Object? then None
    else if |keys| == 1 then Some(Object(data.fields[keys[0] := value]))
    else
      match Set(if keys[0] in data.fields then data.fields[keys[0]] else Object(map[]), keys[1..], value)
      case None => None
      case Some(child) => Some(Object(data.fields[keys[0] := child]))
  }

  /** Neither path is a prefix of the other. */
  predicate Apart(p: seq<string>, q: seq<string>) {
    !(p <= q) && !(q <= p)
  }

  /** What was written is read back. */
  lemma {:induction false} GetAfterSet(data: Json, keys: seq<string>, value: Json)
    requires keys != [] && Set(data, keys, value).Some?
    ensures Get(Set(data, keys, value).value, keys) == Some(value)
    decreases |keys|
  {
    if |keys| > 1 {
      GetAfterSet(if keys[0] in data.fields then data.fields[keys[0]] else Object(map[]), keys[1..], value);
    } else {
      assert keys[1..] == [];
    }
  }

  lemma {:induction false} GetFromNull(keys: seq<string>)
    ensures Get(Null, keys) == Some(Null)
    ensures keys != [] ==> Get(Object(map[]), keys) == Some(Null)
  {
  }

  /** Writing along one path does not change what is read along a path apart from it. */
  lemma {:induction false} GetAfterOtherSet(data: Json, p: seq<string>, q: seq<string>, value: Json)
    requires p != [] && Set(data, p, value).Some? && Apart(p, q)
    ensures Get(Set(data, p, value).value, q) == Get(data, q)
    decreases |p|
  {
    assert q != [] by { assert [] <= p; }
    if p[0] == q[0] {
      assert p == [p[0]] + p[1..] && q == [q[0]] + q[1..];
      assert p[1..] != [] && q[1..] != [];
      assert Apart(p[1..], q[1..]) by {
        assert p[1..] <= q[1..] ==> p <= q;
        assert q[1..] <= p[1..] ==> q <= p;
      }
      GetAfterOtherSet(if p[0] in data.fields then data.fields[p[0]] else Object(map[]), p[1..], q[1..], value);
      GetFromNull(q[1..]);
    }
  }

  /** Everything that is already there on the way to the last key is an object. */
  predicate Settable(data: Json, keys: seq<string>)
    requires keys != []
    decreases |keys|
  {
    data.Object? && (|keys| == 1 || keys[0] !in data.fields || Settable(data.fields[keys[0]], keys[1..]))
  }

  lemma {:induction false} SetExact(data: Json, keys: seq<string>, value: Json)
    requires keys != []
    ensures Set(data, keys, value).Some? <==> Settable(data, keys)
    decreases |keys|
  {
    if data.Object? && |keys| > 1 {
      if keys[0] in data.fields {
        SetExact(data.fields[keys[0]], keys[1..], value);
      } else {
        SetExact(Object(map[]), keys[1..], value);
      }
    }
  }

  /** Writing along one path neither blocks nor opens a path apart from it. */
  lemma {:induction false} SettableAfterOtherSet(data: Json, p: seq<string>, q: seq<string>, value: Json)
    requires p != [] && q != [] && Set(data, p, value).Some? && Apart(p, q)
    ensures Settable(Set(data, p, value).value, q) <==> Settable(data, q)
    decreases |p|
  {
    if p[0] == q[0] {
      assert p == [p[0]] + p[1..] && q == [q[0]] + q[1..];
      assert p[1..] != [] && q[1..] != [];
      assert Apart(p[1..], q[1..]) by {
        assert p[1..] <= q[1..] ==> p <= q;
        assert q[1..] <= p[1..] ==> q <= p;
      }
      SettableAfterOtherSet(if p[0] in data.fields then data.fields[p[0]] else Object(map[]), p[1..], q[1..], value);
    }
  }

  // ---------- What counts as false, what a path is, and what is read along it ----------

  /** Null, false, zero, and whatever is empty. */
  lemma FalsyExact(v: Json)
    ensures Falsy(v) <==>
              match v
              case Null => true
              case Bool(b) => !b
              case Number(n) => n == 0
              case Str(s) => |s| == 0
              case Array(items) => |items| == 0
              case Object(fields) => forall key :: key !in fields
  {
    if v.Object? && forall key :: key !in v.fields {
      assert v.fields == map[];
    }
  }

  /** The keys with a dot between them. */
  function Dotted(keys: seq<string>): string
    requires keys != []
  {
    if |keys| == 1 then keys[0] else keys[0] + "." + Dotted(keys[1..])
  }

  lemma {:induction false} DottedOnce(keys: seq<string>)
    requires keys != [] && forall key | key in keys :: '.' !in key
    ensures Keys(Dotted(keys)) == keys
    decreases |keys|
  {
    if |keys| == 1 {
      assert '.' !in Dotted(keys) && keys == [keys[0]];
    } else {
      DottedOnce(keys[1..]);
      assert keys == [keys[0]] + keys[1..];
      assert Dotted(keys) == keys[0] + ['.'] + Dotted(keys[1..]);
      CutJoined(keys[0], '.', Dotted(keys[1..]));
    }
  }

  lemma {:induction false} KeysDotted(path: string)
    ensures Dotted(Keys(path)) == path && forall key | key in Keys(path) :: '.' !in key
    decreases |path|
  {
    match Cut(path, '.')
    case None =>
    case Some((first, rest)) =>
      KeysDotted(rest);
      assert Keys(path) == [first] + Keys(rest);
      assert Keys(path)[1..] == Keys(rest);
      assert path == first + "." + rest;
  }

  /** The keys of a path are the one way to write it with dots between keys that have none. */
  lemma KeysExact(path: string, keys: seq<string>)
    ensures keys == Keys(path) <==> keys != [] && (forall key | key in keys :: '.' !in key) && Dotted(keys) == path
  {
    hide Keys, Dotted;
    KeysDotted(path);
    if keys != [] && (forall key | key in keys :: '.' !in key) && Dotted(keys) == path {
      DottedOnce(keys);
    }
  }

  /** One value for each step of the walk: a missing key, or anything after null, is null. */
  ghost predicate Walks(data: Json, keys: seq<string>, values: seq<Json>) {
    && |values| == |keys| + 1 && values[0] == data
    && forall i | 0 <= i < |keys| ::
         && (values[i].Object? || values[i] == Null)
         && values[i + 1] == if values[i].Object? && keys[i] in values[i].fields then values[i].fields[keys[i]] else Null
  }

  lemma {:induction false} WalkFound(data: Json, keys: seq<string>) returns (values: seq<Json>)
    requires Get(data, keys).Some?
    ensures Walks(data, keys, values) && values[|keys|] == Get(data, keys).value
    decreases |keys|
  {
    if keys == [] {
      values := [data];
    } else {
      var next := if data.Object? && keys[0] in data.fields then data.fields[keys[0]] else Null;
      GetFromNull(keys[1..]);
      var rest := WalkFound(next, keys[1..]);
      values := [data] + rest;
      forall i | 0 <= i < |keys|
        ensures (values[i].Object? || values[i] == Null)
                && values[i + 1] == if values[i].Object? && keys[i] in values[i].fields then values[i].fields[keys[i]] else Null {
        if i > 0 {
          assert values[i] == rest[i - 1] && keys[i] == keys[1..][i - 1];
        }
      }
    }
  }

  lemma {:induction false} WalkReads(data: Json, keys: seq<string>, values: seq<Json>)
    requires Walks(data, keys, values)
    ensures Get(data, keys) == Some(values[|keys|])
    decreases |keys|
  {
    if keys != [] {
      GetFromNull(keys);
      assert Walks(values[1], keys[1..], values[1..]);
      WalkReads(values[1], keys[1..], values[1..]);
      GetFromNull(keys[1..]);
    }
  }

  /** What is read along a path is where the walk ends; it raises exactly if there is no walk. */
  lemma GetExact(data: Json, keys: seq<string>, value: Json)
    ensures Get(data, keys) == Some(value) <==> exists values :: Walks(data, keys, values) && values[|keys|] == value
  {
    hide Get;
    if Get(data, keys).Some? {
      var values := WalkFound(data, keys);
    }
    if values :| Walks(data, keys, values) && values[|keys|] == value {
      WalkReads(data, keys, values);
    }
  }
}
