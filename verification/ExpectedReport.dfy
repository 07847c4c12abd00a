/** What the validation of expected fields reports and what its fix writes, item by item and field by field. */
module ExpectedReport {
  import opened Options
  import opened Json
  import opened ExpectedFields

  // ---------- The errors ----------

  /** What the field of the item should be: the fixed value, or the one computed from titles and recids. */
  ghost predicate Expects(r: Release, kind: Kind, i: nat, field: Field, value: Json)
    requires i < |Items(r, kind)|
  {
    match field.expected
    case Fixed(v) => value == v
    case Computed(f) =>
      exists keys: seq<ItemKey> ::
        && |keys| == |r.records| && (forall k | 0 <= k < |keys| :: IsKey(r.records[k], keys[k]))
        && f(keys, ItemKey(Get(Items(r, kind)[i], ["title"]), Get(Items(r, kind)[i], ["recid"]))) == Some(value)
  }

  ghost predicate IsKey(item: Json, key: ItemKey) {
    key.title == Get(item, ["title"]) && key.recid == Get(item, ["recid"])
  }

  /** What an error says about the field of the item. */
  ghost predicate Says(r: Release, kind: Kind, i: nat, field: Field, e: FieldError)
    requires i < |Items(r, kind)|
  {
    match e
    case Undetermined(k, entry, path) =>
      k == kind && entry == i + 1 && path == field.path && exists v :: Expects(r, kind, i, field, v) && Falsy(v)
    case Mismatch(k, entry, path, expected, actual) =>
      && k == kind && entry == i + 1 && path == field.path
      && Expects(r, kind, i, field, expected) && !Falsy(expected)
      && Get(Items(r, kind)[i], Keys(path)) == Some(actual) && actual != expected
  }

  lemma ExpectsExact(r: Release, kind: Kind, i: nat, field: Field, value: Json)
    requires i < |Items(r, kind)|
    ensures Expects(r, kind, i, field, value) <==> Resolve(field.expected, r, Items(r, kind)[i]) == Some(value)
  {
    hide Get;
    match field.expected
    case Fixed(_) =>
    case Computed(f) =>
      var all := KeysOf(r.records);
      assert forall k | 0 <= k < |all| :: IsKey(r.records[k], all[k]);
      assert forall keys: seq<ItemKey> | |keys| == |r.records| && (forall k | 0 <= k < |keys| :: IsKey(r.records[k], keys[k])) ::
          keys == all;
  }

  lemma CheckFieldSays(r: Release, kind: Kind, i: nat, field: Field, e: FieldError)
    requires i < |Items(r, kind)| && CheckField(r, kind, i, field).Some?
    ensures e in CheckField(r, kind, i, field).value <==> Says(r, kind, i, field, e)
  {
    var value := Resolve(field.expected, r, Items(r, kind)[i]).value;
    forall v ensures Expects(r, kind, i, field, v) <==> v == value {
      ExpectsExact(r, kind, i, field, v);
    }
    hide Expects, Resolve, Get, Keys, Falsy;
  }

  lemma {:induction false} CheckItemsSay(r: Release, kind: Kind, field: Field, n: nat, e: FieldError)
    requires n <= |Items(r, kind)| && CheckItems(r, kind, field, n).Some?
    ensures e in CheckItems(r, kind, field, n).value <==> exists i :: 0 <= i < n && Says(r, kind, i, field, e)
  {
    hide CheckField, Says;
    if n > 0 {
      CheckItemsSay(r, kind, field, n - 1, e);
      CheckFieldSays(r, kind, n - 1, field, e);
    }
  }

  ghost predicate SaysSome(r: Release, kind: Kind, field: Field, e: FieldError) {
    exists i :: 0 <= i < |Items(r, kind)| && Says(r, kind, i, field, e)
  }

  lemma {:induction false} CheckFieldsSay(r: Release, kind: Kind, fields: seq<Field>, e: FieldError)
    requires CheckFields(r, kind, fields).Some?
    ensures e in CheckFields(r, kind, fields).value <==> exists field :: field in fields && SaysSome(r, kind, field, e)
  {
    hide CheckItems, SaysSome;
    if fields != [] {
      var n := |fields| - 1;
      CheckFieldsSay(r, kind, fields[..n], e);
      assert forall field :: field in fields <==> field in fields[..n] || field == fields[n];
      assert e in CheckItems(r, kind, fields[n], |Items(r, kind)|).value <==> SaysSome(r, kind, fields[n], e) by {
        CheckItemsSay(r, kind, fields[n], |Items(r, kind)|, e);
        SomeSays(r, kind, fields[n], e);
      }
    }
  }

  lemma SomeSays(r: Release, kind: Kind, field: Field, e: FieldError)
    ensures SaysSome(r, kind, field, e) <==> exists i :: 0 <= i < |Items(r, kind)| && Says(r, kind, i, field, e)
  {
  }

  lemma SaysKind(r: Release, kind: Kind, field: Field, e: FieldError)
    ensures SaysSome(r, kind, field, e) ==> e.kind == kind
  {
    hide Expects;
  }

  /** When validation goes through, its errors are exactly those of some item and field of a kind that it applies to: the
      expected value counts as false, or the field is something else. */
  lemma ErrorsExactly(r: Release, fields: seq<Field>, appliesTo: set<Kind>, e: FieldError)
    requires Validated(r, fields, appliesTo).Some?
    ensures e in Validated(r, fields, appliesTo).value <==>
              e.kind in appliesTo && exists field :: field in fields && SaysSome(r, e.kind, field, e)
  {
    hide CheckFields, SaysSome;
    forall kind | kind in appliesTo ensures CheckKind(r, kind, fields, appliesTo).Some?
      && (e in CheckKind(r, kind, fields, appliesTo).value <==> exists field :: field in fields && SaysSome(r, kind, field, e)) {
      assert kind == Records || kind == Documents;
      CheckFieldsSay(r, kind, fields, e);
    }
    forall kind, field ensures SaysSome(r, kind, field, e) ==> e.kind == kind {
      SaysKind(r, kind, field, e);
    }
    assert e.kind == Records || e.kind == Documents;
  }

  // ---------- What the fix leaves alone ----------

  /** The fix of the field writes nothing that is read along the keys in that item. */
  ghost predicate Spared(r: Release, kind: Kind, field: Field, j: nat, keys: seq<string>)
    requires j < |Items(r, kind)|
  {
    || Apart(Keys(field.path), keys)
    || (Resolve(field.expected, r, Items(r, kind)[j]).Some? && Falsy(Resolve(field.expected, r, Items(r, kind)[j]).value))
  }

  ghost predicate SameThere(r: Release, r': Release, kind: Kind, j: nat, keys: seq<string>) {
    j < |Items(r, kind)| && j < |Items(r', kind)| && Get(Items(r', kind)[j], keys) == Get(Items(r, kind)[j], keys)
  }

  lemma SparedStays(r: Release, r': Release, kind: Kind, field: Field, j: nat, keys: seq<string>)
    requires SameKeys(r, r') && j < |Items(r, kind)| && Spared(r, kind, field, j, keys)
    ensures j < |Items(r', kind)| && Spared(r', kind, field, j, keys)
  {
    SameResolve(field.expected, r, r', kind, j);
  }

  lemma FixFieldSpares(r: Release, kind: Kind, i: nat, field: Field, j: nat, keys: seq<string>)
    requires i < |Items(r, kind)| && j < |Items(r, kind)| && FixField(r, kind, i, field).Some?
    requires Spared(r, kind, field, j, keys)
    ensures SameThere(r, FixField(r, kind, i, field).value.0, kind, j, keys)
  {
    hide Get, Set, Resolve, Keys;
    var item, expected := Items(r, kind)[i], Resolve(field.expected, r, Items(r, kind)[i]).value;
    if i == j && !Falsy(expected) {
      GetAfterOtherSet(item, Keys(field.path), keys, expected);
    }
  }

  lemma FixFieldOther(r: Release, kind: Kind, i: nat, field: Field, other: Kind)
    requires i < |Items(r, kind)| && other != kind && FixField(r, kind, i, field).Some?
    ensures Items(FixField(r, kind, i, field).value.0, other) == Items(r, other)
  {
  }

  lemma {:induction false} FixItemsSpare(r: Release, kind: Kind, field: Field, n: nat, j: nat, keys: seq<string>)
    requires n <= |Items(r, kind)| && j < |Items(r, kind)| && Fixable(field) && FixItems(r, kind, field, n).Some?
    requires Spared(r, kind, field, j, keys)
    ensures SameThere(r, FixItems(r, kind, field, n).value.0, kind, j, keys)
  {
    hide FixField, Spared, Get, Fixable, SameKeys;
    if n > 0 {
      FixItemsSpare(r, kind, field, n - 1, j, keys);
      FixItemsEffect(r, kind, field, n - 1);
      var r1 := FixItems(r, kind, field, n - 1).value.0;
      SparedStays(r, r1, kind, field, j, keys);
      FixFieldSpares(r1, kind, n - 1, field, j, keys);
    }
  }

  lemma {:induction false} FixFieldsSpare(r: Release, kind: Kind, fields: seq<Field>, j: nat, keys: seq<string>)
    requires Separate(fields) && j < |Items(r, kind)| && FixFields(r, kind, fields).Some?
    requires forall k | 0 <= k < |fields| :: Spared(r, kind, fields[k], j, keys)
    ensures SameThere(r, FixFields(r, kind, fields).value.0, kind, j, keys)
  {
    hide FixItems, Spared, Get, Separate, SameKeys, Settled, UnknownFields;
    if fields != [] {
      var n := |fields| - 1;
      SeparatePrefix(fields, n);
      FixFieldsSpare(r, kind, fields[..n], j, keys);
      FixFieldsEffect(r, kind, fields[..n]);
      var r1 := FixFields(r, kind, fields[..n]).value.0;
      SparedStays(r, r1, kind, fields[n], j, keys);
      FixItemsSpare(r1, kind, fields[n], |Items(r1, kind)|, j, keys);
    }
  }

  lemma {:induction false} FixItemsOther(r: Release, kind: Kind, field: Field, n: nat, other: Kind)
    requires n <= |Items(r, kind)| && other != kind && FixItems(r, kind, field, n).Some?
    ensures Items(FixItems(r, kind, field, n).value.0, other) == Items(r, other)
  {
    hide FixField;
    if n > 0 {
      FixItemsOther(r, kind, field, n - 1, other);
      FixFieldOther(FixItems(r, kind, field, n - 1).value.0, kind, n - 1, field, other);
    }
  }

  lemma {:induction false} FixFieldsOther(r: Release, kind: Kind, fields: seq<Field>, other: Kind)
    requires other != kind && FixFields(r, kind, fields).Some?
    ensures Items(FixFields(r, kind, fields).value.0, other) == Items(r, other)
  {
    hide FixItems;
    if fields != [] {
      var n := |fields| - 1;
      FixFieldsOther(r, kind, fields[..n], other);
      var r1 := FixFields(r, kind, fields[..n]).value.0;
      FixItemsOther(r1, kind, fields[n], |Items(r1, kind)|, other);
    }
  }

  /** Both halves of the fix, for one kind: the other half leaves it alone. */
  lemma RepairByKind(r: Release, fields: seq<Field>, appliesTo: set<Kind>, kind: Kind) returns (before: Release)
    requires Separate(fields) && Repaired(r, fields, appliesTo).Some?
    ensures SameKeys(r, before) && Items(before, kind) == Items(r, kind)
    ensures if kind in appliesTo
            then FixFields(before, kind, fields).Some?
                 && Items(Repaired(r, fields, appliesTo).value.0, kind) == Items(FixFields(before, kind, fields).value.0, kind)
            else Items(Repaired(r, fields, appliesTo).value.0, kind) == Items(r, kind)
  {
    hide FixFields, CheckKind, SameKeys, Separate;
    var r1 := FixKind(r, Records, fields, appliesTo).value.0;
    SameKeysSelf(r);
    FixKindEffect(r, Records, fields, appliesTo);
    if Records in appliesTo { FixFieldsOther(r, Records, fields, Documents); }
    if Documents in appliesTo { FixFieldsOther(r1, Documents, fields, Records); }
    match kind
    case Records => before := r;
    case Documents => before := r1;
  }

  /** What the fix writes: kinds that it does not apply to stay as they are; a field whose expected value is known reads as
      that afterwards; anything else reads as before: a field whose value is not known, and every path apart from all
      fields. The errors are exactly the fields whose value is not known. */
  lemma FixExactly(r: Release, fields: seq<Field>, appliesTo: set<Kind>, kind: Kind, i: nat, field: Field, value: Json,
                   keys: seq<string>, e: FieldError)
    requires Separate(fields) && Repaired(r, fields, appliesTo).Some? && i < |Items(r, kind)|
    ensures var (r', errors) := Repaired(r, fields, appliesTo).value;
            && |Items(r', kind)| == |Items(r, kind)|
            && (kind !in appliesTo ==> Items(r', kind) == Items(r, kind))
            && (kind in appliesTo && field in fields && Expects(r, kind, i, field, value) ==>
                  Get(Items(r', kind)[i], Keys(field.path))
                  == if Falsy(value) then Get(Items(r, kind)[i], Keys(field.path)) else Some(value))
            && ((forall g | g in fields :: Apart(Keys(g.path), keys)) ==> Get(Items(r', kind)[i], keys) == Get(Items(r, kind)[i], keys))
            && (e in errors <==> e.kind in appliesTo && e.Undetermined? && exists g :: g in fields && SaysSome(r, e.kind, g, e))
  {
    hide Repaired, Validated, SameKeys, Separate, Expects, SaysSome, Get, Keys, FixFields, Falsy;
    RepairIsExact(r, fields, appliesTo);
    FixLeaves(r, fields, appliesTo, kind, i, keys);
    var (r', errors) := Repaired(r, fields, appliesTo).value;
    ErrorsExactly(r', fields, appliesTo, e);
    if e.Undetermined? {
      forall g ensures SaysSome(r', e.kind, g, e) <==> SaysSome(r, e.kind, g, e) {
        SameUndetermined(r, r', e.kind, g, e);
      }
    }
    if kind in appliesTo && field in fields && Expects(r, kind, i, field, value) {
      if Falsy(value) {
        FixLeavesUnknown(r, fields, appliesTo, kind, i, field, value);
      } else {
        FixSets(r, fields, appliesTo, kind, i, field, value);
      }
    }
  }

  lemma SameExpects(r: Release, r': Release, kind: Kind, i: nat, field: Field, value: Json)
    requires SameKeys(r, r') && i < |Items(r, kind)|
    ensures i < |Items(r', kind)| && (Expects(r', kind, i, field, value) <==> Expects(r, kind, i, field, value))
  {
    hide SameKeys, Expects;
    SameResolve(field.expected, r, r', kind, i);
    ExpectsExact(r, kind, i, field, value);
    ExpectsExact(r', kind, i, field, value);
  }

  lemma SameUndetermined(r: Release, r': Release, kind: Kind, field: Field, e: FieldError)
    requires SameKeys(r, r') && e.Undetermined?
    ensures SaysSome(r', kind, field, e) <==> SaysSome(r, kind, field, e)
  {
    SameSize(r, r', kind);
    hide SameKeys, Expects, Falsy;
    forall i | 0 <= i < |Items(r, kind)| ensures Says(r', kind, i, field, e) <==> Says(r, kind, i, field, e) {
      forall v ensures Expects(r', kind, i, field, v) <==> Expects(r, kind, i, field, v) {
        SameExpects(r, r', kind, i, field, v);
      }
    }
  }

  lemma FixLeaves(r: Release, fields: seq<Field>, appliesTo: set<Kind>, kind: Kind, i: nat, keys: seq<string>)
    requires Separate(fields) && Repaired(r, fields, appliesTo).Some? && i < |Items(r, kind)|
    ensures var r' := Repaired(r, fields, appliesTo).value.0;
            && (kind !in appliesTo ==> Items(r', kind) == Items(r, kind))
            && ((forall g | g in fields :: Apart(Keys(g.path), keys)) ==> Get(Items(r', kind)[i], keys) == Get(Items(r, kind)[i], keys))
  {
    hide Separate, SameKeys, Keys, Get, FixFields, Repaired;
    var before := RepairByKind(r, fields, appliesTo, kind);
    if kind in appliesTo && forall g | g in fields :: Apart(Keys(g.path), keys) {
      FixFieldsSpare(before, kind, fields, i, keys);
    }
  }

  lemma FixLeavesUnknown(r: Release, fields: seq<Field>, appliesTo: set<Kind>, kind: Kind, i: nat, field: Field, value: Json)
    requires Separate(fields) && Repaired(r, fields, appliesTo).Some? && i < |Items(r, kind)|
    requires kind in appliesTo && field in fields && Expects(r, kind, i, field, value) && Falsy(value)
    ensures var r' := Repaired(r, fields, appliesTo).value.0;
            Get(Items(r', kind)[i], Keys(field.path)) == Get(Items(r, kind)[i], Keys(field.path))
  {
    var before := RepairByKind(r, fields, appliesTo, kind);
    SameExpects(r, before, kind, i, field, value);
    ExpectsExact(before, kind, i, field, value);
    var k :| 0 <= k < |fields| && fields[k] == field;
    forall g | 0 <= g < |fields| ensures Spared(before, kind, fields[g], i, Keys(field.path)) {
    }
    hide Separate, SameKeys, Keys, Get, FixFields, Repaired, Spared, Falsy, Expects, Resolve;
    FixFieldsSpare(before, kind, fields, i, Keys(field.path));
  }

  lemma FixSets(r: Release, fields: seq<Field>, appliesTo: set<Kind>, kind: Kind, i: nat, field: Field, value: Json)
    requires Separate(fields) && Repaired(r, fields, appliesTo).Some? && i < |Items(r, kind)|
    requires kind in appliesTo && field in fields && Expects(r, kind, i, field, value) && !Falsy(value)
    ensures var r' := Repaired(r, fields, appliesTo).value.0;
            i < |Items(r', kind)| && Get(Items(r', kind)[i], Keys(field.path)) == Some(value)
  {
    hide Separate, SameKeys, Keys, Get, FixFields, Falsy, Expects, Settled, FixKind;
    var before := RepairByKind(r, fields, appliesTo, kind);
    SameExpects(r, before, kind, i, field, value);
    FixFieldsEffect(before, kind, fields);
    var after := FixFields(before, kind, fields).value.0;
    SameExpects(before, after, kind, i, field, value);
    ExpectsExact(after, kind, i, field, value);
    var k :| 0 <= k < |fields| && fields[k] == field;
    assert Settled(after, kind, i, fields[k]);
    SettledReads(after, kind, i, field, value);
  }

  lemma SettledReads(r: Release, kind: Kind, i: nat, field: Field, value: Json)
    requires i < |Items(r, kind)| && Settled(r, kind, i, field)
    requires Resolve(field.expected, r, Items(r, kind)[i]) == Some(value) && !Falsy(value)
    ensures Get(Items(r, kind)[i], Keys(field.path)) == Some(value)
  {
  }
}
