/** Fields with expected values: validation, and the fix that sets them. */
module ExpectedFields {
  import opened Options
  import opened Json

  datatype Kind = Records | Documents

  datatype Release = Release(records: seq<Json>, documents: seq<Json>)

  /** The title and the recid of an item. */
  datatype ItemKey = ItemKey(title: Option<Json>, recid: Option<Json>)

  /** A fixed value, or one computed from the titles and recids of the records and of the item; None stands for an
      exception. */
  datatype Expected = Fixed(value: Json) | Computed(value_of: (seq<ItemKey>, ItemKey) -> Option<Json>)

  datatype Field = Field(path: string, expected: Expected)

  datatype FieldError =
    | Undetermined(kind: Kind, entry: nat, path: string)
    | Mismatch(kind: Kind, entry: nat, path: string, expected: Json, actual: Json)

  // ---------- Items ----------

  function Items(r: Release, kind: Kind): seq<Json> {
    match kind
    case Records => r.records
    case Documents => r.documents
  }

  function WithItem(r: Release, kind: Kind, i: nat, item: Json): Release
    requires i < |Items(r, kind)|
  {
    match kind
    case Records => r.(records := r.records[i := item])
    case Documents => r.(documents := r.documents[i := item])
  }

  function KeyOf(item: Json): ItemKey {
    ItemKey(Get(item, ["title"]), Get(item, ["recid"]))
  }

  function KeysOf(items: seq<Json>): (keys: seq<ItemKey>)
    ensures |keys| == |items|
  {
    seq(|items|, i requires 0 <= i < |items| => KeyOf(items[i]))
  }

  function Resolve(e: Expected, r: Release, item: Json): Option<Json> {
    match e
    case Fixed(value) => Some(value)
    case Computed(f) => f(KeysOf(r.records), KeyOf(item))
  }

  // ---------- Validation; None stands for an exception ----------

  /** The errors of one field of one item. */
  function CheckField(r: Release, kind: Kind, i: nat, field: Field): Option<seq<FieldError>>
    requires i < |Items(r, kind)|
  {
    var item := Items(r, kind)[i];
    match Resolve(field.expected, r, item)
    case None => None
    case Some(expected) =>
      if Falsy(expected) then Some([Undetermined(kind, i + 1, field.path)])
      else
        match Get(item, Keys(field.path))
        case None => None
        case Some(actual) =>
          Some(if actual != expected then [Mismatch(kind, i + 1, field.path, expected, actual)] else [])
  }

  /** One field of the first n items. */
  function CheckItems(r: Release, kind: Kind, field: Field, n: nat): Option<seq<FieldError>>
    requires n <= |Items(r, kind)|
  {
    if n == 0 then Some([])
    else
      match CheckItems(r, kind, field, n - 1)
      case None => None
      case Some(errors) =>
        match CheckField(r, kind, n - 1, field)
        case None => None
        case Some(more) => Some(errors + more)
  }

  function CheckFields(r: Release, kind: Kind, fields: seq<Field>): Option<seq<FieldError>> {
    if fields == [] then Some([])
    else
      match CheckFields(r, kind, fields[..|fields| - 1])
      case None => None
      case Some(errors) =>
        match CheckItems(r, kind, fields[|fields| - 1], |Items(r, kind)|)
        case None => None
        case Some(more) => Some(errors + more)
  }

  function CheckKind(r: Release, kind: Kind, fields: seq<Field>, appliesTo: set<Kind>): Option<seq<FieldError>> {
    if kind in appliesTo then CheckFields(r, kind, fields) else Some([])
  }

  function Validated(r: Release, fields: seq<Field>, appliesTo: set<Kind>): Option<seq<FieldError>> {
    match CheckKind(r, Records, fields, appliesTo)
    case None => None
    case Some(errors) =>
      match CheckKind(r, Documents, fields, appliesTo)
      case None => None
      case Some(more) => Some(errors + more)
  }

  // ---------- The fix; None stands for an exception ----------

  type Repair = Option<(Release, seq<FieldError>)>

  function FixField(r: Release, kind: Kind, i: nat, field: Field): (result: Repair)
    requires i < |Items(r, kind)|
    ensures result.Some? ==> forall k :: |Items(result.value.0, k)| == |Items(r, k)|
  {
    var item := Items(r, kind)[i];
    match Resolve(field.expected, r, item)
    case None => None
    case Some(expected) =>
      if Falsy(expected) then Some((r, [Undetermined(kind, i + 1, field.path)]))
      else
        match Set(item, Keys(field.path), expected)
        case None => None
        case Some(item') => Some((WithItem(r, kind, i, item'), []))
  }

  function FixItems(r: Release, kind: Kind, field: Field, n: nat): (result: Repair)
    requires n <= |Items(r, kind)|
    ensures result.Some? ==> forall k :: |Items(result.value.0, k)| == |Items(r, k)|
  {
    if n == 0 then Some((r, []))
    else
      match FixItems(r, kind, field, n - 1)
      case None => None
      case Some((r1, errors)) =>
        match FixField(r1, kind, n - 1, field)
        case None => None
        case Some((r2, more)) => Some((r2, errors + more))
  }

  function FixFields(r: Release, kind: Kind, fields: seq<Field>): (result: Repair)
    ensures result.Some? ==> forall k :: |Items(result.value.0, k)| == |Items(r, k)|
  {
    if fields == [] then Some((r, []))
    else
      match FixFields(r, kind, fields[..|fields| - 1])
      case None => None
      case Some((r1, errors)) =>
        match FixItems(r1, kind, fields[|fields| - 1], |Items(r1, kind)|)
        case None => None
        case Some((r2, more)) => Some((r2, errors + more))
  }

  function FixKind(r: Release, kind: Kind, fields: seq<Field>, appliesTo: set<Kind>): (result: Repair)
    ensures result.Some? ==> forall k :: |Items(result.value.0, k)| == |Items(r, k)|
  {
    if kind in appliesTo then FixFields(r, kind, fields) else Some((r, []))
  }

  function Repaired(r: Release, fields: seq<Field>, appliesTo: set<Kind>): (result: Repair)
    ensures result.Some? ==> forall k :: |Items(result.value.0, k)| == |Items(r, k)|
  {
    match FixKind(r, Records, fields, appliesTo)
    case None => None
    case Some((r1, errors)) =>
      match FixKind(r1, Documents, fields, appliesTo)
      case None => None
      case Some((r2, more)) => Some((r2, errors + more))
  }

  // ---------- What is assumed of the fields ----------

  /** No path leads through another one, none is repeated, and none leads to or through the title or the recid. */
  predicate Separate(fields: seq<Field>) {
    && (forall j, k | 0 <= j < |fields| && 0 <= k < |fields| && j != k ::
          Apart(Keys(fields[j].path), Keys(fields[k].path)))
    && (forall k | 0 <= k < |fields| :: Keys(fields[k].path)[0] != "title" && Keys(fields[k].path)[0] != "recid")
  }

  /** The releases agree on all titles and recids. */
  ghost predicate SameKeys(r: Release, r': Release) {
    forall kind :: KeysOf(Items(r', kind)) == KeysOf(Items(r, kind))
  }

  /** The field has its expected value, or that cannot be determined. */
  ghost predicate Settled(r: Release, kind: Kind, i: nat, field: Field)
    requires i < |Items(r, kind)|
  {
    var item := Items(r, kind)[i];
    var expected := Resolve(field.expected, r, item);
    expected.Some? && (Falsy(expected.value) || Get(item, Keys(field.path)) == expected)
  }

  lemma KeyAfterSet(item: Json, keys: seq<string>, value: Json)
    requires keys != [] && keys[0] != "title" && keys[0] != "recid" && Set(item, keys, value).Some?
    ensures KeyOf(Set(item, keys, value).value) == KeyOf(item)
  {
    assert Apart(keys, ["title"]) && Apart(keys, ["recid"]);
    GetAfterOtherSet(item, keys, ["title"], value);
    GetAfterOtherSet(item, keys, ["recid"], value);
  }

  /** The expected values only depend on the titles and the recids. */
  lemma SameResolve(e: Expected, r: Release, r': Release, kind: Kind, i: nat)
    requires SameKeys(r, r') && i < |Items(r, kind)|
    ensures i < |Items(r', kind)|
    ensures Resolve(e, r', Items(r', kind)[i]) == Resolve(e, r, Items(r, kind)[i])
  {
    hide KeyOf;
    assert KeysOf(Items(r', Records)) == KeysOf(Items(r, Records));
    assert KeysOf(Items(r', kind)) == KeysOf(Items(r, kind));
    assert KeysOf(Items(r', kind))[i] == KeysOf(Items(r, kind))[i];
  }

  // ---------- The errors that cannot be repaired ----------

  function Unknown(r: Release, kind: Kind, i: nat, field: Field): seq<FieldError>
    requires i < |Items(r, kind)|
  {
    var expected := Resolve(field.expected, r, Items(r, kind)[i]);
    if expected.Some? && Falsy(expected.value) then [Undetermined(kind, i + 1, field.path)] else []
  }

  function UnknownItems(r: Release, kind: Kind, field: Field, n: nat): seq<FieldError>
    requires n <= |Items(r, kind)|
  {
    if n == 0 then [] else UnknownItems(r, kind, field, n - 1) + Unknown(r, kind, n - 1, field)
  }

  function UnknownFields(r: Release, kind: Kind, fields: seq<Field>): seq<FieldError> {
    if fields == [] then []
    else
      UnknownFields(r, kind, fields[..|fields| - 1])
      + UnknownItems(r, kind, fields[|fields| - 1], |Items(r, kind)|)
  }

  lemma SameSize(r: Release, r': Release, kind: Kind)
    requires SameKeys(r, r')
    ensures |Items(r', kind)| == |Items(r, kind)|
  {
    assert KeysOf(Items(r', kind)) == KeysOf(Items(r, kind));
  }

  lemma {:induction false} SameUnknownItems(r: Release, r': Release, kind: Kind, field: Field, n: nat)
    requires SameKeys(r, r') && n <= |Items(r, kind)|
    ensures n <= |Items(r', kind)| && UnknownItems(r', kind, field, n) == UnknownItems(r, kind, field, n)
  {
    hide SameKeys, Resolve;
    SameSize(r, r', kind);
    if n > 0 {
      SameUnknownItems(r, r', kind, field, n - 1);
      SameResolve(field.expected, r, r', kind, n - 1);
    }
  }

  lemma {:induction false} SameUnknownFields(r: Release, r': Release, kind: Kind, fields: seq<Field>)
    requires SameKeys(r, r')
    ensures UnknownFields(r', kind, fields) == UnknownFields(r, kind, fields)
  {
    hide SameKeys;
    if fields != [] {
      SameUnknownFields(r, r', kind, fields[..|fields| - 1]);
      SameSize(r, r', kind);
      SameUnknownItems(r, r', kind, fields[|fields| - 1], |Items(r, kind)|);
    }
  }

  lemma SameKeysJoin(r: Release, r1: Release, r2: Release)
    requires SameKeys(r, r1) && SameKeys(r1, r2)
    ensures SameKeys(r, r2)
  {
    forall kind ensures KeysOf(Items(r2, kind)) == KeysOf(Items(r, kind)) {
      assert KeysOf(Items(r1, kind)) == KeysOf(Items(r, kind));
    }
  }

  // ---------- One field of one item ----------

  predicate Fixable(field: Field) {
    Keys(field.path)[0] != "title" && Keys(field.path)[0] != "recid"
  }

  lemma FixFieldEffect(r: Release, kind: Kind, i: nat, field: Field)
    requires i < |Items(r, kind)| && Fixable(field) && FixField(r, kind, i, field).Some?
    ensures var (r', errors) := FixField(r, kind, i, field).value;
            SameKeys(r, r') && errors == Unknown(r, kind, i, field) && Settled(r', kind, i, field)
  {
    hide Keys, Set, Get, KeyOf;
    var (r', errors) := FixField(r, kind, i, field).value;
    var item := Items(r, kind)[i];
    var expected := Resolve(field.expected, r, item).value;
    if !Falsy(expected) {
      KeyAfterSet(item, Keys(field.path), expected);
      GetAfterSet(item, Keys(field.path), expected);
      forall k ensures KeysOf(Items(r', k)) == KeysOf(Items(r, k)) {
      }
    }
    SameResolve(field.expected, r, r', kind, i);
  }

  lemma FixFieldKeeps(r: Release, kind: Kind, i: nat, field: Field, other: Kind, j: nat, g: Field)
    requires i < |Items(r, kind)| && Fixable(field) && FixField(r, kind, i, field).Some?
    requires j < |Items(r, other)| && Settled(r, other, j, g)
    requires other != kind || j != i || Apart(Keys(field.path), Keys(g.path))
    ensures Settled(FixField(r, kind, i, field).value.0, other, j, g)
  {
    hide Keys, Set, Get, KeyOf;
    FixFieldEffect(r, kind, i, field);
    var r' := FixField(r, kind, i, field).value.0;
    SameResolve(g.expected, r, r', other, j);
    var item, expected := Items(r, kind)[i], Resolve(field.expected, r, Items(r, kind)[i]).value;
    if !Falsy(expected) && other == kind && j == i {
      GetAfterOtherSet(item, Keys(field.path), Keys(g.path), expected);
    }
  }

  // ---------- One field of all items ----------

  lemma {:induction false} FixItemsEffect(r: Release, kind: Kind, field: Field, n: nat)
    requires n <= |Items(r, kind)| && Fixable(field) && FixItems(r, kind, field, n).Some?
    ensures var (r', errors) := FixItems(r, kind, field, n).value;
            && SameKeys(r, r') && errors == UnknownItems(r, kind, field, n)
            && forall i | 0 <= i < n :: Settled(r', kind, i, field)
  {
    hide SameKeys, Settled, FixField, Unknown, Fixable;
    if n == 0 {
      SameKeysSelf(r);
    } else {
      FixItemsEffect(r, kind, field, n - 1);
      var r1 := FixItems(r, kind, field, n - 1).value.0;
      var r2 := FixField(r1, kind, n - 1, field).value.0;
      FixFieldEffect(r1, kind, n - 1, field);
      SameUnknown(r, r1, kind, n - 1, field);
      SameKeysJoin(r, r1, r2);
      forall i | 0 <= i < n - 1 ensures Settled(r2, kind, i, field) {
        FixFieldKeeps(r1, kind, n - 1, field, kind, i, field);
      }
    }
  }

  lemma SameKeysSelf(r: Release)
    ensures SameKeys(r, r)
  {
  }

  lemma SameUnknown(r: Release, r': Release, kind: Kind, i: nat, field: Field)
    requires SameKeys(r, r') && i < |Items(r, kind)|
    ensures i < |Items(r', kind)| && Unknown(r', kind, i, field) == Unknown(r, kind, i, field)
  {
    SameResolve(field.expected, r, r', kind, i);
  }

  lemma {:induction false} FixItemsKeeps(r: Release, kind: Kind, field: Field, n: nat, other: Kind, j: nat, g: Field)
    requires n <= |Items(r, kind)| && Fixable(field) && FixItems(r, kind, field, n).Some?
    requires j < |Items(r, other)| && Settled(r, other, j, g)
    requires other != kind || Apart(Keys(field.path), Keys(g.path))
    ensures Settled(FixItems(r, kind, field, n).value.0, other, j, g)
  {
    hide Settled, FixField, Fixable;
    if n > 0 {
      FixItemsKeeps(r, kind, field, n - 1, other, j, g);
      FixFieldKeeps(FixItems(r, kind, field, n - 1).value.0, kind, n - 1, field, other, j, g);
    }
  }

  // ---------- All fields of one kind ----------

  lemma SeparatePrefix(fields: seq<Field>, n: nat)
    requires Separate(fields) && n <= |fields|
    ensures Separate(fields[..n])
    ensures forall k | 0 <= k < |fields| :: Fixable(fields[k])
  {
    assert forall k | 0 <= k < n :: fields[..n][k] == fields[k];
  }

  ghost predicate SettledAcross(r: Release, kind: Kind, field: Field) {
    forall i | 0 <= i < |Items(r, kind)| :: Settled(r, kind, i, field)
  }

  lemma FixItemsKeepsAcross(r: Release, kind: Kind, field: Field, g: Field)
    requires Fixable(field) && FixItems(r, kind, field, |Items(r, kind)|).Some?
    requires Apart(Keys(field.path), Keys(g.path)) && SettledAcross(r, kind, g)
    ensures SettledAcross(FixItems(r, kind, field, |Items(r, kind)|).value.0, kind, g)
  {
    hide Settled, FixItems, Fixable, Keys;
    forall i | 0 <= i < |Items(r, kind)| ensures Settled(FixItems(r, kind, field, |Items(r, kind)|).value.0, kind, i, g) {
      FixItemsKeeps(r, kind, field, |Items(r, kind)|, kind, i, g);
    }
  }

  lemma {:induction false} FixFieldsErrors(r: Release, kind: Kind, fields: seq<Field>)
    requires Separate(fields) && FixFields(r, kind, fields).Some?
    ensures var (r', errors) := FixFields(r, kind, fields).value;
            SameKeys(r, r') && errors == UnknownFields(r, kind, fields)
  {
    hide SameKeys, Settled, FixItems, UnknownItems, Separate;
    if fields == [] {
      SameKeysSelf(r);
    } else {
      var n := |fields| - 1;
      SeparatePrefix(fields, n);
      FixFieldsErrors(r, kind, fields[..n]);
      var r1 := FixFields(r, kind, fields[..n]).value.0;
      FixItemsEffect(r1, kind, fields[n], |Items(r1, kind)|);
      SameUnknownItems(r, r1, kind, fields[n], |Items(r, kind)|);
      SameKeysJoin(r, r1, FixItems(r1, kind, fields[n], |Items(r1, kind)|).value.0);
    }
  }

  lemma {:induction false} FixFieldsSettle(r: Release, kind: Kind, fields: seq<Field>, k: nat)
    requires Separate(fields) && FixFields(r, kind, fields).Some? && k < |fields|
    ensures SettledAcross(FixFields(r, kind, fields).value.0, kind, fields[k])
  {
    hide SameKeys, Settled, FixItems, UnknownItems, Separate, Keys;
    var n := |fields| - 1;
    SeparatePrefix(fields, n);
    var r1 := FixFields(r, kind, fields[..n]).value.0;
    if k == n {
      FixItemsEffect(r1, kind, fields[n], |Items(r1, kind)|);
    } else {
      FixFieldsSettle(r, kind, fields[..n], k);
      SeparatePair(fields, n, k);
      FixItemsKeepsAcross(r1, kind, fields[n], fields[k]);
    }
  }

  lemma FixFieldsEffect(r: Release, kind: Kind, fields: seq<Field>)
    requires Separate(fields) && FixFields(r, kind, fields).Some?
    ensures var (r', errors) := FixFields(r, kind, fields).value;
            && SameKeys(r, r') && errors == UnknownFields(r, kind, fields)
            && forall k, i | 0 <= k < |fields| && 0 <= i < |Items(r', kind)| :: Settled(r', kind, i, fields[k])
  {
    hide SameKeys, Settled, FixFields, UnknownFields, Separate;
    FixFieldsErrors(r, kind, fields);
    var r' := FixFields(r, kind, fields).value.0;
    forall k, i | 0 <= k < |fields| && 0 <= i < |Items(r', kind)| ensures Settled(r', kind, i, fields[k]) {
      FixFieldsSettle(r, kind, fields, k);
    }
  }

  lemma SeparatePair(fields: seq<Field>, j: nat, k: nat)
    requires Separate(fields) && j < |fields| && k < |fields| && j != k
    ensures Apart(Keys(fields[j].path), Keys(fields[k].path))
  {
  }

  lemma {:induction false} FixFieldsKeeps(r: Release, kind: Kind, fields: seq<Field>, other: Kind, j: nat, g: Field)
    requires Separate(fields) && FixFields(r, kind, fields).Some?
    requires other != kind && j < |Items(r, other)| && Settled(r, other, j, g)
    ensures Settled(FixFields(r, kind, fields).value.0, other, j, g)
  {
    hide Settled, FixItems, Separate;
    if fields != [] {
      var n := |fields| - 1;
      SeparatePrefix(fields, n);
      FixFieldsKeeps(r, kind, fields[..n], other, j, g);
      var r1 := FixFields(r, kind, fields[..n]).value.0;
      FixItemsKeeps(r1, kind, fields[n], |Items(r1, kind)|, other, j, g);
    }
  }

  // ---------- What validation says about settled fields ----------

  lemma {:induction false} CheckSettledItems(r: Release, kind: Kind, field: Field, n: nat)
    requires n <= |Items(r, kind)| && forall i | 0 <= i < n :: Settled(r, kind, i, field)
    ensures CheckItems(r, kind, field, n) == Some(UnknownItems(r, kind, field, n))
  {
    hide Resolve, Get, Keys;
    if n > 0 {
      CheckSettledItems(r, kind, field, n - 1);
      assert Settled(r, kind, n - 1, field);
    }
  }

  lemma {:induction false} CheckSettledFields(r: Release, kind: Kind, fields: seq<Field>)
    requires forall k, i | 0 <= k < |fields| && 0 <= i < |Items(r, kind)| :: Settled(r, kind, i, fields[k])
    ensures CheckFields(r, kind, fields) == Some(UnknownFields(r, kind, fields))
  {
    hide Settled, CheckItems, UnknownItems;
    if fields != [] {
      var n := |fields| - 1;
      forall k, i | 0 <= k < n && 0 <= i < |Items(r, kind)| ensures Settled(r, kind, i, fields[..n][k]) {
        assert Settled(r, kind, i, fields[k]);
      }
      CheckSettledFields(r, kind, fields[..n]);
      forall i | 0 <= i < |Items(r, kind)| ensures Settled(r, kind, i, fields[n]) {
      }
      CheckSettledItems(r, kind, fields[n], |Items(r, kind)|);
    }
  }

  /** The effect of the fix on one kind of items, seen by validation. */
  lemma FixKindEffect(r: Release, kind: Kind, fields: seq<Field>, appliesTo: set<Kind>)
    requires Separate(fields) && FixKind(r, kind, fields, appliesTo).Some?
    ensures var (r', errors) := FixKind(r, kind, fields, appliesTo).value;
            SameKeys(r, r') && CheckKind(r', kind, fields, appliesTo) == Some(errors)
  {
    hide SameKeys, Settled, Separate, FixFields, CheckFields, UnknownFields;
    if kind in appliesTo {
      FixFieldsEffect(r, kind, fields);
      var r' := FixFields(r, kind, fields).value.0;
      CheckSettledFields(r', kind, fields);
      SameUnknownFields(r, r', kind, fields);
    } else {
      SameKeysSelf(r);
    }
  }

  /** Fixing the documents does not change what validation says about the records. */
  lemma DocumentsAfterRecords(r: Release, fields: seq<Field>, appliesTo: set<Kind>)
    requires Separate(fields) && Repaired(r, fields, appliesTo).Some?
    ensures var r1 := FixKind(r, Records, fields, appliesTo).value.0;
            var r2 := FixKind(r1, Documents, fields, appliesTo).value.0;
            CheckKind(r2, Records, fields, appliesTo) == CheckKind(r1, Records, fields, appliesTo)
  {
    hide SameKeys, Settled, Separate, FixFields, CheckFields, UnknownFields;
    var r1 := FixKind(r, Records, fields, appliesTo).value.0;
    var r2 := FixKind(r1, Documents, fields, appliesTo).value.0;
    if Records in appliesTo {
      FixFieldsEffect(r, Records, fields);
      CheckSettledFields(r1, Records, fields);
      FixKindEffect(r1, Documents, fields, appliesTo);
      forall k, i | 0 <= k < |fields| && 0 <= i < |Items(r2, Records)| ensures Settled(r2, Records, i, fields[k]) {
        assert Settled(r1, Records, i, fields[k]);
        if Documents in appliesTo {
          FixFieldsKeeps(r1, Documents, fields, Records, i, fields[k]);
        }
      }
      CheckSettledFields(r2, Records, fields);
      SameUnknownFields(r1, r2, Records, fields);
    }
  }

  /** When the fix goes through, validation afterwards reports exactly the errors that the fix reported: the fields
      whose expected value cannot be determined. */
  lemma RepairIsExact(r: Release, fields: seq<Field>, appliesTo: set<Kind>)
    requires Separate(fields) && Repaired(r, fields, appliesTo).Some?
    ensures var (r', errors) := Repaired(r, fields, appliesTo).value;
            && Validated(r', fields, appliesTo) == Some(errors)
            && (forall k | 0 <= k < |errors| :: errors[k].Undetermined?)
            && SameKeys(r, r')
  {
    hide FixKind, CheckKind, SameKeys, Separate;
    var r1 := FixKind(r, Records, fields, appliesTo).value.0;
    var r2 := FixKind(r1, Documents, fields, appliesTo).value.0;
    FixKindEffect(r, Records, fields, appliesTo);
    FixKindEffect(r1, Documents, fields, appliesTo);
    DocumentsAfterRecords(r, fields, appliesTo);
    SameKeysJoin(r, r1, r2);
    RepairErrors(r, Records, fields, appliesTo);
    RepairErrors(r1, Documents, fields, appliesTo);
  }

  lemma RepairErrors(r: Release, kind: Kind, fields: seq<Field>, appliesTo: set<Kind>)
    requires Separate(fields) && FixKind(r, kind, fields, appliesTo).Some?
    ensures var errors := FixKind(r, kind, fields, appliesTo).value.1; forall k | 0 <= k < |errors| :: errors[k].Undetermined?
  {
    hide SameKeys, Settled, Separate, FixFields, UnknownFields;
    if kind in appliesTo {
      FixFieldsEffect(r, kind, fields);
      UnknownFieldsOnly(r, kind, fields);
    }
  }

  lemma {:induction false} UnknownItemsOnly(r: Release, kind: Kind, field: Field, n: nat)
    requires n <= |Items(r, kind)|
    ensures forall e | e in UnknownItems(r, kind, field, n) :: e.Undetermined?
  {
    if n > 0 {
      UnknownItemsOnly(r, kind, field, n - 1);
    }
  }

  lemma {:induction false} UnknownFieldsOnly(r: Release, kind: Kind, fields: seq<Field>)
    ensures forall e | e in UnknownFields(r, kind, fields) :: e.Undetermined?
  {
    if fields != [] {
      UnknownFieldsOnly(r, kind, fields[..|fields| - 1]);
      UnknownItemsOnly(r, kind, fields[|fields| - 1], |Items(r, kind)|);
    }
  }

  // ---------- When the fix goes through ----------

  /** The expected value can be computed, and if there is one, the way to the field is free. */
  ghost predicate Ready(r: Release, kind: Kind, i: nat, field: Field)
    requires i < |Items(r, kind)|
  {
    var item := Items(r, kind)[i];
    var expected := Resolve(field.expected, r, item);
    expected.Some? && (Falsy(expected.value) || Settable(item, Keys(field.path)))
  }

  lemma FixFieldExact(r: Release, kind: Kind, i: nat, field: Field)
    requires i < |Items(r, kind)|
    ensures FixField(r, kind, i, field).Some? <==> Ready(r, kind, i, field)
  {
    hide Keys;
    var expected := Resolve(field.expected, r, Items(r, kind)[i]);
    if expected.Some? {
      SetExact(Items(r, kind)[i], Keys(field.path), expected.value);
    }
  }

  lemma FixFieldKeepsReady(r: Release, kind: Kind, i: nat, field: Field, other: Kind, j: nat, g: Field)
    requires i < |Items(r, kind)| && Fixable(field) && FixField(r, kind, i, field).Some? && j < |Items(r, other)|
    requires other != kind || j != i || Apart(Keys(field.path), Keys(g.path))
    ensures Ready(FixField(r, kind, i, field).value.0, other, j, g) <==> Ready(r, other, j, g)
  {
    hide Keys, Set, Settable, Get, KeyOf;
    FixFieldEffect(r, kind, i, field);
    var r' := FixField(r, kind, i, field).value.0;
    SameResolve(g.expected, r, r', other, j);
    var item, expected := Items(r, kind)[i], Resolve(field.expected, r, Items(r, kind)[i]).value;
    if !Falsy(expected) && other == kind && j == i {
      SettableAfterOtherSet(item, Keys(field.path), Keys(g.path), expected);
    }
  }

  lemma {:induction false} FixItemsKeepsReady(r: Release, kind: Kind, field: Field, n: nat, other: Kind, j: nat, g: Field)
    requires n <= |Items(r, kind)| && Fixable(field) && FixItems(r, kind, field, n).Some? && j < |Items(r, other)|
    requires other != kind || j >= n || Apart(Keys(field.path), Keys(g.path))
    ensures Ready(FixItems(r, kind, field, n).value.0, other, j, g) <==> Ready(r, other, j, g)
  {
    hide Ready, FixField, Fixable;
    if n > 0 {
      FixItemsKeepsReady(r, kind, field, n - 1, other, j, g);
      FixFieldKeepsReady(FixItems(r, kind, field, n - 1).value.0, kind, n - 1, field, other, j, g);
    }
  }

  lemma {:induction false} FixItemsExact(r: Release, kind: Kind, field: Field, n: nat)
    requires n <= |Items(r, kind)| && Fixable(field)
    ensures FixItems(r, kind, field, n).Some? <==> forall i | 0 <= i < n :: Ready(r, kind, i, field)
  {
    hide Ready, FixField, Fixable;
    if n > 0 {
      FixItemsExact(r, kind, field, n - 1);
      if FixItems(r, kind, field, n - 1).Some? {
        FixFieldExact(FixItems(r, kind, field, n - 1).value.0, kind, n - 1, field);
        FixItemsKeepsReady(r, kind, field, n - 1, kind, n - 1, field);
      }
    }
  }

  lemma {:induction false} FixFieldsKeepsReady(r: Release, kind: Kind, fields: seq<Field>, other: Kind, j: nat, g: Field)
    requires Separate(fields) && FixFields(r, kind, fields).Some? && j < |Items(r, other)|
    requires other != kind || forall k | 0 <= k < |fields| :: Apart(Keys(fields[k].path), Keys(g.path))
    ensures Ready(FixFields(r, kind, fields).value.0, other, j, g) <==> Ready(r, other, j, g)
  {
    hide Ready, FixItems, Separate;
    if fields != [] {
      var n := |fields| - 1;
      SeparatePrefix(fields, n);
      FixFieldsKeepsReady(r, kind, fields[..n], other, j, g);
      var r1 := FixFields(r, kind, fields[..n]).value.0;
      FixItemsKeepsReady(r1, kind, fields[n], |Items(r1, kind)|, other, j, g);
    }
  }

  ghost predicate AllReady(r: Release, kind: Kind, fields: seq<Field>) {
    forall k, i | 0 <= k < |fields| && 0 <= i < |Items(r, kind)| :: Ready(r, kind, i, fields[k])
  }

  ghost predicate ReadyAcross(r: Release, kind: Kind, field: Field) {
    forall i | 0 <= i < |Items(r, kind)| :: Ready(r, kind, i, field)
  }

  /** Fixing the fields before leaves the last one as ready as it was. */
  lemma LastStaysReady(r: Release, kind: Kind, fields: seq<Field>)
    requires fields != [] && Separate(fields) && FixFields(r, kind, fields[..|fields| - 1]).Some?
    ensures var n := |fields| - 1;
            ReadyAcross(FixFields(r, kind, fields[..n]).value.0, kind, fields[n]) <==> ReadyAcross(r, kind, fields[n])
  {
    hide Ready, FixFields, Separate, Keys;
    var n := |fields| - 1;
    var r1 := FixFields(r, kind, fields[..n]).value.0;
    SeparatePrefix(fields, n);
    forall k | 0 <= k < n ensures Apart(Keys(fields[..n][k].path), Keys(fields[n].path)) {
      SeparatePair(fields, k, n);
    }
    forall i | 0 <= i < |Items(r, kind)| ensures Ready(r1, kind, i, fields[n]) <==> Ready(r, kind, i, fields[n]) {
      FixFieldsKeepsReady(r, kind, fields[..n], kind, i, fields[n]);
    }
  }

  lemma {:induction false} FixFieldsExact(r: Release, kind: Kind, fields: seq<Field>)
    requires Separate(fields)
    ensures FixFields(r, kind, fields).Some? <==> AllReady(r, kind, fields)
  {
    hide Ready, FixItems, Separate, AllReady;
    if fields == [] {
      assert AllReady(r, kind, fields) by { NothingToFix(r, kind); }
    } else {
      var n := |fields| - 1;
      SeparatePrefix(fields, n);
      FixFieldsExact(r, kind, fields[..n]);
      AllReadyLast(r, kind, fields);
      if FixFields(r, kind, fields[..n]).Some? {
        var r1 := FixFields(r, kind, fields[..n]).value.0;
        FixItemsExact(r1, kind, fields[n], |Items(r1, kind)|);
        LastStaysReady(r, kind, fields);
      }
    }
  }

  lemma NothingToFix(r: Release, kind: Kind)
    ensures AllReady(r, kind, [])
  {
  }

  lemma AllReadyLast(r: Release, kind: Kind, fields: seq<Field>)
    requires fields != []
    ensures var n := |fields| - 1;
            AllReady(r, kind, fields) <==>
              AllReady(r, kind, fields[..n]) && ReadyAcross(r, kind, fields[n])
  {
    hide Ready;
    var n := |fields| - 1;
    if AllReady(r, kind, fields) {
      forall k, i | 0 <= k < n && 0 <= i < |Items(r, kind)| ensures Ready(r, kind, i, fields[..n][k]) {
        assert Ready(r, kind, i, fields[k]);
      }
    }
    if AllReady(r, kind, fields[..n]) && forall i | 0 <= i < |Items(r, kind)| :: Ready(r, kind, i, fields[n]) {
      forall k, i | 0 <= k < |fields| && 0 <= i < |Items(r, kind)| ensures Ready(r, kind, i, fields[k]) {
        assert k < n ==> Ready(r, kind, i, fields[..n][k]);
      }
    }
  }

  /** The fix goes through exactly if, for every item it applies to, each expected value can be computed and the way
      to its field is free, as things are before the fix. */
  lemma RepairGoesThrough(r: Release, fields: seq<Field>, appliesTo: set<Kind>)
    requires Separate(fields)
    ensures Repaired(r, fields, appliesTo).Some? <==> forall kind | kind in appliesTo :: AllReady(r, kind, fields)
  {
    hide AllReady, FixFields, Separate;
    FixFieldsExact(r, Records, fields);
    if Records in appliesTo && FixFields(r, Records, fields).Some? {
      var r1 := FixFields(r, Records, fields).value.0;
      FixFieldsExact(r1, Documents, fields);
      DocumentsStayReady(r, fields);
    }
    FixFieldsExact(r, Documents, fields);
    if (Records in appliesTo ==> AllReady(r, Records, fields)) && (Documents in appliesTo ==> AllReady(r, Documents, fields)) {
      forall kind | kind in appliesTo ensures AllReady(r, kind, fields) {
        match kind
        case Records =>
        case Documents =>
      }
    }
  }

  lemma DocumentsStayReady(r: Release, fields: seq<Field>)
    requires Separate(fields) && FixFields(r, Records, fields).Some?
    ensures AllReady(FixFields(r, Records, fields).value.0, Documents, fields) <==> AllReady(r, Documents, fields)
  {
    hide Ready, FixFields, Separate;
    var r1 := FixFields(r, Records, fields).value.0;
    forall k, i | 0 <= k < |fields| && 0 <= i < |Items(r, Documents)|
      ensures Ready(r1, Documents, i, fields[k]) <==> Ready(r, Documents, i, fields[k]) {
      FixFieldsKeepsReady(r, Records, fields, Documents, i, fields[k]);
    }
  }

  // ---------- When the validation goes through ----------

  /** The expected value can be computed, and if there is one, the field can be read. */
  ghost predicate Readable(r: Release, kind: Kind, i: nat, field: Field)
    requires i < |Items(r, kind)|
  {
    var item := Items(r, kind)[i];
    var expected := Resolve(field.expected, r, item);
    expected.Some? && (Falsy(expected.value) || Get(item, Keys(field.path)).Some?)
  }

  ghost predicate AllReadable(r: Release, kind: Kind, fields: seq<Field>) {
    forall k, i | 0 <= k < |fields| && 0 <= i < |Items(r, kind)| :: Readable(r, kind, i, fields[k])
  }

  lemma {:induction false} CheckItemsExact(r: Release, kind: Kind, field: Field, n: nat)
    requires n <= |Items(r, kind)|
    ensures CheckItems(r, kind, field, n).Some? <==> forall i | 0 <= i < n :: Readable(r, kind, i, field)
  {
    hide Readable, CheckField;
    if n > 0 {
      CheckItemsExact(r, kind, field, n - 1);
      CheckFieldExact(r, kind, n - 1, field);
    }
  }

  lemma CheckFieldExact(r: Release, kind: Kind, i: nat, field: Field)
    requires i < |Items(r, kind)|
    ensures CheckField(r, kind, i, field).Some? <==> Readable(r, kind, i, field)
  {
    hide Keys, Get, Resolve;
  }

  lemma {:induction false} CheckFieldsExact(r: Release, kind: Kind, fields: seq<Field>)
    ensures CheckFields(r, kind, fields).Some? <==> AllReadable(r, kind, fields)
  {
    hide Readable, CheckItems;
    if fields != [] {
      var init, last := fields[..|fields| - 1], fields[|fields| - 1];
      CheckFieldsExact(r, kind, init);
      CheckItemsExact(r, kind, last, |Items(r, kind)|);
      assert fields == init + [last];
      AllReadableNext(r, kind, init, last);
    }
  }

  lemma AllReadableNext(r: Release, kind: Kind, init: seq<Field>, last: Field)
    ensures AllReadable(r, kind, init + [last]) <==>
              AllReadable(r, kind, init) && forall i | 0 <= i < |Items(r, kind)| :: Readable(r, kind, i, last)
  {
    hide Readable;
    var all := init + [last];
    assert all[|init|] == last && forall k | 0 <= k < |init| :: all[k] == init[k];
  }

  /** The validation goes through exactly if, for every item it applies to, each expected value can be computed, and
      each field that has one can be read. */
  lemma ValidationGoesThrough(r: Release, fields: seq<Field>, appliesTo: set<Kind>)
    ensures Validated(r, fields, appliesTo).Some? <==> forall kind | kind in appliesTo :: AllReadable(r, kind, fields)
  {
    hide AllReadable, CheckFields;
    CheckFieldsExact(r, Records, fields);
    CheckFieldsExact(r, Documents, fields);
    if Validated(r, fields, appliesTo).Some? {
      forall kind | kind in appliesTo ensures AllReadable(r, kind, fields) {
        match kind
        case Records =>
        case Documents =>
      }
    }
  }

  const RAISING := Field("relations", Computed((keys: seq<ItemKey>, key: ItemKey) => None))

  /** A computed field that raises stops both the validation and the fix as soon as there is one record. */
  lemma ComputedFieldRaises(record: Json)
    ensures Validated(Release([record], []), [RAISING], {Records}) == None
    ensures Repaired(Release([record], []), [RAISING], {Records}) == None
  {
    var r := Release([record], []);
    assert [RAISING][..0] == [];
    assert Resolve(RAISING.expected, r, record) == None;
    assert CheckItems(r, Records, RAISING, 1) == None;
    assert FixItems(r, Records, RAISING, 1) == None;
  }

  // ---------- The validation, working on the release in place ----------

  /** Walks down the path; None stands for an exception. */
  method GetNested(item: Json, path: string) returns (value: Option<Json>)
    ensures value == Get(item, Keys(path))
  {
    var keys, data := Keys(path), item;
    for i := 0 to |keys|
      invariant Get(data, keys[i..]) == Get(item, keys)
    {
      assert keys[i..][1..] == keys[i + 1..];
      if data == Null {
        NullStaysNull(keys[i..]);
        return Some(Null);
      }
      if !data.Object? {
        return None;
      }
      data := if keys[i] in data.fields then data.fields[keys[i]] else Null;
    }
    return Some(data);
  }

  lemma NullStaysNull(keys: seq<string>)
    ensures Get(Null, keys) == Some(Null)
  {
  }

  class ExpectedFieldsValidation {
    const fields: seq<Field>
    const appliesTo: set<Kind>
    var records: seq<Json>
    var documents: seq<Json>

    constructor (fields: seq<Field>, appliesTo: set<Kind>, r: Release)
      ensures this.fields == fields && this.appliesTo == appliesTo && View() == r
    {
      this.fields, this.appliesTo, records, documents := fields, appliesTo, r.records, r.documents;
    }

    function View(): Release
      reads this
    {
      Release(records, documents)
    }

    method CheckOne(kind: Kind, i: nat, field: Field) returns (errors: Option<seq<FieldError>>)
      requires i < |Items(View(), kind)|
      ensures errors == CheckField(View(), kind, i, field)
    {
      var item := Items(View(), kind)[i];
      var expected := Resolve(field.expected, View(), item);
      if expected.None? {
        return None;
      }
      if Falsy(expected.value) {
        return Some([Undetermined(kind, i + 1, field.path)]);
      }
      var actual := GetNested(item, field.path);
      if actual.None? {
        return None;
      }
      if actual.value != expected.value {
        return Some([Mismatch(kind, i + 1, field.path, expected.value, actual.value)]);
      }
      return Some([]);
    }

    method CheckAll(kind: Kind) returns (errors: Option<seq<FieldError>>)
      ensures errors == CheckFields(View(), kind, fields)
    {
      hide CheckField;
      var found: seq<FieldError> := [];
      for k := 0 to |fields|
        invariant CheckFields(View(), kind, fields[..k]) == Some(found)
      {
        assert fields[..k + 1][..k] == fields[..k];
        ghost var before := found;
        for i := 0 to |Items(View(), kind)|
          invariant CheckItems(View(), kind, fields[k], i).Some?
          invariant found == before + CheckItems(View(), kind, fields[k], i).value
        {
          var more := CheckOne(kind, i, fields[k]);
          if more.None? {
            CheckItemsFail(View(), kind, fields[k], i + 1);
            CheckFieldsFail(View(), kind, fields, k + 1);
            return None;
          }
          found := found + more.value;
        }
      }
      assert fields[..|fields|] == fields;
      return Some(found);
    }

    method Validate() returns (errors: Option<seq<FieldError>>)
      ensures errors == Validated(View(), fields, appliesTo)
    {
      hide CheckFields;
      errors := Some([]);
      if Records in appliesTo {
        errors := CheckAll(Records);
        if errors.None? {
          return;
        }
      }
      if Documents in appliesTo {
        var more := CheckAll(Documents);
        errors := if more.None? then None else Some(errors.value + more.value);
      } else {
        assert errors.value + [] == errors.value;
      }
    }

    /** Sets the field, unless its value cannot be determined; None stands for an exception. */
    method FixOne(kind: Kind, i: nat, field: Field) returns (errors: Option<seq<FieldError>>)
      requires i < |Items(View(), kind)|
      modifies this`records, this`documents
      ensures var result := FixField(old(View()), kind, i, field);
              && errors.Some? == result.Some?
              && (result.Some? ==> View() == result.value.0 && errors.value == result.value.1)
    {
      hide Keys, Set, Resolve, Falsy;
      var item := Items(View(), kind)[i];
      var expected := Resolve(field.expected, View(), item);
      if expected.None? {
        return None;
      }
      if Falsy(expected.value) {
        return Some([Undetermined(kind, i + 1, field.path)]);
      }
      var updated := Set(item, Keys(field.path), expected.value);
      if updated.None? {
        return None;
      }
      match kind {
        case Records => records := records[i := updated.value];
        case Documents => documents := documents[i := updated.value];
      }
      return Some([]);
    }

    method FixAcross(kind: Kind, field: Field) returns (errors: Option<seq<FieldError>>)
      modifies this`records, this`documents
      ensures var result := FixItems(old(View()), kind, field, |Items(old(View()), kind)|);
              && errors.Some? == result.Some?
              && (result.Some? ==> View() == result.value.0 && errors.value == result.value.1)
    {
      hide FixField;
      ghost var r := View();
      var found: seq<FieldError> := [];
      var n := |Items(View(), kind)|;
      for i := 0 to n
        invariant |Items(View(), kind)| == n
        invariant FixItems(r, kind, field, i) == Some((View(), found))
      {
        var more := FixOne(kind, i, field);
        if more.None? {
          FixItemsFail(r, kind, field, i + 1);
          return None;
        }
        found := found + more.value;
      }
      return Some(found);
    }

    method FixEach(kind: Kind) returns (errors: Option<seq<FieldError>>)
      modifies this`records, this`documents
      ensures var result := FixFields(old(View()), kind, fields);
              && errors.Some? == result.Some?
              && (result.Some? ==> View() == result.value.0 && errors.value == result.value.1)
    {
      hide FixItems;
      ghost var r := View();
      var found: seq<FieldError> := [];
      for k := 0 to |fields|
        invariant FixFields(r, kind, fields[..k]) == Some((View(), found))
      {
        assert fields[..k + 1][..k] == fields[..k];
        var more := FixAcross(kind, fields[k]);
        if more.None? {
          FixFieldsFail(r, kind, fields, k + 1);
          return None;
        }
        found := found + more.value;
      }
      assert fields[..|fields|] == fields;
      return Some(found);
    }

    method Fix() returns (errors: Option<seq<FieldError>>)
      modifies this`records, this`documents
      ensures var result := Repaired(old(View()), fields, appliesTo);
              && errors.Some? == result.Some?
              && (result.Some? ==> View() == result.value.0 && errors.value == result.value.1)
    {
      hide FixFields;
      errors := Some([]);
      if Records in appliesTo {
        errors := FixEach(Records);
        if errors.None? {
          return;
        }
      }
      if Documents in appliesTo {
        var more := FixEach(Documents);
        errors := if more.None? then None else Some(errors.value + more.value);
      }
    }
  }

  // ---------- An exception ends the loops ----------

  lemma {:induction false} CheckItemsFail(r: Release, kind: Kind, field: Field, n: nat)
    requires n <= |Items(r, kind)| && CheckItems(r, kind, field, n).None?
    ensures CheckItems(r, kind, field, |Items(r, kind)|).None?
    decreases |Items(r, kind)| - n
  {
    if n < |Items(r, kind)| {
      CheckItemsFail(r, kind, field, n + 1);
    }
  }

  lemma {:induction false} CheckFieldsFail(r: Release, kind: Kind, fields: seq<Field>, n: nat)
    requires n <= |fields| && CheckFields(r, kind, fields[..n]).None?
    ensures CheckFields(r, kind, fields).None?
    decreases |fields| - n
  {
    if n < |fields| {
      assert fields[..n + 1][..n] == fields[..n];
      CheckFieldsFail(r, kind, fields, n + 1);
    } else {
      assert fields[..n] == fields;
    }
  }

  lemma {:induction false} FixItemsFail(r: Release, kind: Kind, field: Field, n: nat)
    requires n <= |Items(r, kind)| && FixItems(r, kind, field, n).None?
    ensures FixItems(r, kind, field, |Items(r, kind)|).None?
    decreases |Items(r, kind)| - n
  {
    if n < |Items(r, kind)| {
      FixItemsFail(r, kind, field, n + 1);
    }
  }

  lemma {:induction false} FixFieldsFail(r: Release, kind: Kind, fields: seq<Field>, n: nat)
    requires n <= |fields| && FixFields(r, kind, fields[..n]).None?
    ensures FixFields(r, kind, fields).None?
    decreases |fields| - n
  {
    if n < |fields| {
      assert fields[..n + 1][..n] == fields[..n];
      FixFieldsFail(r, kind, fields, n + 1);
    } else {
      assert fields[..n] == fields;
    }
  }
}
