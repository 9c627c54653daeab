/**
 * The grouping loop of the `/api/records` handler as written, over the
 * dictionary `const grouped = {}`. That literal inherits the members of
 * `Object.prototype`, so `grouped[r.species]` finds an inherited value when
 * the species is named like one of them:
 *
 * - a method such as `constructor` or `toString` is truthy, so no list is
 *   created; its `length` (0, 1 or 2) is below three, so the handler calls its
 *   `push`, which does not exist: a `TypeError`, which the handler's `catch`
 *   answers with status 500 and `{error: 'DB error'}`;
 * - `__proto__` yields `Object.prototype` itself, also truthy; its `length` is
 *   undefined and `undefined < 3` is false, so the row is skipped and the
 *   species never appears in the answer.
 */
module RecordsAsWritten {
  import opened JsKeys
  import opened Records

  /** A member of `Object.prototype`: a built-in method with its `length`, or the `__proto__` accessor. */
  datatype Inherited = NativeMethod(length: nat) | PrototypeObject

  /** The string-keyed members of `Object.prototype` (ECMA-262, sections 20.1.3 and B.2.2). */
  const ObjectPrototype: map<string, Inherited> := map[
    "constructor" := NativeMethod(1),
    "hasOwnProperty" := NativeMethod(1),
    "isPrototypeOf" := NativeMethod(1),
    "propertyIsEnumerable" := NativeMethod(1),
    "toLocaleString" := NativeMethod(0),
    "toString" := NativeMethod(0),
    "valueOf" := NativeMethod(0),
    "__defineGetter__" := NativeMethod(2),
    "__defineSetter__" := NativeMethod(2),
    "__lookupGetter__" := NativeMethod(1),
    "__lookupSetter__" := NativeMethod(1),
    "__proto__" := PrototypeObject
  ]

  /** What `grouped[k]` evaluates to. */
  datatype Value = OwnList(items: seq<Entry>) | InheritedMember(member: Inherited) | Undefined

  /** `grouped[k]`: the own list, else the inherited member, else undefined. */
  function Get(grouped: map<string, seq<Entry>>, k: string): Value {
    if k in grouped then OwnList(grouped[k])
    else if k in ObjectPrototype then InheritedMember(ObjectPrototype[k])
    else Undefined
  }

  /** `!!v`: lists, even the empty `[]`, and inherited members are objects, hence truthy. */
  predicate Truthy(v: Value) {
    !v.Undefined?
  }

  /** `v.length < 3`; `undefined < 3` is false. */
  predicate LengthBelowCap(v: Value)
    requires Truthy(v)
  {
    match v
    case OwnList(items) => |items| < Cap
    case InheritedMember(NativeMethod(n)) => n < Cap
    case InheritedMember(PrototypeObject) => false
  }

  /** A species whose row makes the handler call a `push` that an inherited method does not have. */
  predicate Throws(s: string) {
    s in ObjectPrototype && ObjectPrototype[s].NativeMethod? && ObjectPrototype[s].length < Cap
  }

  /** The rows whose species is not in `names`, in input order. */
  function RowsOutside(rows: seq<Row>, names: set<string>): seq<Row> {
    if rows == [] then []
    else
      var init, last := rows[..|rows| - 1], rows[|rows| - 1];
      RowsOutside(init, names) + (if last.species in names then [] else [last])
  }

  /** The rows whose species is not the name of an `Object.prototype` member. */
  function OwnRows(rows: seq<Row>): seq<Row> {
    RowsOutside(rows, ObjectPrototype.Keys)
  }

  /** What the handler answers. */
  datatype Reply = Json(groups: seq<Group>) | ServerError(error: string)

  const DbError: string := "DB error"

  /**
   * The handler's answer in closed form: status 500 when some row names an
   * inherited method; otherwise the groups of the rows that name no
   * `Object.prototype` member.
   */
  function AsWrittenReply(rows: seq<Row>, fmt: Format): Reply {
    if exists i :: 0 <= i < |rows| && Throws(rows[i].species) then ServerError(DbError)
    else Json(TopThreeBySpecies(OwnRows(rows), fmt))
  }

  /** The state the loop keeps after its first `i` rows, none of which has thrown. */
  ghost predicate Scanned(rows: seq<Row>, i: nat, grouped: map<string, seq<Entry>>, order: seq<string>, fmt: Format)
    requires i <= |rows|
  {
    && (forall j :: 0 <= j < i ==> !Throws(rows[j].species))
    && order == SpeciesOrder(OwnRows(rows[..i]))
    && KeysAre(grouped, order)
    && ListsMatch(grouped, OwnRows(rows[..i]), fmt)
  }

  /** The state in the middle of row `i`, once the list of its own species exists. */
  ghost predicate ListReady(rows: seq<Row>, i: nat, grouped: map<string, seq<Entry>>, order: seq<string>, fmt: Format)
    requires i < |rows|
  {
    && (forall j :: 0 <= j <= i ==> !Throws(rows[j].species))
    && rows[i].species in grouped
    && OwnRows(rows[..i + 1]) == OwnRows(rows[..i]) + [rows[i]]
    && order == SpeciesOrder(OwnRows(rows[..i + 1]))
    && KeysAre(grouped, order)
    && ListsMatch(grouped, OwnRows(rows[..i]), fmt)
  }

  lemma RowsOutsideStep(rows: seq<Row>, i: nat, names: set<string>)
    requires i < |rows|
    ensures RowsOutside(rows[..i + 1], names) == RowsOutside(rows[..i], names) + (if rows[i].species in names then [] else [rows[i]])
  {
    assert rows[..i + 1][..i] == rows[..i];
  }

  lemma OwnRowsStep(rows: seq<Row>, i: nat)
    requires i < |rows|
    ensures OwnRows(rows[..i + 1]) == OwnRows(rows[..i]) + (if rows[i].species in ObjectPrototype then [] else [rows[i]])
  {
    RowsOutsideStep(rows, i, ObjectPrototype.Keys);
  }

  /** `RowsOutside` keeps only rows of `rows`, and none whose species is in `names`. */
  lemma {:induction false} RowsOutsideMembers(rows: seq<Row>, names: set<string>, x: Row)
    requires x in RowsOutside(rows, names)
    ensures x in rows && x.species !in names
  {
    var init, last := rows[..|rows| - 1], rows[|rows| - 1];
    assert RowsOutside(rows, names) == RowsOutside(init, names) + (if last.species in names then [] else [last]);
    if x in RowsOutside(init, names) {
      RowsOutsideMembers(init, names, x);
      assert init == rows[..|rows| - 1];
    }
  }

  /** No key the dictionary owns names an `Object.prototype` member. */
  lemma OwnKeysAreNotInherited(rows: seq<Row>, k: string)
    requires HasSpecies(OwnRows(rows), k)
    ensures k !in ObjectPrototype
  {
    HasSpeciesIff(OwnRows(rows), k);
    var i :| 0 <= i < |OwnRows(rows)| && OwnRows(rows)[i].species == k;
    RowsOutsideMembers(rows, ObjectPrototype.Keys, OwnRows(rows)[i]);
  }

  /** The species already has its own list. */
  lemma ExistingList(rows: seq<Row>, i: nat, grouped: map<string, seq<Entry>>, order: seq<string>, fmt: Format)
    requires i < |rows| && Scanned(rows, i, grouped, order, fmt)
    requires rows[i].species in grouped
    ensures ListReady(rows, i, grouped, order, fmt)
  {
    OwnKeysAreNotInherited(rows[..i], rows[i].species);
    OwnRowsStep(rows, i);
    AppendRowSpeciesOrder(OwnRows(rows[..i]), rows[i]);
  }

  /** The species has no list and inherits nothing: its empty list is created. */
  lemma CreatedList(rows: seq<Row>, i: nat, grouped: map<string, seq<Entry>>, order: seq<string>, fmt: Format)
    requires i < |rows| && Scanned(rows, i, grouped, order, fmt)
    requires rows[i].species !in grouped && rows[i].species !in ObjectPrototype
    ensures ListReady(rows, i, grouped[rows[i].species := []], order + [rows[i].species], fmt)
  {
    var s, own := rows[i].species, OwnRows(rows[..i]);
    assert forall j :: 0 <= j <= i ==> !Throws(rows[j].species) by {
      assert !Throws(s);
    }
    assert OwnRows(rows[..i + 1]) == own + [rows[i]] by {
      OwnRowsStep(rows, i);
    }
    NoListNoRow(rows[..i], grouped, order, s, fmt);
    assert SpeciesOrder(own + [rows[i]]) == order + [s] by {
      AppendRowSpeciesOrder(own, rows[i]);
    }
    assert KeysAre(grouped[s := []], order + [s]);
    CreateListKeepsMatch(grouped, own, s, fmt);
  }

  /** A species without a list has no row yet. */
  lemma NoListNoRow(rows: seq<Row>, grouped: map<string, seq<Entry>>, order: seq<string>, s: string, fmt: Format)
    requires order == SpeciesOrder(OwnRows(rows)) && KeysAre(grouped, order)
    requires s !in grouped
    ensures !HasSpecies(OwnRows(rows), s) && s !in order
  {
  }

  /** A list shorter than `Cap` gets the row's entry. */
  lemma PushedEntry(rows: seq<Row>, i: nat, grouped: map<string, seq<Entry>>, order: seq<string>, fmt: Format)
    requires i < |rows| && ListReady(rows, i, grouped, order, fmt)
    requires |grouped[rows[i].species]| < Cap
    ensures Scanned(rows, i + 1, grouped[rows[i].species := grouped[rows[i].species] + [MakeEntry(rows[i], fmt)]], order, fmt)
  {
    TopEntriesLength(OwnRows(rows[..i]), rows[i].species, fmt);
    PushKeepsMatch(grouped, OwnRows(rows[..i]), rows[i], fmt);
  }

  /** A full list is left alone. */
  lemma SkippedFull(rows: seq<Row>, i: nat, grouped: map<string, seq<Entry>>, order: seq<string>, fmt: Format)
    requires i < |rows| && ListReady(rows, i, grouped, order, fmt)
    requires |grouped[rows[i].species]| >= Cap
    ensures Scanned(rows, i + 1, grouped, order, fmt)
  {
    TopEntriesLength(OwnRows(rows[..i]), rows[i].species, fmt);
    SkipKeepsMatch(grouped, OwnRows(rows[..i]), rows[i], fmt);
  }

  /** A row whose species names an inherited member that does not throw is skipped without a trace. */
  lemma SkippedInherited(rows: seq<Row>, i: nat, grouped: map<string, seq<Entry>>, order: seq<string>, fmt: Format)
    requires i < |rows| && Scanned(rows, i, grouped, order, fmt)
    requires rows[i].species in ObjectPrototype && !Throws(rows[i].species)
    ensures Scanned(rows, i + 1, grouped, order, fmt)
  {
    OwnRowsStep(rows, i);
    assert OwnRows(rows[..i + 1]) == OwnRows(rows[..i]);
    assert forall j :: 0 <= j < i + 1 ==> !Throws(rows[j].species);
  }

  /** After every row, the answer is the dictionary's entries. */
  lemma ScannedAll(rows: seq<Row>, grouped: map<string, seq<Entry>>, order: seq<string>, fmt: Format)
    requires Scanned(rows, |rows|, grouped, order, fmt)
    ensures forall k :: k in order ==> k in grouped
    ensures Json(ObjectEntries(grouped, order)) == AsWrittenReply(rows, fmt)
  {
    assert rows[..|rows|] == rows;
    ObjectEntriesOfGrouped(grouped, OwnRows(rows), fmt);
  }

  /**
   * The loop of lines 108-119 as written, with the `try`/`catch` around it:
   * `grouped[r.species]` (`Get`) may find an inherited member, which `!`
   * (`Truthy`) treats as an existing list and `.length < 3`
   * (`LengthBelowCap`) compares by its arity; a `push` on one throws.
   */
  method GroupTopThreeAsWritten(rows: seq<Row>, fmt: Format) returns (reply: Reply)
    ensures reply == AsWrittenReply(rows, fmt)
  {
    var grouped: map<string, seq<Entry>> := map[];
    var order: seq<string> := [];
    for i := 0 to |rows|
      invariant Scanned(rows, i, grouped, order, fmt)
    {
      var r := rows[i];
      var v := Get(grouped, r.species);
      if !Truthy(v) {
        CreatedList(rows, i, grouped, order, fmt);
        grouped := grouped[r.species := []];
        order := order + [r.species];
        v := Get(grouped, r.species);
      } else if v.OwnList? {
        ExistingList(rows, i, grouped, order, fmt);
      }
      if LengthBelowCap(v) {
        if v.OwnList? {
          PushedEntry(rows, i, grouped, order, fmt);
          grouped := grouped[r.species := v.items + [MakeEntry(r, fmt)]];
        } else {
          // `grouped[r.species].push` is not a function
          assert Throws(rows[i].species);
          reply := ServerError(DbError);
          return;
        }
      } else if v.OwnList? {
        SkippedFull(rows, i, grouped, order, fmt);
      } else {
        SkippedInherited(rows, i, grouped, order, fmt);
      }
    }
    ScannedAll(rows, grouped, order, fmt);
    reply := Json(ObjectEntries(grouped, order));
  }

  /** On input whose species name no `Object.prototype` member, the handler as written answers the intended groups. */
  lemma AgreesWithoutInheritedNames(rows: seq<Row>, fmt: Format)
    requires forall i :: 0 <= i < |rows| ==> rows[i].species !in ObjectPrototype
    ensures AsWrittenReply(rows, fmt) == Json(TopThreeBySpecies(rows, fmt))
  {
    RowsOutsideKeepsAll(rows, ObjectPrototype.Keys);
  }

  lemma {:induction false} RowsOutsideKeepsAll(rows: seq<Row>, names: set<string>)
    requires forall i :: 0 <= i < |rows| ==> rows[i].species !in names
    ensures RowsOutside(rows, names) == rows
  {
    if rows != [] {
      var init := rows[..|rows| - 1];
      assert forall i :: 0 <= i < |init| ==> init[i] == rows[i];
      RowsOutsideKeepsAll(init, names);
      var last := rows[|rows| - 1];
      assert last.species !in names;
      assert RowsOutside(rows, names) == init + [last];
      assert rows == init + [last];
    }
  }

  /** One record of a species called "constructor" makes the whole request fail, though it should form a group. */
  lemma ConstructorSpeciesFailsRequest(fmt: Format)
    ensures var rows := [Row("constructor", "Ana", 12.5, 0)];
      && AsWrittenReply(rows, fmt) == ServerError(DbError)
      && TopThreeBySpecies(rows, fmt) == [Group("constructor", [MakeEntry(rows[0], fmt)])]
  {
    var rows := [Row("constructor", "Ana", 12.5, 0)];
    assert Throws(rows[0].species);
    OneRowFormsGroup(rows[0], fmt);
  }

  /** The records of a species called "__proto__" vanish from the answer, though they should form a group. */
  lemma ProtoSpeciesIsDropped(fmt: Format)
    ensures var rows := [Row("__proto__", "Ana", 12.5, 0)];
      && AsWrittenReply(rows, fmt) == Json([])
      && TopThreeBySpecies(rows, fmt) == [Group("__proto__", [MakeEntry(rows[0], fmt)])]
  {
    ProtoRowIsNotOwn();
    OneRowFormsGroup(Row("__proto__", "Ana", 12.5, 0), fmt);
  }

  lemma ProtoRowIsNotOwn()
    ensures var rows := [Row("__proto__", "Ana", 12.5, 0)];
      !Throws(rows[0].species) && OwnRows(rows) == []
  {
    var rows := [Row("__proto__", "Ana", 12.5, 0)];
    assert !Throws(rows[0].species);
    assert rows[..0] == [];
    assert RowsOutside(rows[..0], ObjectPrototype.Keys) == [];
    assert rows[0].species in ObjectPrototype.Keys;
    assert RowsOutside(rows, ObjectPrototype.Keys) == RowsOutside(rows[..0], ObjectPrototype.Keys);
  }

  /** A single row whose species is no array index forms one group of one entry. */
  lemma OneRowFormsGroup(r: Row, fmt: Format)
    requires |r.species| > 0 && !IsDigit(r.species[0])
    ensures TopThreeBySpecies([r], fmt) == [Group(r.species, [MakeEntry(r, fmt)])]
  {
    var rows := [r];
    assert SpeciesOrder(rows) == [r.species];
    NoArrayIndexKeepsCreationOrder(SpeciesOrder(rows));
    assert OfSpecies(rows, r.species) == rows;
    assert TopRows(rows, r.species) == rows;
    assert TopEntries(rows, r.species, fmt) == [MakeEntry(r, fmt)];
  }
}
