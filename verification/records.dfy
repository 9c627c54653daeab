/**
 * The "top 3 per species" reshaping done by the `/api/records` handler.
 *
 * The handler receives the rows of the `records` table ordered by species and
 * then by descending weight, keeps in a dictionary from species to a list the
 * first three rows it meets for each species, and answers the dictionary's
 * entries as `[{species, entries}]`. The query itself is not modelled: its
 * result is the input sequence `rows`.
 *
 * This module models the dictionary as one with no inherited members (what
 * `Object.create(null)` gives). The handler's own `{}` literal inherits
 * `Object.prototype`; module RecordsAsWritten models that and shows where the
 * two differ.
 */
module Records {
  import opened Collections
  import opened JsKeys

  /** How many entries a species keeps. */
  const Cap: nat := 3

  /** One row of the query result; `weight` is the numeric column, `date` the driver's timestamp. */
  datatype Row = Row(species: string, diver: string, weight: real, date: int)

  /** One answered entry: the diver and the weight and date as formatted text. */
  datatype Entry = Entry(diver: string, weight: string, date: string)

  datatype Group = Group(species: string, entries: seq<Entry>)

  /**
   * The two formatting calls, kept uninterpreted: `weight` stands for
   * `${parseFloat(w).toFixed(2)} kg` and `date` for
   * `new Date(d).toLocaleDateString('en-GB')`.
   */
  datatype Format = Format(weight: real -> string, date: int -> string)

  function MakeEntry(r: Row, fmt: Format): Entry {
    Entry(r.diver, fmt.weight(r.weight), fmt.date(r.date))
  }

  function Min(a: nat, b: nat): nat {
    if a <= b then a else b
  }

  /** Some row has species `s`. */
  predicate HasSpecies(rows: seq<Row>, s: string) {
    rows != [] && (rows[|rows| - 1].species == s || HasSpecies(rows[..|rows| - 1], s))
  }

  lemma {:induction false} HasSpeciesIff(rows: seq<Row>, s: string)
    ensures HasSpecies(rows, s) <==> exists i :: 0 <= i < |rows| && rows[i].species == s
  {
    if rows != [] {
      var init := rows[..|rows| - 1];
      HasSpeciesIff(init, s);
      assert forall i :: 0 <= i < |init| ==> init[i] == rows[i];
    }
  }

  /** The rows of species `s`, in input order. */
  function OfSpecies(rows: seq<Row>, s: string): (r: seq<Row>)
    ensures forall x :: x in r ==> x in rows && x.species == s
    ensures r == [] <==> !HasSpecies(rows, s)
  {
    if rows == [] then []
    else
      var init, last := rows[..|rows| - 1], rows[|rows| - 1];
      assert rows == init + [last];
      OfSpecies(init, s) + (if last.species == s then [last] else [])
  }

  function Count(rows: seq<Row>, s: string): nat {
    |OfSpecies(rows, s)|
  }

  /** The species of `rows`, each once, in the order of its first row. */
  function SpeciesOrder(rows: seq<Row>): (ks: seq<string>)
    ensures Distinct(ks)
    ensures forall k :: k in ks <==> HasSpecies(rows, k)
  {
    if rows == [] then []
    else
      var init, last := rows[..|rows| - 1], rows[|rows| - 1];
      assert rows == init + [last];
      var prev := SpeciesOrder(init);
      if last.species in prev then prev else prev + [last.species]
  }

  /** The rows a species keeps: its first `Cap` rows. */
  function TopRows(rows: seq<Row>, s: string): seq<Row> {
    var all := OfSpecies(rows, s);
    all[..Min(Cap, |all|)]
  }

  /** The rows of a species beyond its first `Cap`. */
  function DroppedRows(rows: seq<Row>, s: string): seq<Row> {
    var all := OfSpecies(rows, s);
    all[Min(Cap, |all|)..]
  }

  function EntriesOf(rs: seq<Row>, fmt: Format): (es: seq<Entry>)
    ensures |es| == |rs|
    ensures forall i :: 0 <= i < |rs| ==> es[i] == MakeEntry(rs[i], fmt)
  {
    seq(|rs|, i requires 0 <= i < |rs| => MakeEntry(rs[i], fmt))
  }

  /** The entries the answer lists for species `s`. */
  function TopEntries(rows: seq<Row>, s: string, fmt: Format): seq<Entry> {
    EntriesOf(TopRows(rows, s), fmt)
  }

  /**
   * The answer: one group per species, in the order `Object.entries` lists the
   * species keys, each with that species' top entries.
   */
  function TopThreeBySpecies(rows: seq<Row>, fmt: Format): seq<Group> {
    GroupsFor(rows, ObjectKeyOrder(SpeciesOrder(rows)), fmt)
  }

  /** One group per key of `ks`, in that order. */
  function GroupsFor(rows: seq<Row>, ks: seq<string>, fmt: Format): (gs: seq<Group>)
    ensures |gs| == |ks|
    ensures forall j :: 0 <= j < |ks| ==> gs[j] == Group(ks[j], TopEntries(rows, ks[j], fmt))
  {
    seq(|ks|, j requires 0 <= j < |ks| => Group(ks[j], TopEntries(rows, ks[j], fmt)))
  }

  /** `Object.entries(grouped).map(([species, entries]) => ({species, entries}))`, keys created in `order`. */
  function ObjectEntries(grouped: map<string, seq<Entry>>, order: seq<string>): (out: seq<Group>)
    requires forall k :: k in order ==> k in grouped
    ensures |out| == |order|
    ensures forall j :: 0 <= j < |out| ==> out[j].species in order && out[j].entries == grouped[out[j].species]
    ensures forall k :: k in order ==> exists j :: 0 <= j < |out| && out[j].species == k
  {
    ObjectKeyOrderSameKeys(order);
    GroupsOf(grouped, ObjectKeyOrder(order))
  }

  /** One group per key of `ks`, in that order, each with the key's list in `grouped`. */
  function GroupsOf(grouped: map<string, seq<Entry>>, ks: seq<string>): (gs: seq<Group>)
    requires forall k :: k in ks ==> k in grouped
    ensures |gs| == |ks|
    ensures forall j :: 0 <= j < |ks| ==> gs[j] == Group(ks[j], grouped[ks[j]])
  {
    seq(|ks|, j requires 0 <= j < |ks| => Group(ks[j], grouped[ks[j]]))
  }

  /** A dictionary that holds, for each species of `rows`, its top entries, answers `TopThreeBySpecies(rows)`. */
  lemma ObjectEntriesOfGrouped(grouped: map<string, seq<Entry>>, rows: seq<Row>, fmt: Format)
    requires KeysAre(grouped, SpeciesOrder(rows))
    requires ListsMatch(grouped, rows, fmt)
    ensures ObjectEntries(grouped, SpeciesOrder(rows)) == TopThreeBySpecies(rows, fmt)
  {
    var ks := ObjectKeyOrder(SpeciesOrder(rows));
    ObjectKeyOrderSameKeys(SpeciesOrder(rows));
    var a, b := GroupsOf(grouped, ks), GroupsFor(rows, ks, fmt);
    forall j | 0 <= j < |ks| ensures a[j] == b[j] {
      assert ks[j] in grouped;
    }
  }

  lemma EntriesOfAppend(rs: seq<Row>, r: Row, fmt: Format)
    ensures EntriesOf(rs + [r], fmt) == EntriesOf(rs, fmt) + [MakeEntry(r, fmt)]
  {
    var a, b := EntriesOf(rs + [r], fmt), EntriesOf(rs, fmt) + [MakeEntry(r, fmt)];
    assert |a| == |b|;
    forall i | 0 <= i < |a| ensures a[i] == b[i] {
      if i < |rs| {
        assert (rs + [r])[i] == rs[i];
      }
    }
  }

  /** Appending a row adds it to the rows of its own species and to no other. */
  lemma AppendRowOfSpecies(rows: seq<Row>, r: Row, k: string)
    ensures OfSpecies(rows + [r], k) == OfSpecies(rows, k) + (if r.species == k then [r] else [])
  {
    assert (rows + [r])[..|rows|] == rows;
  }

  /** Appending a row adds its species at the end of the species order when the species is new. */
  lemma AppendRowSpeciesOrder(rows: seq<Row>, r: Row)
    ensures SpeciesOrder(rows + [r]) ==
      if r.species in SpeciesOrder(rows) then SpeciesOrder(rows) else SpeciesOrder(rows) + [r.species]
  {
    assert (rows + [r])[..|rows|] == rows;
  }

  lemma AppendRowOtherSpecies(rows: seq<Row>, r: Row, k: string, fmt: Format)
    requires k != r.species
    ensures TopEntries(rows + [r], k, fmt) == TopEntries(rows, k, fmt)
  {
    AppendRowOfSpecies(rows, r, k);
    assert OfSpecies(rows + [r], k) == OfSpecies(rows, k);
  }

  /**
   * What appending one row does to each species' entries: only the row's own
   * species changes, and it gains the row's entry exactly when it had fewer
   * than `Cap` rows before.
   */
  lemma AppendRow(rows: seq<Row>, r: Row, fmt: Format)
    ensures forall k :: k != r.species ==> TopEntries(rows + [r], k, fmt) == TopEntries(rows, k, fmt)
    ensures Count(rows, r.species) < Cap ==>
      TopEntries(rows + [r], r.species, fmt) == TopEntries(rows, r.species, fmt) + [MakeEntry(r, fmt)]
    ensures Count(rows, r.species) >= Cap ==>
      TopEntries(rows + [r], r.species, fmt) == TopEntries(rows, r.species, fmt)
  {
    forall k | k != r.species
      ensures TopEntries(rows + [r], k, fmt) == TopEntries(rows, k, fmt)
    {
      AppendRowOtherSpecies(rows, r, k, fmt);
    }
    AppendRowOfSpecies(rows, r, r.species);
    var all := OfSpecies(rows, r.species);
    assert OfSpecies(rows + [r], r.species) == all + [r];
    if |all| < Cap {
      assert TopRows(rows + [r], r.species) == TopRows(rows, r.species) + [r];
      EntriesOfAppend(TopRows(rows, r.species), r, fmt);
    } else {
      assert TopRows(rows + [r], r.species) == TopRows(rows, r.species);
    }
  }

  /** Every list of `grouped` holds the top entries of its species in `rows`. */
  ghost predicate ListsMatch(grouped: map<string, seq<Entry>>, rows: seq<Row>, fmt: Format) {
    forall k :: k in grouped ==> grouped[k] == TopEntries(rows, k, fmt)
  }

  /** The keys of `grouped` are those of `order`. */
  ghost predicate KeysAre(grouped: map<string, seq<Entry>>, order: seq<string>) {
    forall k :: k in grouped <==> k in order
  }

  /** Creating the empty list of a species that has no row yet keeps every list right. */
  lemma CreateListKeepsMatch(grouped: map<string, seq<Entry>>, rows: seq<Row>, s: string, fmt: Format)
    requires ListsMatch(grouped, rows, fmt) && !HasSpecies(rows, s)
    ensures ListsMatch(grouped[s := []], rows, fmt)
  {
    assert OfSpecies(rows, s) == [];
  }

  /** Pushing the entry of a row whose species has fewer than `Cap` rows keeps every list right. */
  lemma PushKeepsMatch(grouped: map<string, seq<Entry>>, rows: seq<Row>, r: Row, fmt: Format)
    requires ListsMatch(grouped, rows, fmt) && r.species in grouped
    requires Count(rows, r.species) < Cap
    ensures ListsMatch(grouped[r.species := grouped[r.species] + [MakeEntry(r, fmt)]], rows + [r], fmt)
  {
    AppendRow(rows, r, fmt);
  }

  /** Skipping a row whose species already has `Cap` rows keeps every list right. */
  lemma SkipKeepsMatch(grouped: map<string, seq<Entry>>, rows: seq<Row>, r: Row, fmt: Format)
    requires ListsMatch(grouped, rows, fmt)
    requires Count(rows, r.species) >= Cap
    ensures ListsMatch(grouped, rows + [r], fmt)
  {
    AppendRow(rows, r, fmt);
  }

  /** The length of a species' list tells how many rows it has met, up to `Cap`. */
  lemma TopEntriesLength(rows: seq<Row>, s: string, fmt: Format)
    ensures |TopEntries(rows, s, fmt)| == Min(Cap, Count(rows, s))
  {
  }

  /** The state the loop keeps after its first `i` rows. */
  ghost predicate Grouped(rows: seq<Row>, i: nat, grouped: map<string, seq<Entry>>, order: seq<string>, fmt: Format)
    requires i <= |rows|
  {
    && order == SpeciesOrder(rows[..i])
    && KeysAre(grouped, order)
    && ListsMatch(grouped, rows[..i], fmt)
  }

  /** The state in the middle of row `i`, once its species has a list. */
  ghost predicate ListReadyAt(rows: seq<Row>, i: nat, grouped: map<string, seq<Entry>>, order: seq<string>, fmt: Format)
    requires i < |rows|
  {
    && rows[i].species in grouped
    && order == SpeciesOrder(rows[..i + 1])
    && KeysAre(grouped, order)
    && ListsMatch(grouped, rows[..i], fmt)
  }

  lemma PrefixStep(rows: seq<Row>, i: nat)
    requires i < |rows|
    ensures rows[..i + 1] == rows[..i] + [rows[i]]
  {
  }

  /** The first row of a species creates its empty list. */
  lemma NewSpecies(rows: seq<Row>, i: nat, grouped: map<string, seq<Entry>>, order: seq<string>, fmt: Format)
    requires i < |rows| && Grouped(rows, i, grouped, order, fmt)
    requires rows[i].species !in grouped
    ensures ListReadyAt(rows, i, grouped[rows[i].species := []], order + [rows[i].species], fmt)
  {
    PrefixStep(rows, i);
    AppendRowSpeciesOrder(rows[..i], rows[i]);
    CreateListKeepsMatch(grouped, rows[..i], rows[i].species, fmt);
  }

  /** A later row of a species finds its list. */
  lemma KnownSpecies(rows: seq<Row>, i: nat, grouped: map<string, seq<Entry>>, order: seq<string>, fmt: Format)
    requires i < |rows| && Grouped(rows, i, grouped, order, fmt)
    requires rows[i].species in grouped
    ensures ListReadyAt(rows, i, grouped, order, fmt)
  {
    PrefixStep(rows, i);
    AppendRowSpeciesOrder(rows[..i], rows[i]);
  }

  /** A list shorter than `Cap` gets the row's entry. */
  lemma PushStep(rows: seq<Row>, i: nat, grouped: map<string, seq<Entry>>, order: seq<string>, fmt: Format)
    requires i < |rows| && ListReadyAt(rows, i, grouped, order, fmt)
    requires |grouped[rows[i].species]| < Cap
    ensures Grouped(rows, i + 1, grouped[rows[i].species := grouped[rows[i].species] + [MakeEntry(rows[i], fmt)]], order, fmt)
  {
    PrefixStep(rows, i);
    TopEntriesLength(rows[..i], rows[i].species, fmt);
    PushKeepsMatch(grouped, rows[..i], rows[i], fmt);
  }

  /** A full list is left alone. */
  lemma SkipStep(rows: seq<Row>, i: nat, grouped: map<string, seq<Entry>>, order: seq<string>, fmt: Format)
    requires i < |rows| && ListReadyAt(rows, i, grouped, order, fmt)
    requires |grouped[rows[i].species]| >= Cap
    ensures Grouped(rows, i + 1, grouped, order, fmt)
  {
    PrefixStep(rows, i);
    TopEntriesLength(rows[..i], rows[i].species, fmt);
    SkipKeepsMatch(grouped, rows[..i], rows[i], fmt);
  }

  /** After every row, the dictionary's entries are the answer. */
  lemma GroupedAll(rows: seq<Row>, grouped: map<string, seq<Entry>>, order: seq<string>, fmt: Format)
    requires Grouped(rows, |rows|, grouped, order, fmt)
    ensures forall k :: k in order ==> k in grouped
    ensures ObjectEntries(grouped, order) == TopThreeBySpecies(rows, fmt)
  {
    assert rows[..|rows|] == rows;
    ObjectEntriesOfGrouped(grouped, rows, fmt);
  }

  /**
   * The grouping loop of the handler, over a dictionary without inherited
   * members: create the species' list on its first row, push the row's entry
   * while the list is shorter than three, and answer the dictionary's entries.
   */
  method GroupTopThree(rows: seq<Row>, fmt: Format) returns (out: seq<Group>)
    ensures out == TopThreeBySpecies(rows, fmt)
  {
    var grouped: map<string, seq<Entry>> := map[];
    var order: seq<string> := [];
    for i := 0 to |rows|
      invariant Grouped(rows, i, grouped, order, fmt)
    {
      var r := rows[i];
      if r.species !in grouped {
        NewSpecies(rows, i, grouped, order, fmt);
        grouped := grouped[r.species := []];
        order := order + [r.species];
      } else {
        KnownSpecies(rows, i, grouped, order, fmt);
      }
      if |grouped[r.species]| < Cap {
        PushStep(rows, i, grouped, order, fmt);
        grouped := grouped[r.species := grouped[r.species] + [MakeEntry(r, fmt)]];
      } else {
        SkipStep(rows, i, grouped, order, fmt);
      }
    }
    GroupedAll(rows, grouped, order, fmt);
    out := ObjectEntries(grouped, order);
  }
}
