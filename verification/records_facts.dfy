/** What the `/api/records` answer promises, proved about `Records.TopThreeBySpecies`. */
module RecordsFacts {
  import opened Collections
  import opened JsKeys
  import opened Records

  /** Every group of the answer has at least one and at most `Cap` entries. */
  lemma GroupSize(rows: seq<Row>, fmt: Format, j: nat)
    requires j < |TopThreeBySpecies(rows, fmt)|
    ensures 1 <= |TopThreeBySpecies(rows, fmt)[j].entries| <= Cap
  {
    var ks := ObjectKeyOrder(SpeciesOrder(rows));
    assert ks[j] in multiset(SpeciesOrder(rows));
    assert OfSpecies(rows, ks[j]) != [];
    TopEntriesLength(rows, ks[j], fmt);
  }

  /**
   * Each species of the input has exactly one group: a species has a group
   * exactly when some row has that species, and no two groups share one.
   */
  lemma OneGroupPerSpecies(rows: seq<Row>, fmt: Format, s: string)
    ensures var out := TopThreeBySpecies(rows, fmt);
      && (forall j1, j2 :: 0 <= j1 < j2 < |out| ==> out[j1].species != out[j2].species)
      && ((exists j :: 0 <= j < |out| && out[j].species == s) <==> (exists i :: 0 <= i < |rows| && rows[i].species == s))
  {
    var order := SpeciesOrder(rows);
    var ks := ObjectKeyOrder(order);
    var out := TopThreeBySpecies(rows, fmt);
    DistinctPermutation(order, ks);
    HasSpeciesIff(rows, s);
    if HasSpecies(rows, s) {
      assert s in multiset(ks);
      var j :| 0 <= j < |ks| && ks[j] == s;
      assert out[j].species == s;
    }
    if exists j :: 0 <= j < |out| && out[j].species == s {
      var j :| 0 <= j < |out| && out[j].species == s;
      assert ks[j] in multiset(order);
    }
  }

  /** The rows of a species met before position `n` come first among all its rows. */
  lemma {:induction false} OfSpeciesPrefix(rows: seq<Row>, n: nat, s: string)
    requires n <= |rows|
    ensures var before, all := OfSpecies(rows[..n], s), OfSpecies(rows, s);
      |before| <= |all| && all[..|before|] == before
  {
    if n < |rows| {
      var init := rows[..|rows| - 1];
      assert rows[..n] == init[..n];
      OfSpeciesPrefix(init, n, s);
    } else {
      assert rows[..n] == rows;
    }
  }

  /**
   * Row `i` is listed exactly when fewer than `Cap` earlier rows share its
   * species, and then it is that species' entry number `c`, where `c` counts
   * those earlier rows; its diver, weight and date all come from row `i`
   * (`MakeEntry`, lines 112-116).
   * Together with `TopEntriesLength` this says a species' entries are its first
   * min(3, k) rows, in input order.
   */
  lemma EntryOfRow(rows: seq<Row>, i: nat, fmt: Format)
    requires i < |rows|
    ensures var s, c := rows[i].species, Count(rows[..i], rows[i].species);
      c < |TopEntries(rows, s, fmt)| <==> c < Cap
    ensures var s, c := rows[i].species, Count(rows[..i], rows[i].species);
      c < Cap ==> TopEntries(rows, s, fmt)[c] == MakeEntry(rows[i], fmt)
  {
    var s := rows[i].species;
    var c := Count(rows[..i], s);
    RowPlaceInSpecies(rows, i);
    var all := OfSpecies(rows, s);
    TopEntriesLength(rows, s, fmt);
    if c < Cap {
      assert TopRows(rows, s)[c] == all[c];
    }
  }

  /** Row `i` is the row of its species numbered by how many earlier rows share the species. */
  lemma RowPlaceInSpecies(rows: seq<Row>, i: nat)
    requires i < |rows|
    ensures var c := Count(rows[..i], rows[i].species);
      c < Count(rows, rows[i].species) && OfSpecies(rows, rows[i].species)[c] == rows[i]
  {
    var s := rows[i].species;
    assert rows[..i + 1][..i] == rows[..i];
    assert OfSpecies(rows[..i + 1], s) == OfSpecies(rows[..i], s) + [rows[i]];
    OfSpeciesPrefix(rows, i + 1, s);
  }

  /** Each listed entry is made from one input row of its group's species. */
  lemma EntriesComeFromRows(rows: seq<Row>, fmt: Format, j: nat, e: nat)
    requires j < |TopThreeBySpecies(rows, fmt)|
    requires e < |TopThreeBySpecies(rows, fmt)[j].entries|
    ensures var g := TopThreeBySpecies(rows, fmt)[j];
      exists i :: 0 <= i < |rows| && rows[i].species == g.species && g.entries[e] == MakeEntry(rows[i], fmt)
  {
    var g := TopThreeBySpecies(rows, fmt)[j];
    var top := TopRows(rows, g.species);
    assert g.entries[e] == MakeEntry(top[e], fmt);
    assert top[e] in OfSpecies(rows, g.species);
    var i :| 0 <= i < |rows| && rows[i] == top[e];
  }

  /** The order the query asks for: within one species, rows by descending weight. */
  ghost predicate HeaviestFirstWithinSpecies(rows: seq<Row>) {
    forall i, j :: 0 <= i < j < |rows| && rows[i].species == rows[j].species ==> rows[i].weight >= rows[j].weight
  }

  /** Rows by descending weight. */
  ghost predicate HeaviestFirst(rs: seq<Row>) {
    forall a, b :: 0 <= a < b < |rs| ==> rs[a].weight >= rs[b].weight
  }

  lemma {:induction false} OfSpeciesHeaviestFirst(rows: seq<Row>, s: string)
    requires HeaviestFirstWithinSpecies(rows)
    ensures HeaviestFirst(OfSpecies(rows, s))
  {
    if rows != [] {
      var init, last := rows[..|rows| - 1], rows[|rows| - 1];
      assert HeaviestFirstWithinSpecies(init) by {
        forall i, j | 0 <= i < j < |init| && init[i].species == init[j].species
          ensures init[i].weight >= init[j].weight
        {
          assert init[i] == rows[i] && init[j] == rows[j];
        }
      }
      OfSpeciesHeaviestFirst(init, s);
      var before := OfSpecies(init, s);
      if last.species == s {
        var all := before + [last];
        assert OfSpecies(rows, s) == all;
        forall a | 0 <= a < |before| ensures before[a].weight >= last.weight {
          assert before[a] in init;
          var i :| 0 <= i < |init| && init[i] == before[a];
          assert rows[i] == before[a];
        }
        forall a, b | 0 <= a < b < |all| ensures all[a].weight >= all[b].weight {
          assert all[a] == before[a];
          if b == |before| {
            assert all[b] == last;
          } else {
            assert all[b] == before[b];
            assert before[a].weight >= before[b].weight;
          }
        }
      } else {
        assert OfSpecies(rows, s) == before;
      }
    }
  }

  /**
   * With the rows in the order the query produces, every row a species keeps
   * weighs at least as much as every row of that species the handler drops:
   * the entries are the species' three heaviest.
   */
  lemma KeepsHeaviest(rows: seq<Row>, s: string)
    requires HeaviestFirstWithinSpecies(rows)
    ensures forall t, d :: t in TopRows(rows, s) && d in DroppedRows(rows, s) ==> t.weight >= d.weight
    ensures TopRows(rows, s) + DroppedRows(rows, s) == OfSpecies(rows, s)
  {
    var all := OfSpecies(rows, s);
    var m := Min(Cap, |all|);
    var top, dropped := all[..m], all[m..];
    OfSpeciesHeaviestFirst(rows, s);
    forall t, d | t in top && d in dropped ensures t.weight >= d.weight {
      SplitHeaviestFirst(all, m, t, d);
    }
    assert top + dropped == all;
  }

  /** In a heaviest-first sequence, a row before position `m` weighs at least as much as one from `m` on. */
  lemma SplitHeaviestFirst(all: seq<Row>, m: nat, t: Row, d: Row)
    requires HeaviestFirst(all) && m <= |all|
    requires t in all[..m] && d in all[m..]
    ensures t.weight >= d.weight
  {
    var a :| 0 <= a < m && all[..m][a] == t;
    var b :| 0 <= b < |all| - m && all[m..][b] == d;
    assert all[a] == t && all[m + b] == d;
  }

  /** A row whose species already has `Cap` rows leaves the whole answer unchanged. */
  lemma DroppedRowChangesNothing(rows: seq<Row>, r: Row, fmt: Format)
    requires Count(rows, r.species) >= Cap
    ensures TopThreeBySpecies(rows + [r], fmt) == TopThreeBySpecies(rows, fmt)
  {
    AppendRowSpeciesOrder(rows, r);
    AppendRow(rows, r, fmt);
    assert HasSpecies(rows, r.species);
    var ks := ObjectKeyOrder(SpeciesOrder(rows));
    var a, b := TopThreeBySpecies(rows + [r], fmt), TopThreeBySpecies(rows, fmt);
    assert |a| == |b|;
    forall j | 0 <= j < |ks| ensures a[j] == b[j] {
      assert a[j] == Group(ks[j], TopEntries(rows + [r], ks[j], fmt));
    }
  }

  /** Total number of entries of a list of groups. */
  function TotalEntries(groups: seq<Group>): nat {
    if groups == [] then 0 else |groups[0].entries| + TotalEntries(groups[1..])
  }

  /** The sum, over the species `ks`, of min(`Cap`, rows of that species). */
  function SumCapped(rows: seq<Row>, ks: seq<string>): nat {
    if ks == [] then 0 else Min(Cap, Count(rows, ks[0])) + SumCapped(rows, ks[1..])
  }

  lemma {:induction false} SumCappedConcat(rows: seq<Row>, a: seq<string>, b: seq<string>)
    ensures SumCapped(rows, a + b) == SumCapped(rows, a) + SumCapped(rows, b)
  {
    if a == [] {
      assert a + b == b;
    } else {
      assert (a + b)[0] == a[0];
      assert (a + b)[1..] == a[1..] + b;
      SumCappedConcat(rows, a[1..], b);
    }
  }

  /** Taking key `i` out of `b` takes its term out of the sum. */
  lemma SumCappedRemove(rows: seq<Row>, b: seq<string>, i: nat)
    requires i < |b|
    ensures SumCapped(rows, b) == Min(Cap, Count(rows, b[i])) + SumCapped(rows, b[..i] + b[i + 1..])
  {
    assert b == b[..i] + [b[i]] + b[i + 1..];
    SumCappedConcat(rows, b[..i] + [b[i]], b[i + 1..]);
    SumCappedConcat(rows, b[..i], [b[i]]);
    SumCappedConcat(rows, b[..i], b[i + 1..]);
  }

  lemma MultisetRemove(b: seq<string>, i: nat)
    requires i < |b|
    ensures multiset(b[..i] + b[i + 1..]) == multiset(b) - multiset{b[i]}
  {
    assert b == b[..i] + [b[i]] + b[i + 1..];
  }

  /** Taking the first key of `a` out of `a`, and the same key out of `b`, leaves two permutations. */
  lemma PermutationTail(a: seq<string>, b: seq<string>, i: nat)
    requires multiset(a) == multiset(b) && a != [] && i < |b| && b[i] == a[0]
    ensures multiset(a[1..]) == multiset(b[..i] + b[i + 1..])
  {
    MultisetRemove(b, i);
    assert a == [a[0]] + a[1..];
    assert multiset(a) == multiset{a[0]} + multiset(a[1..]);
  }

  /** Listing the same species in another order gives the same sum. */
  lemma {:induction false} SumCappedPermutation(rows: seq<Row>, a: seq<string>, b: seq<string>)
    requires multiset(a) == multiset(b)
    ensures SumCapped(rows, a) == SumCapped(rows, b)
    decreases |a|
  {
    if a == [] {
      assert |b| == |multiset(b)| == 0;
    } else {
      var x := a[0];
      assert x in multiset(b);
      var i :| 0 <= i < |b| && b[i] == x;
      var rest := b[..i] + b[i + 1..];
      PermutationTail(a, b, i);
      SumCappedPermutation(rows, a[1..], rest);
      SumCappedRemove(rows, b, i);
      assert SumCapped(rows, a) == Min(Cap, Count(rows, x)) + SumCapped(rows, a[1..]);
    }
  }

  lemma {:induction false} TotalOfGroups(rows: seq<Row>, ks: seq<string>, fmt: Format)
    ensures TotalEntries(GroupsFor(rows, ks, fmt)) == SumCapped(rows, ks)
  {
    if ks != [] {
      var gs := GroupsFor(rows, ks, fmt);
      assert gs[1..] == GroupsFor(rows, ks[1..], fmt);
      TotalOfGroups(rows, ks[1..], fmt);
      TopEntriesLength(rows, ks[0], fmt);
    }
  }

  /** The answer lists, over all species, min(3, rows of that species) entries in total. */
  lemma TotalEntriesOfAnswer(rows: seq<Row>, fmt: Format)
    ensures TotalEntries(TopThreeBySpecies(rows, fmt)) == SumCapped(rows, SpeciesOrder(rows))
  {
    var order := SpeciesOrder(rows);
    TotalOfGroups(rows, ObjectKeyOrder(order), fmt);
    SumCappedPermutation(rows, ObjectKeyOrder(order), order);
  }

  /** Some prefix of `rows` holds species `x` and not species `y`: `x` is met first. */
  ghost predicate MetBefore(rows: seq<Row>, x: string, y: string) {
    exists n :: 0 <= n <= |rows| && HasSpecies(rows[..n], x) && !HasSpecies(rows[..n], y)
  }

  /** Species come in the order of their first row. */
  lemma {:induction false} SpeciesOrderIsFirstRowOrder(rows: seq<Row>)
    ensures forall a, b :: 0 <= a < b < |SpeciesOrder(rows)| ==>
      MetBefore(rows, SpeciesOrder(rows)[a], SpeciesOrder(rows)[b])
  {
    if rows != [] {
      var init, last := rows[..|rows| - 1], rows[|rows| - 1];
      var prev := SpeciesOrder(init);
      var ks := SpeciesOrder(rows);
      SpeciesOrderIsFirstRowOrder(init);
      assert ks[..|prev|] == prev;
      forall a, b | 0 <= a < b < |ks| ensures MetBefore(rows, ks[a], ks[b]) {
        assert ks[a] == prev[a];
        if b < |prev| {
          assert ks[b] == prev[b];
          assert MetBefore(init, prev[a], prev[b]);
          var n :| 0 <= n <= |init| && HasSpecies(init[..n], prev[a]) && !HasSpecies(init[..n], prev[b]);
          assert rows[..n] == init[..n];
        } else {
          assert rows[..|init|] == init;
          assert ks[a] in prev && ks[b] !in prev;
          assert HasSpecies(rows[..|init|], ks[a]) && !HasSpecies(rows[..|init|], ks[b]);
        }
      }
    }
  }

  /**
   * When no species is an array index (a canonical numeral such as "42"), the
   * groups come in the order of each species' first row; otherwise the
   * array-index species come first, in ascending numeric order.
   */
  lemma GroupOrder(rows: seq<Row>, fmt: Format)
    ensures var out, order := TopThreeBySpecies(rows, fmt), SpeciesOrder(rows);
      (forall i :: 0 <= i < |rows| ==> !IsArrayIndex(rows[i].species)) ==>
        |out| == |order| && forall j :: 0 <= j < |out| ==> out[j].species == order[j]
    ensures var out := TopThreeBySpecies(rows, fmt);
      && (forall j1, j2 :: 0 <= j1 < j2 < |out| && IsArrayIndex(out[j2].species) ==> IsArrayIndex(out[j1].species))
      && (forall j1, j2 :: 0 <= j1 < j2 < |out| && IsArrayIndex(out[j1].species) && IsArrayIndex(out[j2].species) ==>
            DigitsValue(out[j1].species) <= DigitsValue(out[j2].species))
  {
    var order := SpeciesOrder(rows);
    ObjectKeyOrderIndicesFirst(order);
    if forall i :: 0 <= i < |rows| ==> !IsArrayIndex(rows[i].species) {
      forall j | 0 <= j < |order| ensures !IsArrayIndex(order[j]) {
        HasSpeciesIff(rows, order[j]);
      }
      NoArrayIndexKeepsCreationOrder(order);
    }
  }
}
