/**
 * The order in which `Object.entries` lists the own string keys of an
 * ordinary JavaScript object (ECMA-262, section 10.1.11.1,
 * OrdinaryOwnPropertyKeys): first every key that is an array index, in
 * ascending numeric order, then every other key in the order it was created.
 */
module JsKeys {

  predicate IsDigit(c: char) {
    '0' <= c <= '9'
  }

  predicate AllDigits(s: string) {
    forall i :: 0 <= i < |s| ==> IsDigit(s[i])
  }

  /** The value of a decimal numeral. */
  function DigitsValue(s: string): nat
    requires AllDigits(s)
  {
    if s == [] then 0
    else 10 * DigitsValue(s[..|s| - 1]) + (s[|s| - 1] as int - '0' as int)
  }

  /** The largest array index, 2^32 - 2 (ECMA-262, section 6.1.7). */
  const MaxArrayIndex: nat := 0xFFFF_FFFE

  /** A canonical decimal numeral (no sign, no leading zero) whose value is an array index. */
  predicate IsArrayIndex(k: string) {
    && |k| > 0
    && AllDigits(k)
    && (k[0] != '0' || |k| == 1)
    && DigitsValue(k) <= MaxArrayIndex
  }

  /** The keys of `ks` that are (`index`) or are not (`!index`) array indices, in their order in `ks`. */
  function KeysWhere(ks: seq<string>, index: bool): (r: seq<string>)
    ensures forall k :: k in r ==> k in ks && IsArrayIndex(k) == index
  {
    if ks == [] then []
    else (if IsArrayIndex(ks[0]) == index then [ks[0]] else []) + KeysWhere(ks[1..], index)
  }

  lemma {:induction false} KeysWhereConcat(a: seq<string>, b: seq<string>, index: bool)
    ensures KeysWhere(a + b, index) == KeysWhere(a, index) + KeysWhere(b, index)
  {
    if a == [] {
      assert a + b == b;
    } else {
      var head := if IsArrayIndex(a[0]) == index then [a[0]] else [];
      assert (a + b)[0] == a[0];
      assert (a + b)[1..] == a[1..] + b;
      KeysWhereConcat(a[1..], b, index);
      calc {
        KeysWhere(a + b, index);
        head + KeysWhere(a[1..] + b, index);
        head + (KeysWhere(a[1..], index) + KeysWhere(b, index));
        (head + KeysWhere(a[1..], index)) + KeysWhere(b, index);
      }
    }
  }

  lemma {:induction false} KeysWherePartition(ks: seq<string>)
    ensures multiset(KeysWhere(ks, true)) + multiset(KeysWhere(ks, false)) == multiset(ks)
  {
    if ks != [] {
      KeysWherePartition(ks[1..]);
      assert ks == [ks[0]] + ks[1..];
    }
  }

  /** Keys all of one kind are kept whole, and none is kept when asking for the other kind. */
  lemma {:induction false} KeysWhereUniform(ks: seq<string>, index: bool)
    requires forall i :: 0 <= i < |ks| ==> IsArrayIndex(ks[i]) == index
    ensures KeysWhere(ks, index) == ks
    ensures KeysWhere(ks, !index) == []
  {
    if ks != [] {
      KeysWhereUniform(ks[1..], index);
    }
  }

  predicate AllArrayIndices(ks: seq<string>) {
    forall i :: 0 <= i < |ks| ==> IsArrayIndex(ks[i])
  }

  predicate Ascending(ks: seq<string>)
    requires AllArrayIndices(ks)
  {
    forall i, j :: 0 <= i < j < |ks| ==> DigitsValue(ks[i]) <= DigitsValue(ks[j])
  }

  /** `k` inserted into the ascending indices `ks` before the first larger one. */
  function InsertIndex(k: string, ks: seq<string>): seq<string>
    requires IsArrayIndex(k) && AllArrayIndices(ks) && Ascending(ks)
  {
    if ks == [] || DigitsValue(k) <= DigitsValue(ks[0]) then [k] + ks
    else [ks[0]] + InsertIndex(k, ks[1..])
  }

  lemma {:induction false} InsertIndexSorts(k: string, ks: seq<string>)
    requires IsArrayIndex(k) && AllArrayIndices(ks) && Ascending(ks)
    ensures AllArrayIndices(InsertIndex(k, ks)) && Ascending(InsertIndex(k, ks))
    ensures InsertIndex(k, ks) != [] && (InsertIndex(k, ks)[0] == k || (ks != [] && InsertIndex(k, ks)[0] == ks[0]))
  {
    if ks == [] {
      assert InsertIndex(k, ks) == [k];
    } else if DigitsValue(k) <= DigitsValue(ks[0]) {
      assert InsertIndex(k, ks) == [k] + ks;
      AscendingCons(k, ks);
    } else {
      var rest := InsertIndex(k, ks[1..]);
      assert InsertIndex(k, ks) == [ks[0]] + rest;
      InsertIndexSorts(k, ks[1..]);
      AscendingCons(ks[0], rest);
    }
  }

  lemma {:induction false} InsertIndexPermutes(k: string, ks: seq<string>)
    requires IsArrayIndex(k) && AllArrayIndices(ks) && Ascending(ks)
    ensures multiset(InsertIndex(k, ks)) == multiset(ks) + multiset{k}
  {
    if ks != [] && DigitsValue(k) > DigitsValue(ks[0]) {
      InsertIndexPermutes(k, ks[1..]);
      assert ks == [ks[0]] + ks[1..];
    }
  }

  /** An index no larger than the first of an ascending sequence can go in front of it. */
  lemma AscendingCons(h: string, rest: seq<string>)
    requires IsArrayIndex(h) && AllArrayIndices(rest) && Ascending(rest)
    requires rest != [] && DigitsValue(h) <= DigitsValue(rest[0])
    ensures AllArrayIndices([h] + rest) && Ascending([h] + rest)
  {
    var r := [h] + rest;
    assert forall j :: 0 < j < |r| ==> r[j] == rest[j - 1];
    assert forall j :: 0 < j < |r| ==> DigitsValue(rest[0]) <= DigitsValue(r[j]);
  }

  /** Array-index keys in ascending numeric order. */
  function SortIndices(ks: seq<string>): (r: seq<string>)
    requires AllArrayIndices(ks)
    ensures AllArrayIndices(r) && Ascending(r)
    ensures multiset(r) == multiset(ks)
  {
    if ks == [] then []
    else
      assert ks == [ks[0]] + ks[1..];
      InsertIndexSorts(ks[0], SortIndices(ks[1..]));
      InsertIndexPermutes(ks[0], SortIndices(ks[1..]));
      InsertIndex(ks[0], SortIndices(ks[1..]))
  }

  /** Sorted array indices followed by other keys are in the order the specification asks for. */
  lemma IndicesThenOthers(sorted: seq<string>, other: seq<string>)
    requires AllArrayIndices(sorted) && Ascending(sorted)
    requires forall i :: 0 <= i < |other| ==> !IsArrayIndex(other[i])
    ensures var r := sorted + other;
      && (forall i, j :: 0 <= i < j < |r| && IsArrayIndex(r[j]) ==> IsArrayIndex(r[i]))
      && (forall i, j :: 0 <= i < j < |r| && IsArrayIndex(r[i]) && IsArrayIndex(r[j]) ==> DigitsValue(r[i]) <= DigitsValue(r[j]))
  {
  }

  /** The order `Object.entries` reports the keys of an object whose keys were created in the order `ks`. */
  function ObjectKeyOrder(ks: seq<string>): (r: seq<string>)
    ensures multiset(r) == multiset(ks)
  {
    KeysWherePartition(ks);
    SortIndices(KeyIndices(ks)) + KeysWhere(ks, false)
  }

  /** `ObjectKeyOrder` lists the same keys, as many of them. */
  lemma ObjectKeyOrderSameKeys(ks: seq<string>)
    ensures |ObjectKeyOrder(ks)| == |ks|
    ensures forall k :: k in ObjectKeyOrder(ks) <==> k in ks
  {
    var r := ObjectKeyOrder(ks);
    assert |multiset(r)| == |multiset(ks)|;
    forall k ensures k in r <==> k in ks {
      assert k in r <==> k in multiset(r);
      assert k in ks <==> k in multiset(ks);
    }
  }

  function KeyIndices(ks: seq<string>): (r: seq<string>)
    ensures AllArrayIndices(r)
  {
    var idx := KeysWhere(ks, true);
    assert forall i :: 0 <= i < |idx| ==> idx[i] in idx;
    idx
  }

  lemma OthersAreNotIndices(ks: seq<string>)
    ensures forall i :: 0 <= i < |KeysWhere(ks, false)| ==> !IsArrayIndex(KeysWhere(ks, false)[i])
  {
    var other := KeysWhere(ks, false);
    forall i | 0 <= i < |other| ensures !IsArrayIndex(other[i]) {
      assert other[i] in other;
    }
  }

  /**
   * `ObjectKeyOrder` lists every array index before every other key, and the
   * array indices in ascending numeric order.
   */
  lemma ObjectKeyOrderIndicesFirst(ks: seq<string>)
    ensures var r := ObjectKeyOrder(ks);
      && (forall i, j :: 0 <= i < j < |r| && IsArrayIndex(r[j]) ==> IsArrayIndex(r[i]))
      && (forall i, j :: 0 <= i < j < |r| && IsArrayIndex(r[i]) && IsArrayIndex(r[j]) ==> DigitsValue(r[i]) <= DigitsValue(r[j]))
  {
    OthersAreNotIndices(ks);
    IndicesThenOthers(SortIndices(KeyIndices(ks)), KeysWhere(ks, false));
  }

  /** `ObjectKeyOrder` keeps the keys that are not array indices in their creation order. */
  lemma ObjectKeyOrderKeepsOthers(ks: seq<string>)
    ensures KeysWhere(ObjectKeyOrder(ks), false) == KeysWhere(ks, false)
  {
    var sorted := SortIndices(KeyIndices(ks));
    var other := KeysWhere(ks, false);
    OthersAreNotIndices(ks);
    KeysWhereConcat(sorted, other, false);
    KeysWhereUniform(sorted, true);
    KeysWhereUniform(other, false);
  }

  /** When no key is an array index, `Object.entries` lists the keys in creation order. */
  lemma NoArrayIndexKeepsCreationOrder(ks: seq<string>)
    requires forall i :: 0 <= i < |ks| ==> !IsArrayIndex(ks[i])
    ensures ObjectKeyOrder(ks) == ks
  {
    KeysWhereUniform(ks, false);
    assert KeyIndices(ks) == [];
  }
}
