/**
 * The synchronous part of the robust gene search: the records returned by
 * every provider are folded, one after another, into a single list kept in
 * order of display key. A record whose key is already in the list is merged
 * into the element that has it; any other record is spliced in before the
 * first element with a greater key, or appended.
 *
 * The fold is generic in the record type: `key` gives a record's display key
 * and `mergeInto(receiver, incoming)` the receiver's value after merging the
 * incoming record into it.
 */
module RobustGeneSearch {
  import opened Text

  // ---------------------------------------------------------------------------
  // Keys and order
  // ---------------------------------------------------------------------------

  /** The display keys of a list of records, position by position. */
  function Keys<T>(items: seq<T>, key: T -> string): (ks: seq<string>)
    ensures |ks| == |items|
    ensures forall i :: 0 <= i < |items| ==> ks[i] == key(items[i])
  {
    seq(|items|, i requires 0 <= i < |items| => key(items[i]))
  }

  ghost function Elements(ks: seq<string>): set<string> {
    set k | k in ks
  }

  /** The distinct display keys of a list of records. */
  ghost function KeySet<T>(items: seq<T>, key: T -> string): set<string> {
    Elements(Keys(items, key))
  }

  /** Strictly increasing in lexicographic order: sorted, and no key twice. */
  ghost predicate Increasing(ks: seq<string>) {
    forall i, j :: 0 <= i < j < |ks| ==> Less(ks[i], ks[j])
  }

  ghost predicate Sorted<T>(items: seq<T>, key: T -> string) {
    Increasing(Keys(items, key))
  }

  /** Merging a record into one with the same display key leaves the receiver's key as it was. */
  ghost predicate MergeKeepsKey<T(!new)>(key: T -> string, mergeInto: (T, T) -> T) {
    forall receiver, incoming :: key(receiver) == key(incoming) ==> key(mergeInto(receiver, incoming)) == key(receiver)
  }

  // ---------------------------------------------------------------------------
  // Placing one record
  // ---------------------------------------------------------------------------

  /** The scan over the list stops at an element whose key is equal to or greater than `k`. */
  predicate Stops(elementKey: string, k: string) {
    elementKey == k || Less(k, elementKey)
  }

  /**
   * Where the scan for key `k` stops: the first element with an equal or
   * greater key, or the end of the list. Every element before it sorts
   * strictly before `k`.
   */
  function FindPlace<T>(items: seq<T>, k: string, key: T -> string): (i: nat)
    ensures i <= |items|
    ensures forall j :: 0 <= j < i ==> Less(key(items[j]), k)
    ensures i < |items| ==> Stops(key(items[i]), k)
    decreases |items|
  {
    if items == [] then 0
    else if Stops(key(items[0]), k) then 0
    else LessTotal(key(items[0]), k); 1 + FindPlace(items[1..], k, key)
  }

  /**
   * The list after the record `gene` has been placed into it: either one
   * element with the record's key has been merged with it where it stands,
   * or the record has been spliced in among the old elements, so the list
   * grows by at most one element.
   */
  function Insert<T>(items: seq<T>, gene: T, key: T -> string, mergeInto: (T, T) -> T): (r: seq<T>)
    ensures |items| <= |r| <= |items| + 1
  {
    var i := FindPlace(items, key(gene), key);
    if i < |items| && key(items[i]) == key(gene) then items[i := mergeInto(items[i], gene)]
    else items[..i] + [gene] + items[i..]
  }

  /**
   * On any list, sorted or not: when the list keeps its length, one element
   * with the record's key has been merged with it; otherwise the record has
   * been spliced in with the old elements in their old order around it.
   */
  lemma InsertShape<T>(items: seq<T>, gene: T, key: T -> string, mergeInto: (T, T) -> T)
    ensures var r := Insert(items, gene, key, mergeInto);
            |r| == |items| ==> exists p :: 0 <= p < |items| && key(items[p]) == key(gene)
                                            && r == items[p := mergeInto(items[p], gene)]
    ensures var r := Insert(items, gene, key, mergeInto);
            |r| != |items| ==> exists p :: 0 <= p <= |items| && r == items[..p] + [gene] + items[p..]
  {
  }

  /** The scan position is the only one before which no element stops the scan and at which one does. */
  lemma {:induction false} FindPlaceUnique<T>(items: seq<T>, k: string, key: T -> string, i: nat)
    requires i <= |items|
    requires forall j :: 0 <= j < i ==> !Stops(key(items[j]), k)
    requires i < |items| ==> Stops(key(items[i]), k)
    ensures FindPlace(items, k, key) == i
    decreases |items|
  {
    if items != [] && i > 0 {
      assert !Stops(key(items[0]), k);
      FindPlaceUnique(items[1..], k, key, i - 1);
    }
  }

  /**
   * `addGene`: scans the list; on an element with an equal key, merges the
   * record into it; on the first element with a greater key, splices the
   * record in before it; and appends the record when the scan runs off the end.
   */
  method AddGene<T>(massive: seq<T>, gene: T, key: T -> string, mergeInto: (T, T) -> T) returns (r: seq<T>)
    ensures r == Insert(massive, gene, key, mergeInto)
  {
    var name := key(gene);
    for arrayIndex := 0 to |massive|
      invariant forall j :: 0 <= j < arrayIndex ==> !Stops(key(massive[j]), name)
    {
      if key(massive[arrayIndex]) == name {
        FindPlaceUnique(massive, name, key, arrayIndex);
        r := massive[arrayIndex := mergeInto(massive[arrayIndex], gene)];
        return;
      } else if Less(name, key(massive[arrayIndex])) {
        FindPlaceUnique(massive, name, key, arrayIndex);
        r := massive[..arrayIndex] + [gene] + massive[arrayIndex..];
        return;
      }
    }
    FindPlaceUnique(massive, name, key, |massive|);
    assert massive[..|massive|] + [gene] + massive[|massive|..] == massive + [gene];
    r := massive + [gene];
  }

  /**
   * When the list is sorted and holds an element with the record's key, the
   * record is merged into that element where it stands: same length, every
   * other element untouched.
   */
  lemma InsertWhenPresent<T>(items: seq<T>, gene: T, key: T -> string, mergeInto: (T, T) -> T, p: nat)
    requires Sorted(items, key)
    requires p < |items| && key(items[p]) == key(gene)
    ensures Insert(items, gene, key, mergeInto) == items[p := mergeInto(items[p], gene)]
  {
    var i := FindPlace(items, key(gene), key);
    if i < p {
      assert Less(key(items[i]), key(items[p]));
      LessAsymmetric(key(items[i]), key(gene));
      LessIrreflexive(key(gene));
    } else if i > p {
      LessIrreflexive(key(gene));
    }
  }

  /**
   * When no element has the record's key, the record is spliced in at the
   * scan position: one element longer, everything before sorts before the
   * record, the element after (if any) after it, the old elements in their
   * old order on either side.
   */
  lemma InsertWhenAbsent<T>(items: seq<T>, gene: T, key: T -> string, mergeInto: (T, T) -> T)
    requires forall j :: 0 <= j < |items| ==> key(items[j]) != key(gene)
    ensures exists p :: 0 <= p <= |items|
              && Insert(items, gene, key, mergeInto) == items[..p] + [gene] + items[p..]
              && (forall j :: 0 <= j < p ==> Less(key(items[j]), key(gene)))
              && (p < |items| ==> Less(key(gene), key(items[p])))
  {
    var p := FindPlace(items, key(gene), key);
    assert Insert(items, gene, key, mergeInto) == items[..p] + [gene] + items[p..];
  }

  /** Splicing a record in between the smaller and the greater keys keeps a sorted list sorted. */
  lemma SortedSplice<T>(items: seq<T>, gene: T, key: T -> string, p: nat)
    requires Sorted(items, key) && p <= |items|
    requires forall j :: 0 <= j < p ==> Less(key(items[j]), key(gene))
    requires forall j :: p <= j < |items| ==> Less(key(gene), key(items[j]))
    ensures Sorted(items[..p] + [gene] + items[p..], key)
  {
    var r := items[..p] + [gene] + items[p..];
    var ks := Keys(r, key);
    forall i, j | 0 <= i < j < |ks| ensures Less(ks[i], ks[j]) {
      var i' := if i < p then i else i - 1;
      var j' := if j <= p then j else j - 1;
      if i != p && j != p {
        assert ks[i] == key(items[i']) && ks[j] == key(items[j']);
        assert Keys(items, key)[i'] == key(items[i']) && Keys(items, key)[j'] == key(items[j']);
      }
    }
  }

  /** Placing a record keeps a sorted list sorted, provided a merge keeps the receiver's key. */
  lemma InsertKeepsSorted<T(!new)>(items: seq<T>, gene: T, key: T -> string, mergeInto: (T, T) -> T)
    requires Sorted(items, key) && MergeKeepsKey(key, mergeInto)
    ensures Sorted(Insert(items, gene, key, mergeInto), key)
  {
    var p := FindPlace(items, key(gene), key);
    var r := Insert(items, gene, key, mergeInto);
    if p < |items| && key(items[p]) == key(gene) {
      assert Keys(r, key) == Keys(items, key);
    } else {
      forall j | p <= j < |items| ensures Less(key(gene), key(items[j])) {
        assert Less(key(gene), key(items[p]));
        if j > p {
          assert Keys(items, key)[p] == key(items[p]) && Keys(items, key)[j] == key(items[j]);
          LessTransitive(key(gene), key(items[p]), key(items[j]));
        }
      }
      SortedSplice(items, gene, key, p);
    }
  }

  /** Placing a record adds its key to the list's keys and no other, provided a merge keeps the receiver's key. */
  lemma InsertKeySet<T(!new)>(items: seq<T>, gene: T, key: T -> string, mergeInto: (T, T) -> T)
    requires MergeKeepsKey(key, mergeInto)
    ensures KeySet(Insert(items, gene, key, mergeInto), key) == KeySet(items, key) + {key(gene)}
  {
    var p := FindPlace(items, key(gene), key);
    var r := Insert(items, gene, key, mergeInto);
    var ks := Keys(items, key);
    if p < |items| && key(items[p]) == key(gene) {
      assert Keys(r, key) == ks;
      assert key(gene) in ks;
    } else {
      assert Keys(r, key) == ks[..p] + [key(gene)] + ks[p..];
      assert ks == ks[..p] + ks[p..];
    }
  }

  // ---------------------------------------------------------------------------
  // Folding every provider's records
  // ---------------------------------------------------------------------------

  /** The records of all providers, provider after provider, each in its own order. */
  function Flatten<T>(arrays: seq<seq<T>>): seq<T> {
    if arrays == [] then [] else Flatten(arrays[..|arrays| - 1]) + arrays[|arrays| - 1]
  }

  /** The list after placing `genes`, first to last, into `items`. */
  function InsertAll<T>(items: seq<T>, genes: seq<T>, key: T -> string, mergeInto: (T, T) -> T): (r: seq<T>)
    decreases |genes|
  {
    if genes == [] then items
    else Insert(InsertAll(items, genes[..|genes| - 1], key, mergeInto), genes[|genes| - 1], key, mergeInto)
  }

  /**
   * The result of the search callback: every provider's records placed into
   * an empty list. It has at most one element per record, and is empty
   * exactly when no provider returned a record.
   */
  function Aggregate<T>(arrays: seq<seq<T>>, key: T -> string, mergeInto: (T, T) -> T): (r: seq<T>)
    ensures |r| <= |Flatten(arrays)|
    ensures r == [] <==> Flatten(arrays) == []
  {
    InsertAllLength([], Flatten(arrays), key, mergeInto);
    InsertAll([], Flatten(arrays), key, mergeInto)
  }

  /** Placing records never removes an element and adds at most one per record. */
  lemma {:induction false} InsertAllLength<T>(items: seq<T>, genes: seq<T>, key: T -> string, mergeInto: (T, T) -> T)
    ensures |items| <= |InsertAll(items, genes, key, mergeInto)| <= |items| + |genes|
    ensures genes != [] ==> |InsertAll(items, genes, key, mergeInto)| > 0
    decreases |genes|
  {
    if genes != [] {
      InsertAllLength(items, genes[..|genes| - 1], key, mergeInto);
    }
  }

  /**
   * The body of the callback passed to `map` in `search`: the nested loop
   * over the provider arrays and their records, placing each with `AddGene`.
   */
  method MergeGeneArrays<T>(geneArrays: seq<seq<T>>, key: T -> string, mergeInto: (T, T) -> T) returns (massive: seq<T>)
    ensures massive == Aggregate(geneArrays, key, mergeInto)
  {
    massive := [];
    for i := 0 to |geneArrays|
      invariant massive == InsertAll([], Flatten(geneArrays[..i]), key, mergeInto)
    {
      var geneArray := geneArrays[i];
      ghost var before := Flatten(geneArrays[..i]);
      assert before + geneArray[..0] == before;
      for j := 0 to |geneArray|
        invariant massive == InsertAll([], before + geneArray[..j], key, mergeInto)
      {
        InsertAllStep([], before, geneArray, j, key, mergeInto);
        massive := AddGene(massive, geneArray[j], key, mergeInto);
      }
      FlattenStep(geneArrays, i);
    }
    assert geneArrays[..|geneArrays|] == geneArrays;
  }

  /** Placing one more record of a provider's answer: one more step of `InsertAll`. */
  lemma InsertAllStep<T>(items: seq<T>, before: seq<T>, genes: seq<T>, j: nat, key: T -> string, mergeInto: (T, T) -> T)
    requires j < |genes|
    ensures InsertAll(items, before + genes[..j + 1], key, mergeInto)
            == Insert(InsertAll(items, before + genes[..j], key, mergeInto), genes[j], key, mergeInto)
  {
    var done := before + genes[..j + 1];
    assert done[..|done| - 1] == before + genes[..j];
  }

  /** The records of one more provider come after those of the providers before it. */
  lemma FlattenStep<T>(arrays: seq<seq<T>>, i: nat)
    requires i < |arrays|
    ensures Flatten(arrays[..i + 1]) == Flatten(arrays[..i]) + arrays[i][..|arrays[i]|]
  {
    assert arrays[..i + 1][..i] == arrays[..i];
    assert arrays[i][..|arrays[i]|] == arrays[i];
  }

  /**
   * One record from each of two providers: a single merged element when their
   * keys are equal, whatever else the records hold; otherwise both records,
   * the smaller key first.
   */
  lemma AggregateOfTwo<T>(x: T, y: T, key: T -> string, mergeInto: (T, T) -> T)
    ensures Aggregate([[x], [y]], key, mergeInto)
            == if key(x) == key(y) then [mergeInto(x, y)]
               else if Less(key(x), key(y)) then [x, y]
               else [y, x]
  {
    assert [[x], [y]][..1] == [[x]] && [[x]][..0] == [];
    assert Flatten([[x]]) == Flatten([]) + [x] == [x];
    assert Flatten([[x], [y]]) == Flatten([[x]]) + [y] == [x, y];
    assert [x, y][..1] == [x] && [x][..0] == [];
    assert InsertAll([], [x], key, mergeInto) == [x];
    if key(x) != key(y) {
      LessTotal(key(x), key(y));
      if Less(key(x), key(y)) {
        LessAsymmetric(key(x), key(y));
      }
    }
  }

  lemma FlattenThree<T>(x: T, y: T, z: T)
    ensures Flatten([[x], [y]]) == [x, y]
    ensures Flatten([[x], [y], [z]]) == [x, y, z] && [x, y, z][..2] == [x, y]
  {
    assert [[x], [y], [z]][..2] == [[x], [y]];
    assert Flatten([[x]]) == Flatten([]) + [x] == [x];
    assert Flatten([[x], [y]]) == Flatten([[x]]) + [y] == [x, y];
    assert Flatten([[x], [y], [z]]) == Flatten([[x], [y]]) + [z] == [x, y, z];
  }

  /**
   * Three one-record answers, the second key above the first and the third
   * equal to the second: the third record is merged into the second element,
   * and the result is sorted only if that merge leaves the key above the first.
   */
  lemma AggregateMergeIntoSecond<T>(x: T, y: T, z: T, key: T -> string, mergeInto: (T, T) -> T)
    requires Less(key(x), key(y)) && key(z) == key(y)
    ensures Aggregate([[x], [y], [z]], key, mergeInto) == [x, mergeInto(y, z)]
    ensures Sorted(Aggregate([[x], [y], [z]], key, mergeInto), key) <==> Less(key(x), key(mergeInto(y, z)))
  {
    AggregateOfTwo(x, y, key, mergeInto);
    LessAsymmetric(key(x), key(y));
    FlattenThree(x, y, z);
    assert Aggregate([[x], [y], [z]], key, mergeInto) == Insert(Aggregate([[x], [y]], key, mergeInto), z, key, mergeInto);
    assert Keys([x, y], key)[0] == key(x) && Keys([x, y], key)[1] == key(y);
    InsertWhenPresent([x, y], z, key, mergeInto, 1);
    assert [x, y][1 := mergeInto(y, z)] == [x, mergeInto(y, z)];
    assert Keys([x, mergeInto(y, z)], key)[0] == key(x);
    assert Keys([x, mergeInto(y, z)], key)[1] == key(mergeInto(y, z));
  }

  lemma {:induction false} InsertAllSorted<T(!new)>(items: seq<T>, genes: seq<T>, key: T -> string, mergeInto: (T, T) -> T)
    requires Sorted(items, key) && MergeKeepsKey(key, mergeInto)
    ensures Sorted(InsertAll(items, genes, key, mergeInto), key)
    decreases |genes|
  {
    if genes != [] {
      InsertAllSorted(items, genes[..|genes| - 1], key, mergeInto);
      InsertKeepsSorted(InsertAll(items, genes[..|genes| - 1], key, mergeInto), genes[|genes| - 1], key, mergeInto);
    }
  }

  lemma {:induction false} InsertAllKeySet<T(!new)>(items: seq<T>, genes: seq<T>, key: T -> string, mergeInto: (T, T) -> T)
    requires MergeKeepsKey(key, mergeInto)
    ensures KeySet(InsertAll(items, genes, key, mergeInto), key) == KeySet(items, key) + KeySet(genes, key)
    decreases |genes|
  {
    if genes != [] {
      var init, last := genes[..|genes| - 1], genes[|genes| - 1];
      assert InsertAll(items, genes, key, mergeInto) == Insert(InsertAll(items, init, key, mergeInto), last, key, mergeInto);
      InsertAllKeySet(items, init, key, mergeInto);
      InsertKeySet(InsertAll(items, init, key, mergeInto), last, key, mergeInto);
      assert Keys(genes, key) == Keys(init, key) + [key(last)];
      ElementsSnoc(Keys(init, key), key(last));
    }
  }

  /**
   * The result of the search: sorted by display key with no key twice, and
   * its keys are exactly the keys of all records of all providers.
   */
  lemma AggregateSortedAndComplete<T(!new)>(arrays: seq<seq<T>>, key: T -> string, mergeInto: (T, T) -> T)
    requires MergeKeepsKey(key, mergeInto)
    ensures Sorted(Aggregate(arrays, key, mergeInto), key)
    ensures KeySet(Aggregate(arrays, key, mergeInto), key) == KeySet(Flatten(arrays), key)
  {
    assert Keys([], key) == [];
    InsertAllSorted([], Flatten(arrays), key, mergeInto);
    InsertAllKeySet([], Flatten(arrays), key, mergeInto);
  }

  // ---------------------------------------------------------------------------
  // What each element of the result holds
  // ---------------------------------------------------------------------------

  /** The records of `genes` whose display key is `k`, in arrival order. */
  function WithKey<T>(genes: seq<T>, k: string, key: T -> string): seq<T>
    decreases |genes|
  {
    if genes == [] then []
    else WithKey(genes[..|genes| - 1], k, key) + (if key(genes[|genes| - 1]) == k then [genes[|genes| - 1]] else [])
  }

  /** The first record after every later one has been merged into it, in order. */
  function MergeAll<T>(records: seq<T>, mergeInto: (T, T) -> T): T
    requires records != []
    decreases |records|
  {
    if |records| == 1 then records[0]
    else mergeInto(MergeAll(records[..|records| - 1], mergeInto), records[|records| - 1])
  }

  /** Some record has key `k` exactly when `k` is one of the records' keys. */
  lemma {:induction false} WithKeyNonEmpty<T>(genes: seq<T>, k: string, key: T -> string)
    ensures WithKey(genes, k, key) != [] <==> k in KeySet(genes, key)
    decreases |genes|
  {
    if genes != [] {
      var init, last := genes[..|genes| - 1], genes[|genes| - 1];
      WithKeyNonEmpty(init, k, key);
      assert Keys(genes, key) == Keys(init, key) + [key(last)];
    }
  }

  /** One more record adds itself to its own key's records and leaves every other key's records as they were. */
  lemma WithKeySnoc<T>(init: seq<T>, g: T, k: string, key: T -> string)
    ensures WithKey(init + [g], k, key) == WithKey(init, k, key) + (if key(g) == k then [g] else [])
  {
    assert (init + [g])[..|init|] == init;
  }

  /** Merging one more record into the merge of a group. */
  lemma MergeAllSnoc<T>(records: seq<T>, g: T, mergeInto: (T, T) -> T)
    requires records != []
    ensures MergeAll(records + [g], mergeInto) == mergeInto(MergeAll(records, mergeInto), g)
  {
    assert (records + [g])[..|records|] == records;
  }

  /** `x` is the merge, in arrival order, of all the records of `genes` that have its key. */
  ghost predicate IsGroupOf<T>(x: T, genes: seq<T>, key: T -> string, mergeInto: (T, T) -> T) {
    WithKey(genes, key(x), key) != [] && x == MergeAll(WithKey(genes, key(x), key), mergeInto)
  }

  /** Every element of `r` is the merge of the records of `genes` with its key. */
  ghost predicate Grouped<T>(r: seq<T>, genes: seq<T>, key: T -> string, mergeInto: (T, T) -> T) {
    forall i :: 0 <= i < |r| ==> IsGroupOf(r[i], genes, key, mergeInto)
  }

  /**
   * Each element of the fold's result is the merge, in arrival order, of all
   * the records with its key, provided a merge keeps the receiver's key.
   */
  lemma {:induction false} InsertAllGroups<T(!new)>(genes: seq<T>, key: T -> string, mergeInto: (T, T) -> T)
    requires MergeKeepsKey(key, mergeInto)
    ensures Grouped(InsertAll([], genes, key, mergeInto), genes, key, mergeInto)
    decreases |genes|
  {
    if genes != [] {
      var init, g := genes[..|genes| - 1], genes[|genes| - 1];
      assert genes == init + [g];
      InsertAllGroups(init, key, mergeInto);
      var r0 := InsertAll([], init, key, mergeInto);
      assert Keys([], key) == [];
      InsertAllSorted([], init, key, mergeInto);
      InsertAllKeySet([], init, key, mergeInto);
      if exists p :: 0 <= p < |r0| && key(r0[p]) == key(g) {
        var p :| 0 <= p < |r0| && key(r0[p]) == key(g);
        GroupsAfterMerge(init, g, r0, p, key, mergeInto);
      } else {
        GroupsAfterSplice(init, g, r0, key, mergeInto);
      }
    }
  }

  /** The step of `InsertAllGroups` where the record is merged into the element with its key. */
  lemma GroupsAfterMerge<T(!new)>(init: seq<T>, g: T, r0: seq<T>, p: nat, key: T -> string, mergeInto: (T, T) -> T)
    requires MergeKeepsKey(key, mergeInto) && Sorted(r0, key) && Grouped(r0, init, key, mergeInto)
    requires p < |r0| && key(r0[p]) == key(g)
    ensures Grouped(Insert(r0, g, key, mergeInto), init + [g], key, mergeInto)
  {
    InsertWhenPresent(r0, g, key, mergeInto, p);
    var r := Insert(r0, g, key, mergeInto);
    forall i | 0 <= i < |r| ensures IsGroupOf(r[i], init + [g], key, mergeInto) {
      WithKeySnoc(init, g, key(r[i]), key);
      assert IsGroupOf(r0[i], init, key, mergeInto);
      if i == p {
        assert r[p] == mergeInto(r0[p], g);
        assert key(r[p]) == key(g);
        var w := WithKey(init, key(g), key);
        assert w != [] && r0[p] == MergeAll(w, mergeInto);
        MergeAllSnoc(w, g, mergeInto);
        assert WithKey(init + [g], key(r[i]), key) == w + [g];
      } else {
        assert r[i] == r0[i];
        assert Keys(r0, key)[i] == key(r0[i]) && Keys(r0, key)[p] == key(r0[p]);
        if i < p {
          assert Less(key(r0[i]), key(r0[p]));
        } else {
          assert Less(key(r0[p]), key(r0[i]));
        }
        assert WithKey(init + [g], key(r[i]), key) == WithKey(init, key(r0[i]), key);
      }
    }
  }

  /** The step of `InsertAllGroups` where the record's key is new and the record is spliced in. */
  lemma GroupsAfterSplice<T(!new)>(init: seq<T>, g: T, r0: seq<T>, key: T -> string, mergeInto: (T, T) -> T)
    requires KeySet(r0, key) == KeySet(init, key) && Grouped(r0, init, key, mergeInto)
    requires forall j :: 0 <= j < |r0| ==> key(r0[j]) != key(g)
    ensures Grouped(Insert(r0, g, key, mergeInto), init + [g], key, mergeInto)
  {
    InsertWhenAbsent(r0, g, key, mergeInto);
    var p :| 0 <= p <= |r0| && Insert(r0, g, key, mergeInto) == r0[..p] + [g] + r0[p..];
    assert key(g) !in Keys(r0, key);
    WithKeyNonEmpty(init, key(g), key);
    GroupOfNewKey(init, g, key, mergeInto);
    GroupedAfterSplice(init, g, r0, p, key, mergeInto);
  }

  /** Splicing a group of its own into a grouping of the other keys gives a grouping. */
  lemma GroupedAfterSplice<T>(init: seq<T>, g: T, r0: seq<T>, p: nat, key: T -> string, mergeInto: (T, T) -> T)
    requires p <= |r0| && Grouped(r0, init, key, mergeInto) && IsGroupOf(g, init + [g], key, mergeInto)
    requires forall j :: 0 <= j < |r0| ==> key(r0[j]) != key(g)
    ensures Grouped(r0[..p] + [g] + r0[p..], init + [g], key, mergeInto)
  {
    var r := r0[..p] + [g] + r0[p..];
    forall i | 0 <= i < |r| ensures IsGroupOf(r[i], init + [g], key, mergeInto) {
      if i == p {
        assert r[i] == g;
      } else {
        var j := if i < p then i else i - 1;
        assert r[i] == r0[j];
        GroupOfOtherKey(init, g, r0[j], key, mergeInto);
      }
    }
  }

  /** A record whose key has not arrived before is a group of its own. */
  lemma GroupOfNewKey<T>(init: seq<T>, g: T, key: T -> string, mergeInto: (T, T) -> T)
    requires WithKey(init, key(g), key) == []
    ensures IsGroupOf(g, init + [g], key, mergeInto)
  {
    WithKeySnoc(init, g, key(g), key);
    assert WithKey(init + [g], key(g), key) == [g];
  }

  /** A group is unaffected by the arrival of a record with another key. */
  lemma GroupOfOtherKey<T>(init: seq<T>, g: T, x: T, key: T -> string, mergeInto: (T, T) -> T)
    requires IsGroupOf(x, init, key, mergeInto) && key(x) != key(g)
    ensures IsGroupOf(x, init + [g], key, mergeInto)
  {
    WithKeySnoc(init, g, key(x), key);
    assert WithKey(init + [g], key(x), key) == WithKey(init, key(x), key);
  }

  /**
   * Two inputs whose records of each key fold to the same merged value (and
   * that have the same keys) give the same result, merged values included.
   */
  lemma AggregateDeterminedByGroups<T(!new)>(a: seq<seq<T>>, b: seq<seq<T>>, key: T -> string, mergeInto: (T, T) -> T)
    requires MergeKeepsKey(key, mergeInto)
    requires forall k :: (WithKey(Flatten(a), k, key) == []) == (WithKey(Flatten(b), k, key) == [])
    requires forall k :: WithKey(Flatten(a), k, key) != [] ==>
               MergeAll(WithKey(Flatten(a), k, key), mergeInto) == MergeAll(WithKey(Flatten(b), k, key), mergeInto)
    ensures Aggregate(a, key, mergeInto) == Aggregate(b, key, mergeInto)
  {
    var fa, fb := Flatten(a), Flatten(b);
    forall k ensures k in KeySet(fa, key) <==> k in KeySet(fb, key) {
      WithKeyNonEmpty(fa, k, key);
      WithKeyNonEmpty(fb, k, key);
    }
    assert KeySet(fa, key) == KeySet(fb, key);
    AggregateKeysOrderIndependent(a, b, key, mergeInto);
    var ra, rb := Aggregate(a, key, mergeInto), Aggregate(b, key, mergeInto);
    InsertAllGroups(fa, key, mergeInto);
    InsertAllGroups(fb, key, mergeInto);
    assert |Keys(ra, key)| == |Keys(rb, key)|;
    forall i | 0 <= i < |ra| ensures ra[i] == rb[i] {
      assert Keys(ra, key)[i] == key(ra[i]) && Keys(rb, key)[i] == key(rb[i]);
      assert IsGroupOf(ra[i], fa, key, mergeInto) && IsGroupOf(rb[i], fb, key, mergeInto);
    }
  }

  /**
   * The result depends only on the order in which the records of each key
   * arrive: reordering providers, or records within an answer, so that no
   * two records with the same key swap places leaves the result unchanged.
   */
  lemma AggregateDependsOnlyOnPerKeyOrder<T(!new)>(a: seq<seq<T>>, b: seq<seq<T>>, key: T -> string, mergeInto: (T, T) -> T)
    requires MergeKeepsKey(key, mergeInto)
    requires forall k :: WithKey(Flatten(a), k, key) == WithKey(Flatten(b), k, key)
    ensures Aggregate(a, key, mergeInto) == Aggregate(b, key, mergeInto)
  {
    AggregateDeterminedByGroups(a, b, key, mergeInto);
  }

  lemma ElementsSnoc(ks: seq<string>, k: string)
    ensures Elements(ks + [k]) == Elements(ks) + {k}
  {
  }

  lemma ElementsEmpty(ks: seq<string>)
    ensures Elements(ks) == {} <==> ks == []
  {
    if ks != [] {
      assert ks[0] in Elements(ks);
    }
  }

  /** A strictly increasing key sequence is determined by its set of keys. */
  lemma {:induction false} IncreasingUnique(s: seq<string>, t: seq<string>)
    requires Increasing(s) && Increasing(t) && Elements(s) == Elements(t)
    ensures s == t
    decreases |s|
  {
    if s == [] {
      ElementsEmpty(t);
    } else {
      assert s[0] in Elements(t) && t != [];
      assert t[0] in Elements(s);
      var i :| 0 <= i < |s| && s[i] == t[0];
      var j :| 0 <= j < |t| && t[j] == s[0];
      if j > 0 {
        assert Less(t[0], t[j]);
        if i > 0 {
          LessAsymmetric(s[0], s[i]);
        }
      }
      assert s[0] == t[0];
      forall k | 0 < k < |s| ensures s[k] != s[0] {
        LessIrreflexive(s[0]);
      }
      forall k | 0 < k < |t| ensures t[k] != t[0] {
        LessIrreflexive(t[0]);
      }
      assert s == [s[0]] + s[1..] && t == [t[0]] + t[1..];
      assert Elements(s[1..]) == Elements(s) - {s[0]};
      assert Elements(t[1..]) == Elements(t) - {t[0]};
      IncreasingUnique(s[1..], t[1..]);
    }
  }

  /**
   * The order in which providers answer, and the order of records within an
   * answer, do not affect the result's key sequence: any two inputs with the
   * same keys give the same sorted keys.
   */
  lemma AggregateKeysOrderIndependent<T(!new)>(a: seq<seq<T>>, b: seq<seq<T>>, key: T -> string, mergeInto: (T, T) -> T)
    requires MergeKeepsKey(key, mergeInto)
    requires KeySet(Flatten(a), key) == KeySet(Flatten(b), key)
    ensures Keys(Aggregate(a, key, mergeInto), key) == Keys(Aggregate(b, key, mergeInto), key)
  {
    AggregateSortedAndComplete(a, key, mergeInto);
    AggregateSortedAndComplete(b, key, mergeInto);
    IncreasingUnique(Keys(Aggregate(a, key, mergeInto), key), Keys(Aggregate(b, key, mergeInto), key));
  }

  /** With no providers, or only empty answers, the result is the empty list. */
  lemma {:induction false} AggregateOfEmptyAnswers<T>(arrays: seq<seq<T>>, key: T -> string, mergeInto: (T, T) -> T)
    requires forall i :: 0 <= i < |arrays| ==> arrays[i] == []
    ensures Aggregate(arrays, key, mergeInto) == []
    decreases |arrays|
  {
    if arrays != [] {
      AggregateOfEmptyAnswers(arrays[..|arrays| - 1], key, mergeInto);
    }
  }
}
