/**
 * The ordered insertion merge applied to variants: the display key is
 * `optionName`, and the variant `merge` stands in for `mergeWith`, which the
 * fold calls but the variant class does not define. The fold compares
 * display keys only; it never consults the identity test `mergeable`, so the
 * two can disagree in both directions.
 */
module VariantSearch {
  import opened DataMerging
  import opened Text
  import opened GenomicData
  import opened RobustGeneSearch

  /** The key the fold compares: `optionName`. */
  function VariantKey(v: VariantValue): string {
    v.OptionName()
  }

  /** The fold's merge: the receiver's value after it has merged the incoming record. */
  function VariantMerge(receiver: VariantValue, incoming: VariantValue): VariantValue {
    receiver.Merged(incoming)
  }

  /**
   * A variant whose origin has no usable symbol matches nothing, not even a
   * copy of itself; yet two providers returning that variant give a single,
   * merged element.
   */
  lemma FoldCoalescesUnmatchableCopies(a: VariantValue)
    requires !HasSymbol(a.origin.hugoSymbol)
    ensures !a.Mergeable(a)
    ensures Aggregate([[a], [a]], VariantKey, VariantMerge) == [a.Merged(a)]
  {
    AggregateOfTwo(a, a, VariantKey, VariantMerge);
  }

  /**
   * Two variants can match under `mergeable` (same HGVS ID, same origin
   * symbol) and still be kept as two elements, because their variant names
   * and so their display keys differ.
   */
  lemma FoldKeepsMatchingVariantsApart()
    ensures exists a: VariantValue, b: VariantValue ::
              a.Mergeable(b) && |Aggregate([[a], [b]], VariantKey, VariantMerge)| == 2
  {
    var tp53 := GeneValue(Some("TP53"), Some(7157), None, None, None);
    var a := VariantValue(tp53, Some("R175H"), Some("NM_000546.5:c.524G>A"), Some(0),
                          None, None, None, None, None, None, None, None);
    var b := a.(variantName := Some("R175HX"));
    assert a.Mergeable(b);
    assert ShowString(a.variantName) == "R175H" && ShowString(b.variantName) == "R175HX";
    assert |VariantKey(a)| + 1 == |VariantKey(b)|;
    AggregateOfTwo(a, b, VariantKey, VariantMerge);
    assert |Aggregate([[a], [b]], VariantKey, VariantMerge)| == 2;
  }

  // Three variants of the gene "s" (Entrez ID 1) whose fold ends out of order.
  const unsortedFirst := VariantValue(GeneValue(Some("s"), Some(1), None, None, None), None, Some("5 x"), Some(0),
                                      None, None, None, None, None, None, None, None)
  const unsortedSecond := unsortedFirst.(hgvsID := Some("undefined x"))
  const unsortedThird := unsortedSecond.(origin := unsortedSecond.origin.(entrezID := None),
                                         variantName := Some("undefined 1"), hgvsID := Some("x"))

  /** The display key as the four rendered fields joined by single spaces. */
  lemma KeyText(v: VariantValue)
    ensures VariantKey(v) == ShowString(v.origin.hugoSymbol) + " " + ShowString(v.variantName) + " "
                             + ShowInt(v.origin.entrezID) + " " + ShowString(v.hgvsID)
  {
  }

  /** The display key's text before the HGVS ID, for each of the three witness shapes. */
  lemma UnnamedPrefix()
    ensures "s" + " " + "undefined" + " " + "1" + " " == "s undefined 1 "
  {
  }

  lemma NamedWithoutEntrezPrefix()
    ensures "s" + " " + "undefined 1" + " " + "undefined" + " " == "s undefined 1 " + "undefined "
  {
  }

  lemma NamedPrefix()
    ensures "s" + " " + "undefined 1" + " " + "1" + " " == "s undefined 1 " + "1 "
  {
  }

  /** The display key of a variant of "s" with Entrez ID 1 and no variant name. */
  lemma UnnamedKey(v: VariantValue)
    requires v.origin.hugoSymbol == Some("s") && v.origin.entrezID == Some(1)
    requires v.variantName == None && v.hgvsID.Some?
    ensures VariantKey(v) == "s undefined 1 " + v.hgvsID.value
  {
    KeyText(v);
    assert ShowInt(Some(1)) == "1";
    assert ShowString(v.origin.hugoSymbol) == "s" && ShowString(v.variantName) == "undefined";
    assert ShowString(v.hgvsID) == v.hgvsID.value;
    UnnamedPrefix();
  }

  /** The display key of a variant of "s" without an Entrez ID, named "undefined 1". */
  lemma NamedKeyWithoutEntrez(v: VariantValue)
    requires v.origin.hugoSymbol == Some("s") && v.origin.entrezID == None
    requires v.variantName == Some("undefined 1") && v.hgvsID.Some?
    ensures VariantKey(v) == "s undefined 1 " + "undefined " + v.hgvsID.value
  {
    KeyText(v);
    assert ShowInt(None) == "undefined";
    assert ShowString(v.origin.hugoSymbol) == "s" && ShowString(v.variantName) == "undefined 1";
    assert ShowString(v.hgvsID) == v.hgvsID.value;
    NamedWithoutEntrezPrefix();
  }

  /** The display key of the third variant. */
  lemma ThirdKey()
    ensures VariantKey(unsortedThird) == "s undefined 1 " + "undefined x"
  {
    var o := unsortedThird;
    assert o.origin.hugoSymbol == Some("s") && o.origin.entrezID == None;
    assert o.variantName == Some("undefined 1") && o.hgvsID == Some("x");
    NamedKeyWithoutEntrez(o);
    assert "s undefined 1 " + "undefined " + "x" == "s undefined 1 " + "undefined x";
  }

  /** The display key of a variant of "s" with Entrez ID 1 named "undefined 1". */
  lemma NamedKey(v: VariantValue)
    requires v.origin.hugoSymbol == Some("s") && v.origin.entrezID == Some(1)
    requires v.variantName == Some("undefined 1") && v.hgvsID.Some?
    ensures VariantKey(v) == "s undefined 1 " + "1 " + v.hgvsID.value
  {
    KeyText(v);
    assert ShowInt(Some(1)) == "1";
    assert ShowString(v.origin.hugoSymbol) == "s" && ShowString(v.variantName) == "undefined 1";
    assert ShowString(v.hgvsID) == v.hgvsID.value;
    NamedPrefix();
  }

  /** The display key of the second variant after the third has been merged into it. */
  lemma MergedKey()
    ensures VariantKey(unsortedSecond.Merged(unsortedThird)) == "s undefined 1 " + "1 undefined x"
  {
    var m := unsortedSecond.Merged(unsortedThird);
    assert m.origin.hugoSymbol == Some("s") && m.origin.entrezID == Some(1);
    assert m.variantName == Some("undefined 1") && m.hgvsID == Some("undefined x");
    NamedKey(m);
    assert "s undefined 1 " + "1 " + "undefined x" == "s undefined 1 " + "1 undefined x";
  }

  /**
   * Because a merge can change the receiver's display key, three providers'
   * answers can leave the result out of order: the first variant sorts
   * before the second, the third has the second's key and is merged into it,
   * and the merged variant's key sorts before the first's.
   */
  lemma FoldCanEndUnsorted()
    ensures exists w: VariantValue, v: VariantValue, o: VariantValue ::
              Aggregate([[w], [v], [o]], VariantKey, VariantMerge) == [w, v.Merged(o)]
              && !Sorted(Aggregate([[w], [v], [o]], VariantKey, VariantMerge), VariantKey)
  {
    var w, v, o := unsortedFirst, unsortedSecond, unsortedThird;
    UnnamedKey(w);
    UnnamedKey(v);
    ThirdKey();
    MergedKey();
    UnsortedFromKeys(w, v, o, VariantKey, VariantMerge, "s undefined 1 ");
  }

  /** The fold of `FoldCanEndUnsorted`, from the keys alone. */
  lemma UnsortedFromKeys<T>(w: T, v: T, o: T, key: T -> string, mergeInto: (T, T) -> T, prefix: string)
    requires key(w) == prefix + "5 x" && key(v) == prefix + "undefined x"
    requires key(o) == key(v) && key(mergeInto(v, o)) == prefix + "1 undefined x"
    ensures Aggregate([[w], [v], [o]], key, mergeInto) == [w, mergeInto(v, o)]
    ensures !Sorted(Aggregate([[w], [v], [o]], key, mergeInto), key)
  {
    LessCommonPrefix(prefix, "5 x", "undefined x");
    LessCommonPrefix(prefix, "1 undefined x", "5 x");
    LessAsymmetric(key(mergeInto(v, o)), key(w));
    AggregateMergeIntoSecond(w, v, o, key, mergeInto);
  }

  // ---------------------------------------------------------------------------
  // Variants whose display keys are fully defined
  // ---------------------------------------------------------------------------

  /** Variants whose origin symbol, variant name, origin Entrez ID and HGVS ID are all defined. */
  type KeyedVariant = v: VariantValue | KeyFieldsDefined(v)
    witness VariantValue(GeneValue(Some("TP53"), Some(7157), None, None, None), Some("R175H"),
                         Some("NM_000546.5:c.524G>A"), Some(0), None, None, None, None, None, None, None, None)

  function KeyedKey(v: KeyedVariant): string {
    v.OptionName()
  }

  /** A merge never makes a defined field undefined, so merged keyed variants stay keyed. */
  function KeyedMerge(receiver: KeyedVariant, incoming: KeyedVariant): KeyedVariant {
    receiver.Merged(incoming)
  }

  /** Among keyed variants the fold's merge keeps the receiver's key. */
  lemma KeyedMergeKeepsKey()
    ensures MergeKeepsKey(KeyedKey, KeyedMerge)
  {
    forall receiver: KeyedVariant, incoming: KeyedVariant
      ensures KeyedKey(KeyedMerge(receiver, incoming)) == KeyedKey(receiver)
    {
      MergeKeepsDefinedOptionName(receiver, incoming);
    }
  }

  /**
   * Folding keyed variants from any providers gives a list strictly sorted by
   * display key, one element per key, whose keys are exactly those of all the
   * variants returned.
   */
  lemma KeyedFoldSortedAndComplete(arrays: seq<seq<KeyedVariant>>)
    ensures Sorted(Aggregate(arrays, KeyedKey, KeyedMerge), KeyedKey)
    ensures KeySet(Aggregate(arrays, KeyedKey, KeyedMerge), KeyedKey) == KeySet(Flatten(arrays), KeyedKey)
  {
    KeyedMergeKeepsKey();
    AggregateSortedAndComplete(arrays, KeyedKey, KeyedMerge);
  }

  /** For keyed variants the order in which providers answer does not change the result's key sequence. */
  lemma KeyedFoldKeysOrderIndependent(a: seq<seq<KeyedVariant>>, b: seq<seq<KeyedVariant>>)
    requires KeySet(Flatten(a), KeyedKey) == KeySet(Flatten(b), KeyedKey)
    ensures Keys(Aggregate(a, KeyedKey, KeyedMerge), KeyedKey) == Keys(Aggregate(b, KeyedKey, KeyedMerge), KeyedKey)
  {
    KeyedMergeKeepsKey();
    AggregateKeysOrderIndependent(a, b, KeyedKey, KeyedMerge);
  }

  /** Each element of the folded keyed variants is the merge, in arrival order, of all the variants with its key. */
  lemma KeyedFoldElementsAreMergedGroups(arrays: seq<seq<KeyedVariant>>)
    ensures Grouped(Aggregate(arrays, KeyedKey, KeyedMerge), Flatten(arrays), KeyedKey, KeyedMerge)
  {
    KeyedMergeKeepsKey();
    InsertAllGroups(Flatten(arrays), KeyedKey, KeyedMerge);
  }

  /**
   * For keyed variants the whole result, merged field values included, does
   * not depend on the order of the answers as long as the variants of each
   * key arrive in the same order.
   */
  lemma KeyedFoldDependsOnlyOnPerKeyOrder(a: seq<seq<KeyedVariant>>, b: seq<seq<KeyedVariant>>)
    requires forall k :: WithKey(Flatten(a), k, KeyedKey) == WithKey(Flatten(b), k, KeyedKey)
    ensures Aggregate(a, KeyedKey, KeyedMerge) == Aggregate(b, KeyedKey, KeyedMerge)
  {
    KeyedMergeKeepsKey();
    AggregateDependsOnlyOnPerKeyOrder(a, b, KeyedKey, KeyedMerge);
  }

  /**
   * Two providers each returning one variant: when the two variants do not
   * conflict, the result is the same whichever provider answers first.
   */
  lemma TwoAnswersCommuteWithoutConflict(x: VariantValue, y: VariantValue)
    requires x.origin.hugoSymbol == y.origin.hugoSymbol
    requires Compatible(x.origin.entrezID, y.origin.entrezID) && Compatible(x.origin.name, y.origin.name)
    requires Compatible(x.origin.description, y.origin.description)
    requires Compatible(x.origin.proteinCoding, y.origin.proteinCoding)
    requires Compatible(x.variantName, y.variantName) && Compatible(x.hgvsID, y.hgvsID)
    requires Compatible(x.score, y.score) && Compatible(x.description, y.description)
    requires Compatible(x.somatic, y.somatic) && Compatible(x.types, y.types) && Compatible(x.drugs, y.drugs)
    requires Compatible(x.chromosome, y.chromosome) && Compatible(x.start, y.start) && Compatible(x.end, y.end)
    ensures Aggregate([[x], [y]], VariantKey, VariantMerge) == Aggregate([[y], [x]], VariantKey, VariantMerge)
  {
    AggregateOfTwo(x, y, VariantKey, VariantMerge);
    AggregateOfTwo(y, x, VariantKey, VariantMerge);
    VariantMergeCommutesWithoutConflict(x, y);
    if VariantKey(x) != VariantKey(y) {
      LessTotal(VariantKey(x), VariantKey(y));
      if Less(VariantKey(x), VariantKey(y)) {
        LessAsymmetric(VariantKey(x), VariantKey(y));
      }
    }
  }
}
