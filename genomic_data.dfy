/**
 * Genes and gene variants, each in a reference form (only what identity
 * needs) and a full form. A record's fields are read by the pure operations
 * on its value (identity test, display key, location text, upgrade from the
 * reference form); the in-place merge is a method of the record's class.
 */
module GenomicData {
  import opened DataMerging
  import opened Text

  /** A gene symbol that can take part in identity: defined and not the empty string. */
  predicate HasSymbol(symbol: Option<string>) {
    symbol.Some? && symbol.value != ""
  }

  /**
   * The identity test shared by both gene forms: a receiver without a usable
   * symbol matches nothing; otherwise the symbols must be strictly equal.
   */
  function SymbolsMatch(mine: Option<string>, theirs: Option<string>): (r: bool)
    ensures r <==> HasSymbol(mine) && HasSymbol(theirs) && mine == theirs
  {
    if mine.None? || mine.value == "" then false else mine == theirs
  }

  /** The precedence rule, field by field: a defined field is kept, an undefined one takes the other's value. */
  ghost predicate Precedence<T>(mine: Option<T>, theirs: Option<T>, merged: Option<T>) {
    Below(mine, merged) && (mine.None? ==> merged == theirs)
  }

  /**
   * The display key of a variant in either form: origin symbol, variant name,
   * origin Entrez ID and HGVS ID joined by single spaces, each as
   * concatenation renders it.
   */
  function DisplayKey(symbol: Option<string>, variantName: Option<string>, entrezID: Option<int>, hgvsID: Option<string>): (r: string)
    ensures ShowString(symbol) + " " <= r
    ensures |r| == |ShowString(symbol)| + |ShowString(variantName)| + |ShowInt(entrezID)| + |ShowString(hgvsID)| + 3
    ensures var a := |ShowString(symbol)| + 1;
            r[a..a + |ShowString(variantName)|] == ShowString(variantName) && r[a + |ShowString(variantName)|] == ' '
    ensures var b := |ShowString(symbol)| + |ShowString(variantName)| + 2;
            r[b..b + |ShowInt(entrezID)|] == ShowInt(entrezID) && r[b + |ShowInt(entrezID)|] == ' '
    ensures r[|r| - |ShowString(hgvsID)| - 1..] == " " + ShowString(hgvsID)
  {
    SpaceJoinedLayout(ShowString(symbol), ShowString(variantName), ShowInt(entrezID), ShowString(hgvsID));
    ShowString(symbol) + " " + ShowString(variantName) + " " + ShowInt(entrezID) + " " + ShowString(hgvsID)
  }

  /** Where each of four texts sits once they are joined by single spaces. */
  lemma SpaceJoinedLayout(S: string, V: string, E: string, H: string)
    ensures var r := S + " " + V + " " + E + " " + H;
            && |r| == |S| + |V| + |E| + |H| + 3
            && r[..|S| + 1] == S + " "
            && r[|S| + 1..|S| + 1 + |V|] == V && r[|S| + 1 + |V|] == ' '
            && r[|S| + |V| + 2..|S| + |V| + 2 + |E|] == E && r[|S| + |V| + 2 + |E|] == ' '
            && r[|r| - |H| - 1..] == " " + H
  {
    var r := S + " " + V + " " + E + " " + H;
    assert r == (S + " ") + (V + " ") + (E + " ") + H;
    assert r[|S| + 1..] == V + " " + E + " " + H;
    assert r[|S| + |V| + 2..] == E + " " + H;
  }

  /** Where the start and end positions sit in the two forms of the location text. */
  lemma LocationLayout(C: string, St: string, En: string)
    ensures var r := C + ", " + ("Nucleotides " + St + " to " + En);
            && |r| == |C| + 14 + |St| + 4 + |En|
            && r[..|C| + 14] == C + ", Nucleotides "
            && r[|C| + 14..|C| + 14 + |St|] == St
            && r[|C| + 14 + |St|..|C| + 18 + |St|] == " to "
            && r[|r| - |En|..] == En
    ensures var r := C + ", " + ("Nucleotide " + St);
            && |r| == |C| + 13 + |St|
            && r[..|C| + 13] == C + ", Nucleotide "
            && r[|C| + 13..] == St
  {
    var r := C + ", " + ("Nucleotides " + St + " to " + En);
    assert r == (C + ", Nucleotides ") + (St + " to " + En);
    assert r[|C| + 14..] == St + " to " + En;
    var q := C + ", " + ("Nucleotide " + St);
    assert q == (C + ", Nucleotide ") + St;
  }

  // ---------------------------------------------------------------------------
  // Values of the four record types
  // ---------------------------------------------------------------------------

  /** A gene in reference form. */
  datatype GeneRefValue = GeneRefValue(hugoSymbol: Option<string>, entrezID: Option<int>)
  {
    function Mergeable(other: GeneRefValue): (r: bool)
      ensures r <==> HasSymbol(hugoSymbol) && hugoSymbol == other.hugoSymbol
      ensures r ==> HasSymbol(other.hugoSymbol)
    {
      SymbolsMatch(hugoSymbol, other.hugoSymbol)
    }

    /** The value after `merge(other)`: only the Entrez ID can change, and only when undefined. */
    function Merged(other: GeneRefValue): (r: GeneRefValue)
      ensures r.hugoSymbol == hugoSymbol
      ensures Precedence(entrezID, other.entrezID, r.entrezID)
    {
      this.(entrezID := Reconcile(entrezID, other.entrezID))
    }
  }

  /** A gene in full form. */
  datatype GeneValue = GeneValue(
    hugoSymbol: Option<string>,
    entrezID: Option<int>,
    name: Option<string>,
    description: Option<string>,
    proteinCoding: Option<string>)
  {
    function Mergeable(other: GeneValue): (r: bool)
      ensures r <==> HasSymbol(hugoSymbol) && hugoSymbol == other.hugoSymbol
      ensures r ==> HasSymbol(other.hugoSymbol)
    {
      SymbolsMatch(hugoSymbol, other.hugoSymbol)
    }

    /** The value after `merge(other)`: the symbol stays; every other field follows the precedence rule. */
    function Merged(other: GeneValue): (r: GeneValue)
      ensures r.hugoSymbol == hugoSymbol
      ensures Precedence(entrezID, other.entrezID, r.entrezID)
      ensures Precedence(name, other.name, r.name)
      ensures Precedence(description, other.description, r.description)
      ensures Precedence(proteinCoding, other.proteinCoding, r.proteinCoding)
    {
      this.(entrezID := Reconcile(entrezID, other.entrezID),
            name := Reconcile(name, other.name),
            description := Reconcile(description, other.description),
            proteinCoding := Reconcile(proteinCoding, other.proteinCoding))
    }

    /** Upgrade of a reference: symbol and Entrez ID copied, the extended fields undefined. */
    static function FromReference(reference: GeneRefValue): (g: GeneValue)
      ensures g.hugoSymbol == reference.hugoSymbol && g.entrezID == reference.entrezID
      ensures g.name.None? && g.description.None? && g.proteinCoding.None?
    {
      GeneValue(reference.hugoSymbol, reference.entrezID, None, None, None)
    }
  }

  /** A variant in reference form. */
  datatype VariantRefValue = VariantRefValue(origin: GeneRefValue, variantName: Option<string>, hgvsID: Option<string>)
  {
    /**
     * The display key: the origin's symbol, the variant name, the origin's
     * Entrez ID and the HGVS ID, each where the single-space separators put it.
     */
    function OptionName(): (r: string)
      ensures ShowString(origin.hugoSymbol) + " " <= r
      ensures |r| == |ShowString(origin.hugoSymbol)| + |ShowString(variantName)| + |ShowInt(origin.entrezID)| + |ShowString(hgvsID)| + 3
      ensures var a := |ShowString(origin.hugoSymbol)| + 1;
              r[a..a + |ShowString(variantName)|] == ShowString(variantName) && r[a + |ShowString(variantName)|] == ' '
      ensures var b := |ShowString(origin.hugoSymbol)| + |ShowString(variantName)| + 2;
              r[b..b + |ShowInt(origin.entrezID)|] == ShowInt(origin.entrezID) && r[b + |ShowInt(origin.entrezID)|] == ' '
      ensures r[|r| - |ShowString(hgvsID)| - 1..] == " " + ShowString(hgvsID)
    {
      DisplayKey(origin.hugoSymbol, variantName, origin.entrezID, hgvsID)
    }

    function Mergeable(other: VariantRefValue): (r: bool)
      ensures r <==> hgvsID == other.hgvsID && HasSymbol(origin.hugoSymbol) && origin.hugoSymbol == other.origin.hugoSymbol
    {
      hgvsID == other.hgvsID && origin.Mergeable(other.origin)
    }

    /** The value after `merge(other)`: the origin's Entrez ID and the variant name are the only fields that can change. */
    function Merged(other: VariantRefValue): (r: VariantRefValue)
      ensures r.hgvsID == hgvsID && r.origin.hugoSymbol == origin.hugoSymbol
      ensures Precedence(origin.entrezID, other.origin.entrezID, r.origin.entrezID)
      ensures Precedence(variantName, other.variantName, r.variantName)
    {
      this.(origin := origin.Merged(other.origin), variantName := Reconcile(variantName, other.variantName))
    }
  }

  /** A variant in full form. */
  datatype VariantValue = VariantValue(
    origin: GeneValue,
    variantName: Option<string>,
    hgvsID: Option<string>,
    score: Option<int>,
    description: Option<string>,
    somatic: Option<bool>,
    types: Option<seq<string>>,
    drugs: Option<seq<string>>,
    diseases: Option<seq<string>>,
    chromosome: Option<string>,
    start: Option<int>,
    end: Option<int>)
  {
    /**
     * The display key: the origin's symbol, the variant name, the origin's
     * Entrez ID and the HGVS ID, each where the single-space separators put it.
     */
    function OptionName(): (r: string)
      ensures ShowString(origin.hugoSymbol) + " " <= r
      ensures |r| == |ShowString(origin.hugoSymbol)| + |ShowString(variantName)| + |ShowInt(origin.entrezID)| + |ShowString(hgvsID)| + 3
      ensures var a := |ShowString(origin.hugoSymbol)| + 1;
              r[a..a + |ShowString(variantName)|] == ShowString(variantName) && r[a + |ShowString(variantName)|] == ' '
      ensures var b := |ShowString(origin.hugoSymbol)| + |ShowString(variantName)| + 2;
              r[b..b + |ShowInt(origin.entrezID)|] == ShowInt(origin.entrezID) && r[b + |ShowInt(origin.entrezID)|] == ' '
      ensures r[|r| - |ShowString(hgvsID)| - 1..] == " " + ShowString(hgvsID)
    {
      DisplayKey(origin.hugoSymbol, variantName, origin.entrezID, hgvsID)
    }

    /**
     * The location text: the chromosome and ", ", then "Nucleotide " and the
     * start position when start and end are equal, and otherwise
     * "Nucleotides ", the start position, " to " and the end position.
     */
    function GetLocation(): (r: string)
      ensures var c := |ShowString(chromosome)|;
              start != end ==> |r| == c + 18 + |ShowInt(start)| + |ShowInt(end)|
                               && r[..c + 14] == ShowString(chromosome) + ", Nucleotides "
                               && r[c + 14..c + 14 + |ShowInt(start)|] == ShowInt(start)
                               && r[c + 14 + |ShowInt(start)|..c + 18 + |ShowInt(start)|] == " to "
                               && r[|r| - |ShowInt(end)|..] == ShowInt(end)
      ensures var c := |ShowString(chromosome)|;
              start == end ==> |r| == c + 13 + |ShowInt(start)|
                               && r[..c + 13] == ShowString(chromosome) + ", Nucleotide "
                               && r[c + 13..] == ShowInt(start) == ShowInt(end)
    {
      var chrom, first, last := ShowString(chromosome), ShowInt(start), ShowInt(end);
      LocationLayout(chrom, first, last);
      if start != end then chrom + ", " + ("Nucleotides " + first + " to " + last)
      else chrom + ", " + ("Nucleotide " + first)
    }

    function Mergeable(other: VariantValue): (r: bool)
      ensures r <==> hgvsID == other.hgvsID && HasSymbol(origin.hugoSymbol) && origin.hugoSymbol == other.origin.hugoSymbol
    {
      hgvsID == other.hgvsID && origin.Mergeable(other.origin)
    }

    /**
     * The value after `merge(other)` as the code does it: the origin gene is
     * merged, every field follows the precedence rule, except `diseases`,
     * which is assigned from the drug lists after `drugs` has been merged.
     */
    function Merged(other: VariantValue): (r: VariantValue)
      ensures r.origin == origin.Merged(other.origin)
      ensures Precedence(variantName, other.variantName, r.variantName)
      ensures Precedence(hgvsID, other.hgvsID, r.hgvsID)
      ensures Precedence(score, other.score, r.score)
      ensures Precedence(description, other.description, r.description)
      ensures Precedence(somatic, other.somatic, r.somatic)
      ensures Precedence(types, other.types, r.types)
      ensures Precedence(drugs, other.drugs, r.drugs)
      ensures r.diseases == r.drugs
      ensures Precedence(chromosome, other.chromosome, r.chromosome)
      ensures Precedence(start, other.start, r.start)
      ensures Precedence(end, other.end, r.end)
    {
      var mergedDrugs := Reconcile(drugs, other.drugs);
      VariantValue(
        origin.Merged(other.origin),
        Reconcile(variantName, other.variantName),
        Reconcile(hgvsID, other.hgvsID),
        Reconcile(score, other.score),
        Reconcile(description, other.description),
        Reconcile(somatic, other.somatic),
        Reconcile(types, other.types),
        mergedDrugs,
        Reconcile(mergedDrugs, other.drugs),
        Reconcile(chromosome, other.chromosome),
        Reconcile(start, other.start),
        Reconcile(end, other.end))
    }

    /** The merge with `diseases` reconciled from the two disease lists, as the comment above the merge describes. */
    function MergedAsIntended(other: VariantValue): (r: VariantValue)
      ensures Precedence(diseases, other.diseases, r.diseases)
      ensures r == Merged(other).(diseases := r.diseases)
    {
      Merged(other).(diseases := Reconcile(diseases, other.diseases))
    }

    /** Upgrade of a reference: the origin upgraded, name and HGVS ID copied, score 0, everything else undefined. */
    static function FromReference(reference: VariantRefValue): (v: VariantValue)
      ensures v.origin == GeneValue.FromReference(reference.origin)
      ensures v.variantName == reference.variantName && v.hgvsID == reference.hgvsID
      ensures v.score == Some(0)
      ensures v.description.None? && v.somatic.None? && v.types.None? && v.drugs.None? && v.diseases.None?
      ensures v.chromosome.None? && v.start.None? && v.end.None?
    {
      VariantValue(GeneValue.FromReference(reference.origin), reference.variantName, reference.hgvsID,
                   Some(0), None, None, None, None, None, None, None, None)
    }
  }

  // ---------------------------------------------------------------------------
  // Identity
  // ---------------------------------------------------------------------------

  /** A gene reference matches itself exactly when its symbol is defined and non-empty. */
  lemma GeneRefSelfMergeable(g: GeneRefValue)
    ensures g.Mergeable(g) <==> HasSymbol(g.hugoSymbol)
  {
  }

  /** A gene matches itself exactly when its symbol is defined and non-empty. */
  lemma GeneSelfMergeable(g: GeneValue)
    ensures g.Mergeable(g) <==> HasSymbol(g.hugoSymbol)
  {
  }

  lemma GeneRefMergeableSymmetric(a: GeneRefValue, b: GeneRefValue)
    ensures a.Mergeable(b) == b.Mergeable(a)
  {
  }

  lemma GeneMergeableSymmetric(a: GeneValue, b: GeneValue)
    ensures a.Mergeable(b) == b.Mergeable(a)
  {
  }

  lemma GeneMergeableTransitive(a: GeneValue, b: GeneValue, c: GeneValue)
    requires a.Mergeable(b) && b.Mergeable(c)
    ensures a.Mergeable(c)
  {
  }

  lemma VariantRefMergeableSymmetric(a: VariantRefValue, b: VariantRefValue)
    ensures a.Mergeable(b) == b.Mergeable(a)
  {
  }

  lemma VariantMergeableSymmetric(a: VariantValue, b: VariantValue)
    ensures a.Mergeable(b) == b.Mergeable(a)
  {
  }

  lemma VariantMergeableTransitive(a: VariantValue, b: VariantValue, c: VariantValue)
    requires a.Mergeable(b) && b.Mergeable(c)
    ensures a.Mergeable(c)
  {
  }

  // ---------------------------------------------------------------------------
  // Merging
  // ---------------------------------------------------------------------------

  /** Merging a gene reference with a copy of itself changes nothing. */
  lemma GeneRefMergeSelf(g: GeneRefValue)
    ensures g.Merged(g) == g
  {
  }

  /** Merging a gene with a copy of itself changes nothing. */
  lemma GeneMergeSelf(g: GeneValue)
    ensures g.Merged(g) == g
  {
  }

  /** Merging the same gene in twice is the same as merging it once. */
  lemma GeneMergeIdempotent(a: GeneValue, b: GeneValue)
    ensures a.Merged(b).Merged(b) == a.Merged(b)
  {
  }

  /** A merge does not change what the receiver matches, on either side of the test. */
  lemma GeneMergeKeepsIdentity(a: GeneValue, b: GeneValue, c: GeneValue)
    ensures a.Merged(b).Mergeable(c) == a.Mergeable(c)
    ensures c.Mergeable(a.Merged(b)) == c.Mergeable(a)
  {
  }

  /** When no field is defined differently on the two sides, the order of a merge does not matter. */
  lemma GeneMergeCommutesWithoutConflict(a: GeneValue, b: GeneValue)
    requires a.hugoSymbol == b.hugoSymbol
    requires Compatible(a.entrezID, b.entrezID) && Compatible(a.name, b.name)
    requires Compatible(a.description, b.description) && Compatible(a.proteinCoding, b.proteinCoding)
    ensures a.Merged(b) == b.Merged(a)
  {
  }

  /**
   * When the origin genes agree on the symbol and no field is defined
   * differently on the two sides, the order of a variant merge does not
   * matter. The disease lists need not agree: either way `diseases` ends up
   * as the merged drug list.
   */
  lemma VariantMergeCommutesWithoutConflict(a: VariantValue, b: VariantValue)
    requires a.origin.hugoSymbol == b.origin.hugoSymbol
    requires Compatible(a.origin.entrezID, b.origin.entrezID) && Compatible(a.origin.name, b.origin.name)
    requires Compatible(a.origin.description, b.origin.description)
    requires Compatible(a.origin.proteinCoding, b.origin.proteinCoding)
    requires Compatible(a.variantName, b.variantName) && Compatible(a.hgvsID, b.hgvsID)
    requires Compatible(a.score, b.score) && Compatible(a.description, b.description)
    requires Compatible(a.somatic, b.somatic) && Compatible(a.types, b.types) && Compatible(a.drugs, b.drugs)
    requires Compatible(a.chromosome, b.chromosome) && Compatible(a.start, b.start) && Compatible(a.end, b.end)
    ensures a.Merged(b) == b.Merged(a)
  {
  }

  /** Two partial records of TP53, one with its Entrez ID and one with its name, merge into one with both. */
  lemma GeneMergeCombinesProviders()
    ensures GeneValue(Some("TP53"), Some(7157), None, None, None)
              .Merged(GeneValue(Some("TP53"), None, Some("Tumor protein p53"), None, None))
         == GeneValue(Some("TP53"), Some(7157), Some("Tumor protein p53"), None, None)
  {
  }

  /** Merging a variant reference with a copy of itself changes nothing. */
  lemma VariantRefMergeSelf(v: VariantRefValue)
    ensures v.Merged(v) == v
  {
  }

  /** Merging a variant with a copy of itself replaces its diseases by its drugs and changes nothing else. */
  lemma VariantMergeSelf(v: VariantValue)
    ensures v.Merged(v) == v.(diseases := v.drugs)
  {
  }

  /** So a variant whose disease and drug lists differ is changed by merging a copy of itself. */
  lemma VariantMergeSelfNotIdentity(v: VariantValue)
    requires v.diseases != v.drugs
    ensures v.Merged(v) != v
  {
    VariantMergeSelf(v);
    assert v.Merged(v).diseases == v.drugs;
  }

  /** Merging the same variant in twice is the same as merging it once. */
  lemma VariantMergeIdempotent(a: VariantValue, b: VariantValue)
    ensures a.Merged(b).Merged(b) == a.Merged(b)
  {
  }

  /** With `diseases` reconciled from the disease lists, merging a copy of itself changes nothing. */
  lemma VariantMergedAsIntendedSelf(v: VariantValue)
    ensures v.MergedAsIntended(v) == v
  {
  }

  /** With `diseases` reconciled from the disease lists, a second merge of the same variant changes nothing. */
  lemma VariantMergedAsIntendedIdempotent(a: VariantValue, b: VariantValue)
    ensures a.MergedAsIntended(b).MergedAsIntended(b) == a.MergedAsIntended(b)
  {
  }

  // ---------------------------------------------------------------------------
  // Upgrading a reference
  // ---------------------------------------------------------------------------

  /** Upgrading a gene reference keeps what it matches. */
  lemma GeneUpgradeKeepsIdentity(a: GeneRefValue, b: GeneRefValue)
    ensures GeneValue.FromReference(a).Mergeable(GeneValue.FromReference(b)) == a.Mergeable(b)
  {
  }

  /** Merging gene references and then upgrading gives the same gene as upgrading both and merging. */
  lemma GeneUpgradeCommutesWithMerge(a: GeneRefValue, b: GeneRefValue)
    ensures GeneValue.FromReference(a.Merged(b)) == GeneValue.FromReference(a).Merged(GeneValue.FromReference(b))
  {
  }

  /** Upgrading a variant reference keeps its display key and what it matches. */
  lemma VariantUpgradeKeepsKeyAndIdentity(a: VariantRefValue, b: VariantRefValue)
    ensures VariantValue.FromReference(a).OptionName() == a.OptionName()
    ensures VariantValue.FromReference(a).Mergeable(VariantValue.FromReference(b)) == a.Mergeable(b)
  {
  }

  /**
   * Merging variant references and then upgrading agrees with upgrading and
   * then merging exactly when the full merge does not fill in the HGVS ID,
   * which the reference merge never touches.
   */
  lemma VariantUpgradeCommutesWithMerge(a: VariantRefValue, b: VariantRefValue)
    ensures VariantValue.FromReference(a.Merged(b)) == VariantValue.FromReference(a).Merged(VariantValue.FromReference(b))
            <==> a.hgvsID.Some? || b.hgvsID.None?
  {
    var upgraded := VariantValue.FromReference(a).Merged(VariantValue.FromReference(b));
    if a.hgvsID.None? && b.hgvsID.Some? {
      assert upgraded.hgvsID != VariantValue.FromReference(a.Merged(b)).hgvsID;
    }
  }

  // ---------------------------------------------------------------------------
  // Display keys under merging
  // ---------------------------------------------------------------------------

  /** Every field of the display key is defined. */
  ghost predicate KeyFieldsDefined(v: VariantValue) {
    v.origin.hugoSymbol.Some? && v.variantName.Some? && v.origin.entrezID.Some? && v.hgvsID.Some?
  }

  /** A variant whose display-key fields are all defined keeps its display key through any merge. */
  lemma MergeKeepsDefinedOptionName(v: VariantValue, other: VariantValue)
    requires KeyFieldsDefined(v)
    ensures v.Merged(other).OptionName() == v.OptionName()
  {
  }

  /**
   * Equal display keys do not protect the key from a merge: undefined fields
   * render as "undefined" and the separators are plain spaces, so two
   * variants with the same key can merge into one with a different key.
   */
  lemma MergeCanChangeEqualOptionNames()
    ensures exists v: VariantValue, other: VariantValue ::
              v.OptionName() == other.OptionName() && v.Merged(other).OptionName() != v.OptionName()
  {
    var gene := GeneValue(Some("s"), Some(1), None, None, None);
    var v := VariantValue(gene, None, Some("undefined x"), Some(0), None, None, None, None, None, None, None, None);
    var other := v.(origin := gene.(entrezID := None), variantName := Some("undefined 1"), hgvsID := Some("x"));
    var merged := v.Merged(other);
    assert merged == v.(variantName := Some("undefined 1"));
    var one := ShowInt(Some(1));
    assert one == "1";
    calc {
      v.OptionName();
      "s" + " " + "undefined" + " " + one + " " + "undefined x";
      "s" + " " + "undefined 1" + " " + "undefined" + " " + "x";
      other.OptionName();
    }
    calc {
      merged.OptionName();
      "s" + " " + "undefined 1" + " " + one + " " + "undefined x";
    }
    assert |merged.OptionName()| != |v.OptionName()|;
  }

  // ---------------------------------------------------------------------------
  // The record classes: fields updated in place by `merge`
  // ---------------------------------------------------------------------------

  class GeneReference {
    var hugoSymbol: Option<string>
    var entrezID: Option<int>

    constructor (hugoSymbol: Option<string>)
      ensures Value() == GeneRefValue(hugoSymbol, None)
    {
      this.hugoSymbol := hugoSymbol;
      entrezID := None;
    }

    function Value(): GeneRefValue
      reads this
    {
      GeneRefValue(hugoSymbol, entrezID)
    }

    /** Fills the Entrez ID from `other` when this one has none. */
    method Merge(other: GeneReference)
      modifies this
      ensures Value() == old(Value()).Merged(old(other.Value()))
    {
      entrezID := Reconcile(entrezID, other.entrezID);
    }
  }

  class Gene {
    var hugoSymbol: Option<string>
    var entrezID: Option<int>
    var name: Option<string>
    var description: Option<string>
    var proteinCoding: Option<string>

    constructor (hugoSymbol: Option<string>)
      ensures Value() == GeneValue(hugoSymbol, None, None, None, None)
    {
      this.hugoSymbol := hugoSymbol;
      entrezID, name, description, proteinCoding := None, None, None, None;
    }

    function Value(): GeneValue
      reads this
    {
      GeneValue(hugoSymbol, entrezID, name, description, proteinCoding)
    }

    /** A new gene upgraded from a reference; the reference is not shared. */
    static method FromReference(reference: GeneReference) returns (g: Gene)
      ensures fresh(g)
      ensures g.Value() == GeneValue.FromReference(reference.Value())
    {
      g := new Gene(reference.hugoSymbol);
      g.entrezID := reference.entrezID;
    }

    /** Fills each undefined field from `other`, one field after another. */
    method Merge(other: Gene)
      modifies this
      ensures Value() == old(Value()).Merged(old(other.Value()))
    {
      entrezID := Reconcile(entrezID, other.entrezID);
      name := Reconcile(name, other.name);
      description := Reconcile(description, other.description);
      proteinCoding := Reconcile(proteinCoding, other.proteinCoding);
    }
  }

  class VariantReference {
    var origin: GeneReference
    var variantName: Option<string>
    var hgvsID: Option<string>

    constructor (origin: GeneReference, variantName: Option<string>, hgvsID: Option<string>)
      ensures this.origin == origin
      ensures this.variantName == variantName && this.hgvsID == hgvsID
    {
      this.origin := origin;
      this.variantName := variantName;
      this.hgvsID := hgvsID;
    }

    function Value(): VariantRefValue
      reads this, origin
    {
      VariantRefValue(origin.Value(), variantName, hgvsID)
    }

    /** Merges the origin gene object in place, then fills the variant name. */
    method Merge(other: VariantReference)
      modifies this, origin
      ensures origin == old(origin)
      ensures Value() == old(Value()).Merged(old(other.Value()))
    {
      origin.Merge(other.origin);
      variantName := Reconcile(variantName, other.variantName);
    }
  }

  class Variant {
    var origin: Gene
    var variantName: Option<string>
    var hgvsID: Option<string>
    var score: Option<int>
    var description: Option<string>
    var somatic: Option<bool>
    var types: Option<seq<string>>
    var drugs: Option<seq<string>>
    var diseases: Option<seq<string>>
    var chromosome: Option<string>
    var start: Option<int>
    var end: Option<int>

    constructor (origin: Gene, variantName: Option<string>, hgvsID: Option<string>)
      ensures this.origin == origin
      ensures Value() == VariantValue(origin.Value(), variantName, hgvsID, Some(0),
                                      None, None, None, None, None, None, None, None)
    {
      this.origin := origin;
      this.variantName := variantName;
      this.hgvsID := hgvsID;
      score := Some(0);
      description, somatic, types, drugs, diseases := None, None, None, None, None;
      chromosome, start, end := None, None, None;
    }

    function Value(): VariantValue
      reads this, origin
    {
      VariantValue(origin.Value(), variantName, hgvsID, score, description, somatic,
                   types, drugs, diseases, chromosome, start, end)
    }

    /** A new variant upgraded from a reference, with a new origin gene of its own. */
    static method FromReference(reference: VariantReference) returns (v: Variant)
      ensures fresh(v) && fresh(v.origin)
      ensures v.Value() == VariantValue.FromReference(reference.Value())
    {
      var origin := Gene.FromReference(reference.origin);
      v := new Variant(origin, reference.variantName, reference.hgvsID);
    }

    /**
     * Merges the origin gene object in place, then reconciles the fields in
     * the order of the code; `diseases` is assigned from the drug lists, after
     * `drugs` itself has been reconciled.
     */
    method Merge(other: Variant)
      modifies this, origin
      ensures origin == old(origin)
      ensures Value() == old(Value()).Merged(old(other.Value()))
    {
      origin.Merge(other.origin);
      variantName := Reconcile(variantName, other.variantName);
      hgvsID := Reconcile(hgvsID, other.hgvsID);
      score := Reconcile(score, other.score);
      description := Reconcile(description, other.description);
      somatic := Reconcile(somatic, other.somatic);
      types := Reconcile(types, other.types);
      drugs := Reconcile(drugs, other.drugs);
      diseases := Reconcile(drugs, other.drugs);
      chromosome := Reconcile(chromosome, other.chromosome);
      start := Reconcile(start, other.start);
      end := Reconcile(end, other.end);
    }
  }
}
