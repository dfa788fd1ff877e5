# Gene and variant record reconciliation, in Dafny

This project models the record-reconciliation core of a healthcare application.
Several lookup providers return genes for a search term. The application folds
their answers into one list. When a merge keeps the receiver's display key, the
list is ordered by display key, with one element per key. A variant merge can
change the key, and then the list can end out of order (`FoldCanEndUnsorted`).

It has two parts:

- **The record types and their merge contract** (`src/app/global/genomic-data.ts`):
  `GeneReference`, `Gene`, `VariantReference` and `Variant`.
  - Identity: `mergeable`. A gene with an empty or undefined HUGO symbol matches
    nothing, not even itself.
  - The in-place `merge`: a field the receiver already has is kept, and an
    undefined field takes the other record's value.
  - The display key `optionName`, the location text `getLocation`, and the
    `fromReference` upgrades.
- **The ordered insertion merge** (`src/app/data-entry/robust-gene-search.service.ts`):
  the callback that `search` passes to `map`. It places every record of every
  provider into a growing list:
  - merged into the element with an equal key;
  - otherwise spliced in before the first greater key;
  - otherwise appended.

## Modules

- `data_merging.dfy`, module `DataMerging`.
  - `Option` stands for a field that may be `undefined`.
  - `Reconcile` is the rule "overwrite only if undefined" that every merge applies.
  - The helper this rule stands for (`MergeProperties` in `./data-merging`) is
    not part of this model. `Reconcile` follows the comments above each `merge`.
- `text.dfy`, module `Text`.
  - How JavaScript string concatenation renders an `undefined` field
    (`"undefined"`) and an integer (plain decimal, with `-` for negatives).
  - JavaScript's `<` on strings: lexicographic by character, a proper prefix
    first.
  - Proofs that this order is a strict total order.
- `genomic_data.dfy`, module `GenomicData`.
  - One datatype per record type: `GeneRefValue`, `GeneValue`, `VariantRefValue`
    and `VariantValue`. Each holds the record's fields. The pure operations are
    members of these datatypes: `Mergeable`, `OptionName`, `GetLocation`,
    `FromReference`, and `Merged`, the value a merge produces.
  - One class per record type. Each has the same fields, updated in place. Its
    `Merge` method assigns them in the code's order and mutates the shared
    `origin` gene object. `Merge` is proved to produce `Merged` of the old
    values. `FromReference` allocates new objects.
- `robust_gene_search.dfy`, module `RobustGeneSearch`.
  - The fold is generic in the record type. It takes a display key
    `key: T -> string` and a merge `mergeInto(receiver, incoming)`.
  - `AddGene` is the scanning loop with early returns.
  - `MergeGeneArrays` is the nested loop over provider answers.
  - Both are proved equal to the specification functions `Insert` and
    `Aggregate`. Lemmas then establish the following:
    - placement, when the key is present or absent;
    - sortedness, with no key twice;
    - the set of keys;
    - that the key sequence does not depend on input order;
    - that each element is the merge, in arrival order, of all the records
      with its key, so the result depends only on each key's arrival order;
    - the empty result.
- `variant_search.dfy`, module `VariantSearch`.
  - The fold applied to variants, with `optionName` as the key. The fold
    calls `mergeWith`, which the `Variant` class does not define; the variant
    `merge` stands in for it.
  - Where it disagrees with `mergeable`, and its theorems for variants whose
    key fields are all defined.

Sortedness and completeness of the fold need one property of the merge: merging
a record into one with the same key leaves the receiver's key unchanged
(`MergeKeepsKey`). The variant display key does not always have this property.
An `undefined` field renders as the word `undefined`, and the separators are
plain spaces, so two variants with equal keys can merge into one with a
different key (`MergeCanChangeEqualOptionNames`). Keys whose four fields are
all defined are stable (`MergeKeepsDefinedOptionName`).

In two places the model follows the code where a reader might expect otherwise:
- The aggregator merges on equality of display keys
  (`robust-gene-search.service.ts:33`), not on `mergeable`.
- `Variant.merge` assigns `diseases` from the drug lists (line 145).

## Model

| member | source | states |
|---|---|---|
| `DataMerging.Reconcile` | src/app/global/genomic-data.ts:58-63 | the merged field keeps the receiver's value when defined, takes the other's when the receiver's is undefined, and is defined exactly when either side is |
| `DataMerging.ReconcileSelf` | src/app/global/genomic-data.ts:58-63 | reconciling a field with itself changes nothing |
| `DataMerging.ReconcileIdempotent` | src/app/global/genomic-data.ts:144-145 | reconciling again against the same value changes nothing (why line 145 yields the merged drugs) |
| `DataMerging.ReconcileAssociative` | src/app/global/genomic-data.ts:58-63 | a chain of merges keeps the first defined value whichever way it is grouped |
| `DataMerging.ReconcileCommutesWithoutConflict` | src/app/global/genomic-data.ts:58-63 | when at most one side defines a field, the order of the merge does not matter |
| `Text.ShowString` | src/app/global/genomic-data.ts:80 | a defined string field is written into a display key as itself (a missing one as `undefined`) |
| `Text.ShowStringUndefined` | src/app/global/genomic-data.ts:80 | the text `undefined` comes from a missing field or from a field holding that very word, and from nothing else |
| `Text.NatToDecimal` | src/app/global/genomic-data.ts:80 | the decimal text of a number in a display key is a non-empty run of digits without a leading zero |
| `Text.DecimalRoundTrip` | src/app/global/genomic-data.ts:80 | reading the decimal text back gives the number |
| `Text.IntToDecimal` | src/app/global/genomic-data.ts:80 | an integer's text is non-empty and starts with `-` exactly for negatives |
| `Text.IntToDecimalInjective` | src/app/global/genomic-data.ts:80 | distinct Entrez IDs are written differently in a display key |
| `Text.ShowInt` | src/app/global/genomic-data.ts:152 | a possibly missing number is written as non-empty text; a defined one starts with `-` exactly when it is negative |
| `Text.ShowIntUndefined` | src/app/global/genomic-data.ts:80 | a number field renders as `undefined` exactly when it is missing |
| `Text.Less` | src/app/data-entry/robust-gene-search.service.ts:37 | the string comparison the scan uses is strict: a key is never below an equal key; the five lemmas below make it a strict total order with proper prefixes first |
| `Text.LessIrreflexive` | src/app/data-entry/robust-gene-search.service.ts:37 | no key sorts before itself |
| `Text.LessAsymmetric` | src/app/data-entry/robust-gene-search.service.ts:37 | two keys never sort before each other |
| `Text.LessTransitive` | src/app/data-entry/robust-gene-search.service.ts:37 | the key order is transitive |
| `Text.LessTotal` | src/app/data-entry/robust-gene-search.service.ts:37 | any two different keys are ordered one way or the other |
| `Text.LessCommonPrefix` | src/app/data-entry/robust-gene-search.service.ts:37 | putting the same text in front of two keys keeps their order |
| `Text.LessProperPrefix` | src/app/data-entry/robust-gene-search.service.ts:37 | a key sorts before every longer key it is a prefix of |
| `GenomicData.SymbolsMatch` | src/app/global/genomic-data.ts:52-57 | the gene identity test holds exactly when both symbols are defined, non-empty and equal |
| `GenomicData.DisplayKey` | src/app/global/genomic-data.ts:124-126 | the key of either variant form is the symbol text, the variant-name text, the Entrez-ID text and the HGVS text, each at its place after single-space separators, and exactly that long |
| `GenomicData.GeneRefValue.Mergeable` | src/app/global/genomic-data.ts:17-22 | a gene reference matches another exactly when its symbol is usable and equal to the other's |
| `GenomicData.GeneRefValue.Merged` | src/app/global/genomic-data.ts:23-25 | a reference merge keeps the symbol and fills only an undefined Entrez ID |
| `GenomicData.GeneValue.Mergeable` | src/app/global/genomic-data.ts:52-57 | a gene matches another exactly when its symbol is usable and equal to the other's |
| `GenomicData.GeneValue.Merged` | src/app/global/genomic-data.ts:58-63 | a gene merge keeps the symbol; Entrez ID, name, description and protein coding each keep a defined value or take the other's |
| `GenomicData.GeneValue.FromReference` | src/app/global/genomic-data.ts:34-38 | the upgraded gene has the reference's symbol and Entrez ID and no extended fields |
| `GenomicData.VariantRefValue.OptionName` | src/app/global/genomic-data.ts:79-81 | the display key holds the origin's symbol, the variant name, the origin's Entrez ID and the HGVS ID, in that order, each followed or preceded by a single space, and nothing else |
| `GenomicData.VariantRefValue.Mergeable` | src/app/global/genomic-data.ts:86-88 | variant references match exactly when their HGVS IDs are equal and their origin genes match |
| `GenomicData.VariantRefValue.Merged` | src/app/global/genomic-data.ts:91-94 | a reference merge leaves the HGVS ID and the origin's symbol as they were; only the origin's Entrez ID and the variant name can be filled in |
| `GenomicData.VariantValue.OptionName` | src/app/global/genomic-data.ts:124-126 | the display key holds the origin's symbol, the variant name, the origin's Entrez ID and the HGVS ID, in that order, each followed or preceded by a single space, and nothing else |
| `GenomicData.VariantValue.GetLocation` | src/app/global/genomic-data.ts:151-153 | when start and end differ: the chromosome, ", Nucleotides ", the start position, " to " and the end position; when they are equal: the chromosome, ", Nucleotide " and the start position; each at its exact place |
| `GenomicData.VariantValue.Mergeable` | src/app/global/genomic-data.ts:131-133 | variants match exactly when their HGVS IDs are equal and their origin genes match |
| `GenomicData.VariantValue.Merged` | src/app/global/genomic-data.ts:136-149 | the origin is merged as a gene; every field keeps a defined value or takes the other's, except that `diseases` ends up equal to the merged `drugs` |
| `GenomicData.VariantValue.MergedAsIntended` | src/app/global/genomic-data.ts:135-149 | the same merge with `diseases` following the precedence rule on the two disease lists |
| `GenomicData.VariantValue.FromReference` | src/app/global/genomic-data.ts:102-114 | the upgraded variant has the upgraded origin, the reference's name and HGVS ID, score 0 and nothing else defined |
| `GenomicData.GeneRefSelfMergeable` | src/app/global/genomic-data.ts:17-22 | a gene reference matches itself exactly when its symbol is defined and non-empty |
| `GenomicData.GeneSelfMergeable` | src/app/global/genomic-data.ts:52-57 | a gene matches itself exactly when its symbol is defined and non-empty |
| `GenomicData.GeneRefMergeableSymmetric` | src/app/global/genomic-data.ts:17-22 | the reference identity test is symmetric |
| `GenomicData.GeneMergeableSymmetric` | src/app/global/genomic-data.ts:52-57 | the gene identity test is symmetric |
| `GenomicData.GeneMergeableTransitive` | src/app/global/genomic-data.ts:52-57 | the gene identity test is transitive |
| `GenomicData.VariantRefMergeableSymmetric` | src/app/global/genomic-data.ts:86-88 | the variant reference identity test is symmetric |
| `GenomicData.VariantMergeableSymmetric` | src/app/global/genomic-data.ts:131-133 | the variant identity test is symmetric |
| `GenomicData.VariantMergeableTransitive` | src/app/global/genomic-data.ts:131-133 | the variant identity test is transitive |
| `GenomicData.GeneRefMergeSelf` | src/app/global/genomic-data.ts:23-25 | merging a gene reference with a copy of itself is a no-op |
| `GenomicData.GeneMergeSelf` | src/app/global/genomic-data.ts:58-63 | merging a gene with a copy of itself is a no-op |
| `GenomicData.GeneMergeIdempotent` | src/app/global/genomic-data.ts:58-63 | merging the same gene twice equals merging it once |
| `GenomicData.GeneMergeKeepsIdentity` | src/app/global/genomic-data.ts:52-63 | a merge does not change which genes the receiver matches |
| `GenomicData.GeneMergeCommutesWithoutConflict` | src/app/global/genomic-data.ts:58-63 | with no conflicting fields, merging either way round gives the same gene |
| `GenomicData.GeneMergeCombinesProviders` | src/app/global/genomic-data.ts:58-63 | TP53 with Entrez ID 7157 merged with TP53 named "Tumor protein p53" gives one gene with both |
| `GenomicData.VariantRefMergeSelf` | src/app/global/genomic-data.ts:91-94 | merging a variant reference with a copy of itself is a no-op |
| `GenomicData.VariantMergeSelf` | src/app/global/genomic-data.ts:136-149 | merging a variant with a copy of itself replaces its diseases by its drugs and changes nothing else |
| `GenomicData.VariantMergeSelfNotIdentity` | src/app/global/genomic-data.ts:145 | a variant whose disease and drug lists differ is changed by merging a copy of itself |
| `GenomicData.VariantMergeIdempotent` | src/app/global/genomic-data.ts:136-149 | merging the same variant twice equals merging it once |
| `GenomicData.VariantMergeCommutesWithoutConflict` | src/app/global/genomic-data.ts:136-149 | with equal origin symbols and no field defined differently on the two sides (diseases aside), merging either variant into the other gives the same value |
| `GenomicData.VariantMergedAsIntendedSelf` | src/app/global/genomic-data.ts:135-149 | with diseases reconciled from the disease lists, merging a copy of itself is a no-op |
| `GenomicData.VariantMergedAsIntendedIdempotent` | src/app/global/genomic-data.ts:135-149 | with diseases reconciled from the disease lists, merging twice equals merging once |
| `GenomicData.GeneUpgradeKeepsIdentity` | src/app/global/genomic-data.ts:34-38 | upgrading gene references does not change whether they match |
| `GenomicData.GeneUpgradeCommutesWithMerge` | src/app/global/genomic-data.ts:34-38 | merging references then upgrading equals upgrading then merging |
| `GenomicData.VariantUpgradeKeepsKeyAndIdentity` | src/app/global/genomic-data.ts:102-104 | an upgraded variant has the reference's display key and matches what the reference matches |
| `GenomicData.VariantUpgradeCommutesWithMerge` | src/app/global/genomic-data.ts:102-104 | merge-then-upgrade equals upgrade-then-merge exactly when the full merge would not fill in an undefined HGVS ID |
| `GenomicData.MergeKeepsDefinedOptionName` | src/app/global/genomic-data.ts:124-149 | a variant whose four key fields are defined keeps its display key through any merge |
| `GenomicData.MergeCanChangeEqualOptionNames` | src/app/global/genomic-data.ts:124-149 | two variants with equal display keys can merge into one with a different key |
| `GenomicData.GeneReference.constructor` | src/app/global/genomic-data.ts:10-12 | a new reference has the given symbol and no Entrez ID |
| `GenomicData.GeneReference.Merge` | src/app/global/genomic-data.ts:23-25 | the object's new fields are the reference merge of its old fields with the other's |
| `GenomicData.Gene.constructor` | src/app/global/genomic-data.ts:40-42 | a new gene has the given symbol and nothing else defined |
| `GenomicData.Gene.FromReference` | src/app/global/genomic-data.ts:34-38 | returns a new gene object holding the upgrade of the reference |
| `GenomicData.Gene.Merge` | src/app/global/genomic-data.ts:58-63 | the object's new fields are the gene merge of its old fields with the other's |
| `GenomicData.VariantReference.constructor` | src/app/global/genomic-data.ts:70-74 | a new variant reference holds the given origin object, name and HGVS ID |
| `GenomicData.VariantReference.Merge` | src/app/global/genomic-data.ts:91-94 | the origin object is merged in place and stays the same object; the new value is the reference merge of the old values |
| `GenomicData.Variant.constructor` | src/app/global/genomic-data.ts:106-114 | a new variant holds the given origin object, name and HGVS ID, score 0, nothing else defined |
| `GenomicData.Variant.FromReference` | src/app/global/genomic-data.ts:102-104 | returns a new variant with a new origin gene, holding the upgrade of the reference |
| `GenomicData.Variant.Merge` | src/app/global/genomic-data.ts:136-149 | the origin object is merged in place; the new value is the variant merge of the old values, `diseases` included as written |
| `RobustGeneSearch.FindPlace` | src/app/data-entry/robust-gene-search.service.ts:31-41 | the scan stops at the first element with an equal or greater key, or at the end; every element before it sorts strictly before the new key |
| `RobustGeneSearch.FindPlaceUnique` | src/app/data-entry/robust-gene-search.service.ts:31-41 | the first position that stops the scan is the only one with nothing stopping it earlier |
| `RobustGeneSearch.Insert` | src/app/data-entry/robust-gene-search.service.ts:30-45 | placing one record grows the list by at most one element |
| `RobustGeneSearch.InsertShape` | src/app/data-entry/robust-gene-search.service.ts:30-45 | on any list, sorted or not: either one element with the record's key is merged with it in place, or the record is spliced in with the old elements in order around it |
| `RobustGeneSearch.AddGene` | src/app/data-entry/robust-gene-search.service.ts:30-45 | the loop with early returns computes `Insert`: merge at an equal key, splice before a greater key, append otherwise |
| `RobustGeneSearch.InsertWhenPresent` | src/app/data-entry/robust-gene-search.service.ts:33-36 | in a sorted list holding the key, the record is merged into that element in place; length and all other elements unchanged |
| `RobustGeneSearch.InsertWhenAbsent` | src/app/data-entry/robust-gene-search.service.ts:37-44 | without the key, the record is spliced in at one position: smaller keys before it, the next element greater, the old elements in order around it |
| `RobustGeneSearch.SortedSplice` | src/app/data-entry/robust-gene-search.service.ts:37-39 | splicing between smaller and greater keys keeps the list strictly sorted |
| `RobustGeneSearch.InsertKeepsSorted` | src/app/data-entry/robust-gene-search.service.ts:30-45 | placing a record keeps a strictly sorted list strictly sorted, when a merge keeps the receiver's key |
| `RobustGeneSearch.InsertKeySet` | src/app/data-entry/robust-gene-search.service.ts:30-45 | placing a record adds exactly its key to the list's keys |
| `RobustGeneSearch.MergeGeneArrays` | src/app/data-entry/robust-gene-search.service.ts:28-53 | the nested loop computes `Aggregate`: every record of every provider placed in order into an empty list |
| `RobustGeneSearch.Aggregate` | src/app/data-entry/robust-gene-search.service.ts:28-53 | the result has at most one element per provider record, and is empty exactly when no provider returned a record |
| `RobustGeneSearch.InsertAllLength` | src/app/data-entry/robust-gene-search.service.ts:47-52 | placing records never removes an element and adds at most one per record; placing at least one record leaves the list non-empty |
| `RobustGeneSearch.AggregateOfTwo` | src/app/data-entry/robust-gene-search.service.ts:28-53 | one record from each of two providers gives one merged element when their keys are equal, whatever else they hold, and otherwise both, smaller key first |
| `RobustGeneSearch.InsertAllSorted` | src/app/data-entry/robust-gene-search.service.ts:47-52 | placing any records one by one keeps the list strictly sorted |
| `RobustGeneSearch.InsertAllKeySet` | src/app/data-entry/robust-gene-search.service.ts:47-52 | the keys after placing records are the old keys plus the records' keys |
| `RobustGeneSearch.AggregateSortedAndComplete` | src/app/data-entry/robust-gene-search.service.ts:28-53 | the result is strictly sorted by display key (one element per key) and its keys are exactly the keys of all provider records |
| `RobustGeneSearch.IncreasingUnique` | src/app/data-entry/robust-gene-search.service.ts:28-53 | a strictly increasing key sequence is determined by its set of keys |
| `RobustGeneSearch.AggregateKeysOrderIndependent` | src/app/data-entry/robust-gene-search.service.ts:28-53 | inputs with the same keys, in any provider or record order, give the same key sequence |
| `RobustGeneSearch.AggregateMergeIntoSecond` | src/app/data-entry/robust-gene-search.service.ts:28-53 | three single-record answers where the first key is smaller and the third matches the second give the first record and the second merged with the third, sorted exactly when the merged key stays above the first |
| `RobustGeneSearch.WithKeyNonEmpty` | src/app/data-entry/robust-gene-search.service.ts:47-52 | some record has a key exactly when that key is among the records' keys |
| `RobustGeneSearch.InsertAllGroups` | src/app/data-entry/robust-gene-search.service.ts:30-52 | when a merge keeps the receiver's key, each element placed is the merge, in arrival order, of all the records with its key |
| `RobustGeneSearch.AggregateDeterminedByGroups` | src/app/data-entry/robust-gene-search.service.ts:28-53 | two inputs with the same keys whose records of each key merge to the same value give the same result, merged values included |
| `RobustGeneSearch.AggregateDependsOnlyOnPerKeyOrder` | src/app/data-entry/robust-gene-search.service.ts:28-53 | reordering answers or records so that each key's records keep their order leaves the whole result unchanged |
| `RobustGeneSearch.AggregateOfEmptyAnswers` | src/app/data-entry/robust-gene-search.service.ts:28-53 | no providers, or only empty answers, give the empty list |
| `VariantSearch.FoldCoalescesUnmatchableCopies` | src/app/data-entry/robust-gene-search.service.ts:33-34 | a variant without a usable origin symbol does not match itself under `mergeable`, yet two providers returning it give one merged element |
| `VariantSearch.FoldKeepsMatchingVariantsApart` | src/app/data-entry/robust-gene-search.service.ts:33-39 | two TP53 variants with the same HGVS ID match under `mergeable`, yet their names R175H and R175HX give different keys and the fold keeps both |
| `VariantSearch.FoldCanEndUnsorted` | src/app/data-entry/robust-gene-search.service.ts:32-39 | three providers' single variants can leave the result out of order: the third merges into the second and changes its key to one below the first's |
| `VariantSearch.KeyedMergeKeepsKey` | src/app/global/genomic-data.ts:124-149 | among variants whose four key fields are defined, the variant merge keeps the receiver's key, as the fold's theorems require |
| `VariantSearch.KeyedFoldSortedAndComplete` | src/app/data-entry/robust-gene-search.service.ts:28-53 | folding such variants from any providers gives a list strictly sorted by `optionName`, one element per key, holding exactly the keys returned |
| `VariantSearch.KeyedFoldKeysOrderIndependent` | src/app/data-entry/robust-gene-search.service.ts:28-53 | for such variants the order in which providers answer does not change the result's key sequence |
| `VariantSearch.KeyedFoldElementsAreMergedGroups` | src/app/data-entry/robust-gene-search.service.ts:28-53 | for such variants each element of the result is the merge, in arrival order, of all the variants returned with its key |
| `VariantSearch.KeyedFoldDependsOnlyOnPerKeyOrder` | src/app/data-entry/robust-gene-search.service.ts:28-53 | for such variants the whole result, field values included, is unchanged by any reordering that keeps each key's variants in order |
| `VariantSearch.TwoAnswersCommuteWithoutConflict` | src/app/data-entry/robust-gene-search.service.ts:28-53 | two providers answering one variant each give the same result in either order when no field is defined differently on the two sides |

## Left out

- The fan-out with `Observable.forkJoin` and the asynchronous plumbing (`robust-gene-search.service.ts:23-27`) are not modelled. So are the fail-fast join and the provider interface. Only the synchronous fold over a `seq<seq<T>>` is.
- The `console.log` on a merge (`robust-gene-search.service.ts:35`) is output only and is not modelled.
- `MyGeneInfoSearchService` is not part of this model. It is an HTTP query with URL building and JSON parsing.
- The UI component and the module configuration are not part of this model.
- The contents of `./data-merging` are not part of this model. `Reconcile` treats only `undefined` as missing, not the empty string or other falsy values. It follows the comments above each `merge`.
- `DrugReference` is not part of this model. `drugs` and `diseases` share the element type `string` so that line 145 can be modelled as written.
- Numbers are integers. Floating point (`score`, non-integer positions) and JavaScript's formatting of non-integer numbers are not modelled. `null` fields are not modelled, only `undefined`.
- IntToDecimal: writes every integer in plain decimal. JavaScript writes integers of magnitude 10^21 or more in exponent form (`1e+21`), and does not hold integers beyond 2^53 exactly; the model covers neither.
- AggregateSortedAndComplete: the fold merges on equal display keys, never on `mergeable`. So the result need not have one element per identity: records that match nothing can coalesce (`FoldCoalescesUnmatchableCopies`), and matching records with different keys stay apart (`FoldKeepsMatchingVariantsApart`). The fold's theorems need a merge that keeps the receiver's key; for variants they are instantiated only where all four key fields are defined (`KeyedFoldSortedAndComplete`).
- AggregateKeysOrderIndependent: states that the key sequence does not depend on input order, not that the merged values do not. `AggregateDeterminedByGroups` and `AggregateDependsOnlyOnPerKeyOrder` show that the values depend only on the order in which each key's records arrive. `TwoAnswersCommuteWithoutConflict` shows that, for variants, two providers answering one variant each in either order give the same result when no field conflicts. For three or more records of one key arriving in different orders, equal merged values are not proved.
- KeyedFoldKeysOrderIndependent: the same gap as `AggregateKeysOrderIndependent`; `KeyedFoldDependsOnlyOnPerKeyOrder` covers the merged values when each key's variants arrive in the same order.
- Characters are compared as Unicode scalar values. JavaScript compares UTF-16 code units, so the two orders differ for characters outside the Basic Multilingual Plane.
- The fold is modelled on values, with `key` and `mergeInto` as parameters. The `Gene` class shown has neither `optionName` nor `mergeWith`, which the fold calls, and the `Variant` class has no `mergeWith` either: the variant instantiation (`VariantSearch`) uses `merge` in its place. The array is grown in place by `splice` and `push`; in the model it is a local sequence that `AddGene` returns anew. An element's identity is its position, and the merged element is `mergeInto(receiver, incoming)`.
- Aliasing between list elements is not modelled. For example, merging variants whose `origin` gene objects are shared also changes the key of every variant holding that object.
- `mergeable`, `optionName` and `getLocation` read only fields. They are modelled on the record's value (`Value()` of each class) rather than as functions of the class.

## Findings

| source | as written | input that shows it | evidently intended | confidence | as-written member | corrected member |
|---|---|---|---|---|---|---|
| src/app/global/genomic-data.ts:145 | `this.diseases = MergeProperties(this.drugs, other.drugs)`: after a merge a variant's diseases are its (merged) drug list, and its own diseases are lost | any variant whose `diseases` differs from `drugs`, merged with a copy of itself | `this.diseases = MergeProperties(this.diseases, other.diseases)`, so that merging a copy of itself changes nothing | high (the comment above the merge says every undefined property is filled; not executed) | `GenomicData.VariantMergeSelfNotIdentity` | `GenomicData.VariantMergedAsIntendedSelf` |

The class method `Variant.Merge` follows the code as written. `VariantValue.MergedAsIntended` is the corrected merge. The idempotence lemmas are proved for both.
