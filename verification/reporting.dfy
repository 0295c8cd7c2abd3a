/**
 * guideseq/reporting.py: the data logic of `report`. The manifest's
 * `template_vars` is the class `Report`; its `samples` mapping (an ordered
 * dictionary keyed by sample name) is a sequence with distinct names. The
 * results of the shell-outs (`samtools view | wc -l`, `bedtools closest`) and
 * the tables pandas loads are inputs, and `distanceToGene`, whose definition
 * is not part of this model, is a function parameter.
 */
module Reporting {
  import opened Wrappers
  import opened PyStr
  import GsToBed

  /** The reserved key of the control sample. */
  const ControlName: string := "control"
  const OnTarget: string := "On target"
  const OffTarget: string := "Off target"
  /** Constant texts the annotation dictionary carries. */
  const GsReadsText: string := "TODO"
  const ClosestGeneText: string := "gene name"

  /** One entry of the manifest's `samples` mapping: its key and its `conditions` value. */
  datatype ManifestSample = ManifestSample(name: string, condition: string)

  predicate DistinctNames(samples: seq<ManifestSample>)
  {
    forall i, j :: 0 <= i < j < |samples| ==> samples[i].name != samples[j].name
  }

  /** No entry has the control's key. */
  predicate ControlFree(samples: seq<ManifestSample>)
  {
    forall i :: 0 <= i < |samples| ==> samples[i].name != ControlName
  }

  // ---------------------------------------------------------------------------
  // Control removal (the `del samples['control']` step)

  /** The samples other than the control, in manifest order. */
  function WithoutControl(samples: seq<ManifestSample>): seq<ManifestSample>
  {
    if samples == [] then []
    else (if samples[0].name == ControlName then [] else [samples[0]]) + WithoutControl(samples[1..])
  }

  /** Position of the entry with the given key. */
  function IndexOfName(samples: seq<ManifestSample>, name: string): (k: Option<nat>)
    ensures k.Some? ==> k.value < |samples| && samples[k.value].name == name
    ensures k.None? ==> forall i :: 0 <= i < |samples| ==> samples[i].name != name
  {
    if samples == [] then None
    else if samples[0].name == name then Some(0)
    else match IndexOfName(samples[1..], name)
      case None => None
      case Some(k) => Some(k + 1)
  }

  /** Keeping the non-control entries drops the control and keeps every other entry. */
  lemma {:induction false} WithoutControlMembers(samples: seq<ManifestSample>, s: ManifestSample)
    ensures s in WithoutControl(samples) <==> s in samples && s.name != ControlName
  {
    if samples != [] {
      WithoutControlMembers(samples[1..], s);
      assert s in samples <==> s == samples[0] || s in samples[1..];
    }
  }

  lemma {:induction false} WithoutControlAppend(a: seq<ManifestSample>, b: seq<ManifestSample>)
    ensures WithoutControl(a + b) == WithoutControl(a) + WithoutControl(b)
  {
    if a != [] {
      assert (a + b)[0] == a[0] && (a + b)[1..] == a[1..] + b;
      WithoutControlAppend(a[1..], b);
    } else {
      assert a + b == b;
    }
  }

  lemma {:induction false} WithoutControlOfControlFree(samples: seq<ManifestSample>)
    requires ControlFree(samples)
    ensures WithoutControl(samples) == samples
  {
    if samples != [] {
      WithoutControlOfControlFree(samples[1..]);
    }
  }

  lemma {:induction false} WithoutControlIsControlFree(samples: seq<ManifestSample>)
    ensures ControlFree(WithoutControl(samples))
  {
    if samples != [] {
      WithoutControlIsControlFree(samples[1..]);
    }
  }

  /** With distinct names, no entry other than the control's is named control. */
  lemma OnlyControlAt(samples: seq<ManifestSample>, k: nat)
    requires DistinctNames(samples)
    requires k < |samples| && samples[k].name == ControlName
    ensures ControlFree(samples[..k]) && ControlFree(samples[k + 1..])
  {
    var after := samples[k + 1..];
    forall i | 0 <= i < |after| ensures after[i].name != ControlName {
      assert after[i] == samples[k + 1 + i];
    }
  }

  /** Deleting the one control entry is the same as keeping every non-control entry. */
  lemma DeleteControlEntry(samples: seq<ManifestSample>, k: nat)
    requires DistinctNames(samples)
    requires k < |samples| && samples[k].name == ControlName
    ensures samples[..k] + samples[k + 1..] == WithoutControl(samples)
    ensures |WithoutControl(samples)| == |samples| - 1
  {
    var before, entry, after := samples[..k], samples[k], samples[k + 1..];
    OnlyControlAt(samples, k);
    assert samples == before + [entry] + after;
    WithoutControlAround(before, entry, after);
  }

  lemma WithoutControlAround(before: seq<ManifestSample>, entry: ManifestSample, after: seq<ManifestSample>)
    requires ControlFree(before) && ControlFree(after) && entry.name == ControlName
    ensures WithoutControl(before + [entry] + after) == before + after
  {
    var head := before + [entry];
    assert WithoutControl([entry]) == [] by {
      assert [entry][1..] == [];
    }
    WithoutControlOfControlFree(before);
    WithoutControlAppend(before, [entry]);
    assert WithoutControl(head) == before;
    WithoutControlOfControlFree(after);
    WithoutControlAppend(head, after);
  }

  lemma {:induction false} WithoutControlKeepsDistinct(samples: seq<ManifestSample>)
    requires DistinctNames(samples)
    ensures DistinctNames(WithoutControl(samples))
  {
    if samples != [] {
      WithoutControlKeepsDistinct(samples[1..]);
      var rest := WithoutControl(samples[1..]);
      forall j | 0 <= j < |rest| ensures rest[j].name != samples[0].name {
        WithoutControlMembers(samples[1..], rest[j]);
        var i :| 0 <= i < |samples[1..]| && samples[1..][i] == rest[j];
        assert samples[1 + i] == rest[j];
      }
      if samples[0].name != ControlName {
        assert WithoutControl(samples) == [samples[0]] + rest;
      }
    }
  }

  // ---------------------------------------------------------------------------
  // Global statistics

  /** `total_cleaved - control_count - (samples_count - 1)` */
  function TotalCleaved(identifiedTotal: int, controlCount: int, samplesCount: int): int
  {
    identifiedTotal - controlCount - (samplesCount - 1)
  }

  function Sum(counts: seq<nat>): nat
  {
    if counts == [] then 0 else counts[0] + Sum(counts[1..])
  }

  /** Lines after the header line, summed over tables. */
  function DataRowTotal(counts: seq<nat>): int
  {
    if counts == [] then 0 else counts[0] - 1 + DataRowTotal(counts[1..])
  }

  /**
   * Meaning of the normalisation: when the identified total is the line count
   * of every sample's table plus the control's, and the sample count includes
   * the control, the result is the number of data rows (lines after the
   * header) over the non-control samples' tables.
   */
  lemma {:induction false} TotalCleavedCountsDataRows(tableLines: seq<nat>, controlLines: nat)
    ensures TotalCleaved(Sum(tableLines) + controlLines, controlLines, |tableLines| + 1) == DataRowTotal(tableLines)
  {
    if tableLines != [] {
      TotalCleavedCountsDataRows(tableLines[1..], controlLines);
    }
  }

  // ---------------------------------------------------------------------------
  // Conditions

  /** One entry of the `conditions` list: its key and the `count` and other fields of its value. */
  datatype Condition = Condition(key: string, count: int, details: map<string, string>)

  /** How many of the samples have the given condition. */
  function SamplesWithCondition(samples: seq<ManifestSample>, key: string): nat
  {
    if samples == [] then 0
    else SamplesWithCondition(samples[..|samples| - 1], key) + (if samples[|samples| - 1].condition == key then 1 else 0)
  }

  /** A condition entry once its count has been recomputed. */
  function Recount(c: Condition, samples: seq<ManifestSample>): Condition
  {
    c.(count := SamplesWithCondition(samples, c.key))
  }

  /** The `conditions` values of the samples, in manifest order. */
  function ConditionsOf(samples: seq<ManifestSample>): seq<string>
  {
    seq(|samples|, i requires 0 <= i < |samples| => samples[i].condition)
  }

  /** The count is how often the key occurs among the samples' conditions. */
  lemma {:induction false} ConditionCountIsMultiplicity(samples: seq<ManifestSample>, key: string)
    ensures SamplesWithCondition(samples, key) == multiset(ConditionsOf(samples))[key]
  {
    if samples != [] {
      var init := samples[..|samples| - 1];
      var last := samples[|samples| - 1];
      ConditionCountIsMultiplicity(init, key);
      assert ConditionsOf(samples) == ConditionsOf(init) + [last.condition];
    }
  }

  // ---------------------------------------------------------------------------
  // Cleavage-site classification

  /** One row of an identified table: `#BED Chromosome`, `Mismatches`, `bi.sum.mi`. */
  datatype SiteRow = SiteRow(bedChromosome: string, mismatches: int, support: int)

  /** `identified_table[identified_table['Mismatches'] == 0]` */
  function OnTargets(table: seq<SiteRow>): seq<SiteRow>
  {
    if table == [] then []
    else (if table[0].mismatches == 0 then [table[0]] else []) + OnTargets(table[1..])
  }

  /** `identified_table[identified_table['Mismatches'] > 0]` */
  function OffTargets(table: seq<SiteRow>): seq<SiteRow>
  {
    if table == [] then []
    else (if table[0].mismatches > 0 then [table[0]] else []) + OffTargets(table[1..])
  }

  /** The rows either mask selects: those with a non-negative mismatch count, in table order. */
  function Classified(table: seq<SiteRow>): seq<SiteRow>
  {
    if table == [] then []
    else (if table[0].mismatches >= 0 then [table[0]] else []) + Classified(table[1..])
  }

  /** `pd.concat([on_targets, off_targets])` */
  function CleavageSites(table: seq<SiteRow>): seq<SiteRow>
  {
    OnTargets(table) + OffTargets(table)
  }

  /** `frame.sum()['bi.sum.mi']` */
  function SupportSum(rows: seq<SiteRow>): int
  {
    if rows == [] then 0 else rows[0].support + SupportSum(rows[1..])
  }

  /**
   * A row is on target exactly when it is in the table with no mismatch, and
   * off target exactly when it is in the table with some; so no row is in both,
   * and rows with a negative mismatch count are in neither.
   */
  lemma {:induction false} PartitionMembers(table: seq<SiteRow>, r: SiteRow)
    ensures r in OnTargets(table) <==> r in table && r.mismatches == 0
    ensures r in OffTargets(table) <==> r in table && r.mismatches > 0
    ensures !(r in OnTargets(table) && r in OffTargets(table))
    ensures r in table && r.mismatches < 0 ==> r !in CleavageSites(table)
  {
    if table != [] {
      PartitionMembers(table[1..], r);
      assert r in table <==> r == table[0] || r in table[1..];
    }
  }

  /** What the first row adds to each selection. */
  lemma ClassifyFirstRow(table: seq<SiteRow>)
    requires table != []
    ensures var x := table[0];
      && multiset(OnTargets(table)) == (if x.mismatches == 0 then multiset{x} else multiset{}) + multiset(OnTargets(table[1..]))
      && multiset(OffTargets(table)) == (if x.mismatches > 0 then multiset{x} else multiset{}) + multiset(OffTargets(table[1..]))
      && multiset(Classified(table)) == (if x.mismatches >= 0 then multiset{x} else multiset{}) + multiset(Classified(table[1..]))
  {
  }

  /** The cleavage sites are the classified rows, each exactly once. */
  lemma {:induction false} CleavageSitesPermuteClassified(table: seq<SiteRow>)
    ensures multiset(CleavageSites(table)) == multiset(Classified(table))
  {
    if table != [] {
      var x, rest := table[0], table[1..];
      CleavageSitesPermuteClassified(rest);
      ClassifyFirstRow(table);
    }
  }

  /** One cleavage site per classified row. */
  lemma CleavageSiteCount(table: seq<SiteRow>)
    ensures |CleavageSites(table)| == |Classified(table)|
  {
    CleavageSitesPermuteClassified(table);
    assert |multiset(CleavageSites(table))| == |multiset(Classified(table))|;
  }

  /** The two read-support sums add up to the sum over all classified rows. */
  lemma {:induction false} SupportSumsAddUp(table: seq<SiteRow>)
    ensures SupportSum(OnTargets(table)) + SupportSum(OffTargets(table)) == SupportSum(Classified(table))
  {
    if table != [] {
      SupportSumsAddUp(table[1..]);
      var x := table[0];
      var on, off := OnTargets(table[1..]), OffTargets(table[1..]);
      var cl := Classified(table[1..]);
      if x.mismatches == 0 {
        assert OnTargets(table) == [x] + on && OffTargets(table) == off;
        assert ([x] + on)[1..] == on && ([x] + cl)[1..] == cl;
      } else if x.mismatches > 0 {
        assert OnTargets(table) == on && OffTargets(table) == [x] + off;
        assert ([x] + off)[1..] == off && ([x] + cl)[1..] == cl;
      } else {
        assert OnTargets(table) == on && OffTargets(table) == off;
        assert Classified(table) == cl;
      }
    }
  }

  /** With no negative mismatch counts, the two sums cover the whole table. */
  lemma {:induction false} SupportSumsCoverTable(table: seq<SiteRow>)
    requires forall i :: 0 <= i < |table| ==> table[i].mismatches >= 0
    ensures SupportSum(OnTargets(table)) + SupportSum(OffTargets(table)) == SupportSum(table)
  {
    SupportSumsAddUp(table);
    assert Classified(table) == table by {
      ClassifiedKeepsAll(table);
    }
  }

  lemma {:induction false} ClassifiedKeepsAll(table: seq<SiteRow>)
    requires forall i :: 0 <= i < |table| ==> table[i].mismatches >= 0
    ensures Classified(table) == table
  {
    if table != [] {
      ClassifiedKeepsAll(table[1..]);
    }
  }

  // ---------------------------------------------------------------------------
  // Cleavage annotations

  /** Columns 1, 2 and 3 of one row of the nearest-feature join output. */
  datatype AnnotationRow = AnnotationRow(start: int, end: int, name: string)

  /** One entry of `cleavage_annotations`. */
  datatype CleavageAnnotation = CleavageAnnotation(
    cleavageId: string, location: string, targetingStatus: string,
    gsReads: string, closestGene: string, distanceClosestGene: int)

  /** The exceptions one iteration of the annotation loop can raise. */
  datatype SiteError =
    | LocationWithoutColon(cleavageId: string)    // `split(':')[1]` raises IndexError
    | AnnotationNotAtRowZero(cleavageId: string)  // `get_value(0, …)` raises KeyError

  function TargetingStatus(mismatches: int): (status: string)
    ensures status == OnTarget <==> mismatches == 0
    ensures status == OnTarget || status == OffTarget
  {
    if mismatches == 0 then OnTarget else OffTarget
  }

  /** `cleavage_id.split(':')[1].split('-')` */
  function CleavageRange(cleavageId: string): Option<seq<string>>
  {
    var pieces := Split(cleavageId, ':');
    if |pieces| < 2 then None else Some(Split(pieces[1], '-'))
  }

  /** Index of the first join row whose name column equals the id (`annotations[is_cleavage].head(1)`). */
  function FirstMatch(annotations: seq<AnnotationRow>, cleavageId: string): (k: Option<nat>)
    ensures k.Some? ==> (k.value < |annotations| && annotations[k.value].name == cleavageId
      && forall j :: 0 <= j < k.value ==> annotations[j].name != cleavageId)
    ensures k.None? ==> forall j :: 0 <= j < |annotations| ==> annotations[j].name != cleavageId
  {
    if annotations == [] then None
    else if annotations[0].name == cleavageId then Some(0)
    else match FirstMatch(annotations[1..], cleavageId)
      case None => None
      case Some(k) => Some(k + 1)
  }

  /** `(int(m.get_value(0, 1)), int(m.get_value(0, 2)))` on the first match `m`: defined only for row label 0. */
  function AnnotationRange(annotations: seq<AnnotationRow>, cleavageId: string): Option<(int, int)>
  {
    match FirstMatch(annotations, cleavageId)
    case Some(0) => Some((annotations[0].start, annotations[0].end))
    case _ => None
  }

  /** The lookup succeeds exactly when row 0 of the join output is the site's, and then reads that row. */
  lemma AnnotationRangeIff(annotations: seq<AnnotationRow>, cleavageId: string)
    ensures AnnotationRange(annotations, cleavageId).Some? <==> |annotations| > 0 && annotations[0].name == cleavageId
    ensures AnnotationRange(annotations, cleavageId).Some? ==>
      AnnotationRange(annotations, cleavageId).value == (annotations[0].start, annotations[0].end)
  {
  }

  /** The range of an id `c:s-e` is `[s, e]`. */
  lemma CleavageRangeOfLocation(c: string, s: string, e: string)
    requires GsToBed.Plain(c) && GsToBed.Plain(s) && GsToBed.Plain(e)
    ensures CleavageRange(c + ":" + s + "-" + e) == Some([s, e])
  {
    var span := s + "-" + e;
    assert c + ":" + s + "-" + e == c + [':'] + span;
    SplitAtSeparator(c, span, ':');
    assert ':' !in span;
    JoinThenSplit([span], ':');
    assert Split(c + [':'] + span, ':') == [c, span];
    SplitAtSeparator(s, e, '-');
    JoinThenSplit([e], '-');
    assert Split(span, '-') == [s, e];
  }

  /** The range is read from the text between the first colon and the next one, split on dashes. */
  lemma CleavageRangeAfterFirstColon(c: string, rest: string)
    requires ':' !in c
    ensures CleavageRange(c + ":" + rest) == Some(Split(Split(rest, ':')[0], '-'))
  {
    assert c + ":" + rest == c + [':'] + rest;
    SplitAtSeparator(c, rest, ':');
  }

  /** The range is missing exactly when the id has no colon. */
  lemma CleavageRangeNeedsColon(cleavageId: string)
    ensures CleavageRange(cleavageId).None? <==> ':' !in cleavageId
  {
    OccurrencesZeroIff(cleavageId, ':');
  }

  /** One iteration of the annotation loop. */
  function AnnotateSite(site: SiteRow, annotations: seq<AnnotationRow>,
                        distanceToGene: (seq<string>, (int, int)) -> int): Result<CleavageAnnotation, SiteError>
  {
    var id := site.bedChromosome;
    match CleavageRange(id)
    case None => Failure(LocationWithoutColon(id))
    case Some(range) =>
      match AnnotationRange(annotations, id)
      case None => Failure(AnnotationNotAtRowZero(id))
      case Some(annotationRange) =>
        Success(CleavageAnnotation(id, site.bedChromosome, TargetingStatus(site.mismatches),
          GsReadsText, ClosestGeneText, distanceToGene(range, annotationRange)))
  }

  /** The annotation list for a sequence of sites, or the first error. */
  function Annotations(sites: seq<SiteRow>, annotations: seq<AnnotationRow>,
                       distanceToGene: (seq<string>, (int, int)) -> int): Result<seq<CleavageAnnotation>, SiteError>
  {
    if sites == [] then Success([])
    else match AnnotateSite(sites[0], annotations, distanceToGene)
      case Failure(e) => Failure(e)
      case Success(a) =>
        match Annotations(sites[1..], annotations, distanceToGene)
        case Failure(e) => Failure(e)
        case Success(rest) => Success([a] + rest)
  }

  function Then<T, E>(done: seq<T>, r: Result<seq<T>, E>): (r': Result<seq<T>, E>)
    ensures done == [] ==> r' == r
  {
    match r
    case Success(more) => assert done == [] ==> done + more == more; Success(done + more)
    case Failure(e) => Failure(e)
  }

  lemma ThenAssociative<T, E>(a: seq<T>, b: seq<T>, r: Result<seq<T>, E>)
    ensures Then(a, Then(b, r)) == Then(a + b, r)
  {
    if r.Success? {
      assert a + (b + r.value) == a + b + r.value;
    }
  }

  /** The `for i, cleavage_site in cleavage_sites.iterrows()` loop. */
  method BuildCleavageAnnotations(table: seq<SiteRow>, annotations: seq<AnnotationRow>,
                                  distanceToGene: (seq<string>, (int, int)) -> int)
    returns (result: Result<seq<CleavageAnnotation>, SiteError>)
    ensures result == Annotations(CleavageSites(table), annotations, distanceToGene)
  {
    var sites := CleavageSites(table);
    var list: seq<CleavageAnnotation> := [];
    assert sites[0..] == sites;
    for i := 0 to |sites|
      invariant Annotations(sites, annotations, distanceToGene) == Then(list, Annotations(sites[i..], annotations, distanceToGene))
    {
      assert sites[i..][0] == sites[i] && sites[i..][1..] == sites[i + 1..];
      var site := sites[i];
      var cleavageId := site.bedChromosome;
      var range := CleavageRange(cleavageId);
      if range.None? {
        return Failure(LocationWithoutColon(cleavageId));
      }
      var annotationRange := AnnotationRange(annotations, cleavageId);
      if annotationRange.None? {
        return Failure(AnnotationNotAtRowZero(cleavageId));
      }
      var geneDistance := distanceToGene(range.value, annotationRange.value);
      var entry := CleavageAnnotation(cleavageId, site.bedChromosome, TargetingStatus(site.mismatches),
                                      GsReadsText, ClosestGeneText, geneDistance);
      assert AnnotateSite(site, annotations, distanceToGene) == Success(entry);
      var rest := Annotations(sites[i + 1..], annotations, distanceToGene);
      assert Annotations(sites[i..], annotations, distanceToGene) == Then([entry], rest);
      ThenAssociative(list, [entry], rest);
      list := list + [entry];
    }
    assert sites[|sites|..] == [];
    assert list + [] == list;
    return Success(list);
  }

  /**
   * One annotation per site, in site order, each carrying the site's id as id
   * and location and the targeting status its mismatch count gives.
   */
  lemma {:induction false} AnnotationsFollowSites(sites: seq<SiteRow>, annotations: seq<AnnotationRow>,
                                                   distanceToGene: (seq<string>, (int, int)) -> int)
    requires Annotations(sites, annotations, distanceToGene).Success?
    ensures var list := Annotations(sites, annotations, distanceToGene).value;
      && |list| == |sites|
      && forall k :: 0 <= k < |sites| ==>
           && list[k].cleavageId == sites[k].bedChromosome
           && list[k].location == sites[k].bedChromosome
           && list[k].targetingStatus == TargetingStatus(sites[k].mismatches)
           && CleavageRange(sites[k].bedChromosome).Some?
           && AnnotationRange(annotations, sites[k].bedChromosome).Some?
           && list[k].distanceClosestGene == distanceToGene(CleavageRange(sites[k].bedChromosome).value,
                                                            AnnotationRange(annotations, sites[k].bedChromosome).value)
  {
    if sites != [] {
      AnnotationsFollowSites(sites[1..], annotations, distanceToGene);
    }
  }

  /** The annotation list fails exactly when some site's iteration fails. */
  lemma {:induction false} AnnotationsFailIff(sites: seq<SiteRow>, annotations: seq<AnnotationRow>,
                                              distanceToGene: (seq<string>, (int, int)) -> int)
    ensures Annotations(sites, annotations, distanceToGene).Failure? <==>
      exists k :: 0 <= k < |sites| && AnnotateSite(sites[k], annotations, distanceToGene).Failure?
  {
    if sites != [] {
      AnnotationsFailIff(sites[1..], annotations, distanceToGene);
      if AnnotateSite(sites[0], annotations, distanceToGene).Success? {
        forall k | 1 <= k < |sites| ensures sites[k] == sites[1..][k - 1] { }
        if exists k :: 0 <= k < |sites| && AnnotateSite(sites[k], annotations, distanceToGene).Failure? {
          var k :| 0 <= k < |sites| && AnnotateSite(sites[k], annotations, distanceToGene).Failure?;
          assert AnnotateSite(sites[1..][k - 1], annotations, distanceToGene).Failure?;
        }
      }
    }
  }

  /** The on-target rows come first in the annotation list: status "On target" exactly on them. */
  lemma OnTargetAnnotationsFirst(table: seq<SiteRow>, annotations: seq<AnnotationRow>,
                                 distanceToGene: (seq<string>, (int, int)) -> int)
    requires Annotations(CleavageSites(table), annotations, distanceToGene).Success?
    ensures var list := Annotations(CleavageSites(table), annotations, distanceToGene).value;
      && |list| == |OnTargets(table)| + |OffTargets(table)|
      && forall k :: 0 <= k < |list| ==> (list[k].targetingStatus == OnTarget <==> k < |OnTargets(table)|)
  {
    var sites := CleavageSites(table);
    AnnotationsFollowSites(sites, annotations, distanceToGene);
    forall k | 0 <= k < |sites|
      ensures sites[k].mismatches == 0 <==> k < |OnTargets(table)|
    {
      PartitionMembers(table, sites[k]);
      if k < |OnTargets(table)| {
        assert sites[k] == OnTargets(table)[k];
      } else {
        assert sites[k] == OffTargets(table)[k - |OnTargets(table)|];
      }
    }
  }

  // ---------------------------------------------------------------------------
  // Per-sample processing

  /** What the run supplies for one sample: the counts of the two `samtools view | wc -l`
      pipelines, the identified table as lines and as parsed rows, and the join output. */
  datatype SampleInput = SampleInput(
    totalReads: nat, highQualityReads: nat,
    identifiedLines: seq<string>, identifiedTable: seq<SiteRow>,
    annotations: seq<AnnotationRow>)

  /** A sample entry once the per-sample loop has filled it in. */
  datatype SampleReport = SampleReport(
    name: string, condition: string, totalReads: nat, hqmr: nat,
    ontargetCount: int, offtargetCount: int, cleavageAnnotations: seq<CleavageAnnotation>)

  datatype ReportError =
    | MissingSampleData(sample: string)
    | BedConversionFailed(sample: string, bedError: GsToBed.BedError)
    /** The join output is empty, so reading it as a table has no columns to parse. */
    | EmptyAnnotations(sample: string)
    | AnnotationFailed(sample: string, siteError: SiteError)

  /** The result of one iteration of the per-sample loop. */
  function SampleResult(sample: ManifestSample, input: SampleInput,
                        distanceToGene: (seq<string>, (int, int)) -> int): Result<SampleReport, ReportError>
  {
    var table := input.identifiedTable;
    var bed := GsToBed.BedFile(input.identifiedLines);
    if bed.error.Some? then Failure(BedConversionFailed(sample.name, bed.error.value))
    else if input.annotations == [] then Failure(EmptyAnnotations(sample.name))
    else match Annotations(CleavageSites(table), input.annotations, distanceToGene)
      case Failure(e) => Failure(AnnotationFailed(sample.name, e))
      case Success(list) =>
        Success(SampleReport(sample.name, sample.condition, input.totalReads, input.highQualityReads,
          SupportSum(OnTargets(table)), SupportSum(OffTargets(table)), list))
  }

  /** One iteration of the `for sample_name, sample in samples.items()` loop. */
  method ProcessSample(sample: ManifestSample, input: SampleInput,
                       distanceToGene: (seq<string>, (int, int)) -> int)
    returns (result: Result<SampleReport, ReportError>)
    ensures result == SampleResult(sample, input, distanceToGene)
  {
    var table := input.identifiedTable;
    var ontargetCount := SupportSum(OnTargets(table));
    var offtargetCount := SupportSum(OffTargets(table));
    var _, bedError := GsToBed.ConvertToBed(input.identifiedLines);
    if bedError.Some? {
      return Failure(BedConversionFailed(sample.name, bedError.value));
    }
    if input.annotations == [] {
      return Failure(EmptyAnnotations(sample.name));
    }
    var list := BuildCleavageAnnotations(table, input.annotations, distanceToGene);
    if list.Failure? {
      return Failure(AnnotationFailed(sample.name, list.error));
    }
    return Success(SampleReport(sample.name, sample.condition, input.totalReads, input.highQualityReads,
                                ontargetCount, offtargetCount, list.value));
  }

  /** A filled-in sample reconciles: its two counts add up to the classified rows' support
      and it has one annotation per classified row. */
  lemma SampleReconciles(sample: ManifestSample, input: SampleInput,
                         distanceToGene: (seq<string>, (int, int)) -> int)
    requires SampleResult(sample, input, distanceToGene).Success?
    ensures var r := SampleResult(sample, input, distanceToGene).value;
      && r.name == sample.name && r.condition == sample.condition
      && input.annotations != []
      && r.ontargetCount + r.offtargetCount == SupportSum(Classified(input.identifiedTable))
      && |r.cleavageAnnotations| == |Classified(input.identifiedTable)|
  {
    var table := input.identifiedTable;
    SupportSumsAddUp(table);
    CleavageSiteCount(table);
    AnnotationsFollowSites(CleavageSites(table), input.annotations, distanceToGene);
  }

  /** The per-sample loop over all samples, stopping at the first error. */
  function SampleReports(samples: seq<ManifestSample>, inputs: map<string, SampleInput>,
                         distanceToGene: (seq<string>, (int, int)) -> int): Result<seq<SampleReport>, ReportError>
  {
    if samples == [] then Success([])
    else if samples[0].name !in inputs then Failure(MissingSampleData(samples[0].name))
    else match SampleResult(samples[0], inputs[samples[0].name], distanceToGene)
      case Failure(e) => Failure(e)
      case Success(r) =>
        match SampleReports(samples[1..], inputs, distanceToGene)
        case Failure(e) => Failure(e)
        case Success(rest) => Success([r] + rest)
  }

  /** One step of the per-sample loop: the head sample's result, then the rest's. */
  lemma SampleReportsStep(samples: seq<ManifestSample>, i: nat, inputs: map<string, SampleInput>,
                          distanceToGene: (seq<string>, (int, int)) -> int)
    requires i < |samples|
    ensures samples[i].name !in inputs ==>
      SampleReports(samples[i..], inputs, distanceToGene) == Failure(MissingSampleData(samples[i].name))
    ensures samples[i].name in inputs ==>
      var head := SampleResult(samples[i], inputs[samples[i].name], distanceToGene);
      SampleReports(samples[i..], inputs, distanceToGene)
        == if head.Failure? then Failure(head.error)
           else Then([head.value], SampleReports(samples[i + 1..], inputs, distanceToGene))
  {
    assert samples[i..][0] == samples[i] && samples[i..][1..] == samples[i + 1..];
  }

  /** On success there is one filled-in entry per sample, in manifest order. */
  lemma {:induction false} SampleReportsFollowSamples(samples: seq<ManifestSample>, inputs: map<string, SampleInput>,
                                                      distanceToGene: (seq<string>, (int, int)) -> int)
    requires SampleReports(samples, inputs, distanceToGene).Success?
    ensures var reports := SampleReports(samples, inputs, distanceToGene).value;
      && |reports| == |samples|
      && forall k :: 0 <= k < |samples| ==>
           && samples[k].name in inputs
           && SampleResult(samples[k], inputs[samples[k].name], distanceToGene) == Success(reports[k])
  {
    if samples != [] {
      SampleReportsFollowSamples(samples[1..], inputs, distanceToGene);
    }
  }

  // ---------------------------------------------------------------------------
  // The report state

  /** `template_vars`: the fields `report` reads and writes. */
  class Report {
    var samples: seq<ManifestSample>
    var samplesCount: int
    var conditions: seq<Condition>
    var totalReads: int
    var totalCleaved: int
    var sampleReports: seq<SampleReport>

    ghost predicate Valid()
      reads this
    {
      DistinctNames(samples)
    }

    /** The state right after the manifest is loaded. */
    constructor (samples: seq<ManifestSample>, conditions: seq<Condition>)
      requires DistinctNames(samples)
      ensures Valid()
      ensures this.samples == samples && this.conditions == conditions
      ensures samplesCount == 0 && totalReads == 0 && totalCleaved == 0 && sampleReports == []
    {
      this.samples := samples;
      this.conditions := conditions;
      samplesCount, totalReads, totalCleaved, sampleReports := 0, 0, 0, [];
    }

    /** Record `samples_count`, then delete the control entry if there is one. */
    method RemoveControl()
      requires Valid()
      modifies this`samples, this`samplesCount
      ensures Valid()
      ensures samplesCount == |old(samples)|
      ensures samples == WithoutControl(old(samples))
      ensures ControlFree(samples)
      ensures |samples| == if ControlFree(old(samples)) then samplesCount else samplesCount - 1
    {
      samplesCount := |samples|;
      var k := IndexOfName(samples, ControlName);
      if k.Some? {
        DeleteControlEntry(samples, k.value);
        samples := samples[..k.value] + samples[k.value + 1..];
      } else {
        WithoutControlOfControlFree(samples);
      }
      WithoutControlKeepsDistinct(old(samples));
      WithoutControlIsControlFree(old(samples));
    }

    /** `total_reads` and `total_cleaved` from the line counts the run supplies. */
    method SetGlobalStats(consolidatedLines: nat, identifiedLines: nat, controlLines: nat)
      requires Valid()
      modifies this`totalReads, this`totalCleaved
      ensures Valid()
      ensures totalReads == consolidatedLines
      ensures totalCleaved == TotalCleaved(identifiedLines, controlLines, samplesCount)
    {
      totalReads := consolidatedLines;
      totalCleaved := identifiedLines - controlLines - (samplesCount - 1);
    }

    /** Reset and recount every condition's `count` over the current samples. */
    method CountConditions()
      requires Valid()
      modifies this`conditions
      ensures Valid()
      ensures |conditions| == |old(conditions)|
      ensures forall i :: 0 <= i < |conditions| ==> conditions[i] == Recount(old(conditions)[i], samples)
    {
      for i := 0 to |conditions|
        invariant |conditions| == |old(conditions)|
        invariant forall k :: 0 <= k < i ==> conditions[k] == Recount(old(conditions)[k], samples)
        invariant forall k :: i <= k < |conditions| ==> conditions[k] == old(conditions)[k]
      {
        var key := conditions[i].key;
        conditions := conditions[i := conditions[i].(count := 0)];
        for j := 0 to |samples|
          invariant |conditions| == |old(conditions)|
          invariant conditions[i] == old(conditions)[i].(count := SamplesWithCondition(samples[..j], key))
          invariant forall k :: 0 <= k < i ==> conditions[k] == Recount(old(conditions)[k], samples)
          invariant forall k :: i < k < |conditions| ==> conditions[k] == old(conditions)[k]
        {
          assert samples[..j + 1][..j] == samples[..j];
          if samples[j].condition == key {
            conditions := conditions[i := conditions[i].(count := conditions[i].count + 1)];
          }
        }
        assert samples[..|samples|] == samples;
      }
    }

    /** Fill in every sample; the entries replace `samples` only if no sample failed. */
    method ProcessSamples(inputs: map<string, SampleInput>, distanceToGene: (seq<string>, (int, int)) -> int)
      returns (error: Option<ReportError>)
      requires Valid()
      modifies this`sampleReports
      ensures Valid()
      ensures SampleReports(samples, inputs, distanceToGene).Success? ==>
        error == None && sampleReports == SampleReports(samples, inputs, distanceToGene).value
      ensures SampleReports(samples, inputs, distanceToGene).Failure? ==>
        error == Some(SampleReports(samples, inputs, distanceToGene).error) && sampleReports == old(sampleReports)
    {
      var reports: seq<SampleReport> := [];
      assert samples[0..] == samples;
      for i := 0 to |samples|
        invariant SampleReports(samples, inputs, distanceToGene) == Then(reports, SampleReports(samples[i..], inputs, distanceToGene))
        invariant sampleReports == old(sampleReports)
      {
        SampleReportsStep(samples, i, inputs, distanceToGene);
        var name := samples[i].name;
        if name !in inputs {
          return Some(MissingSampleData(name));
        }
        var r := ProcessSample(samples[i], inputs[name], distanceToGene);
        if r.Failure? {
          return Some(r.error);
        }
        ThenAssociative(reports, [r.value], SampleReports(samples[i + 1..], inputs, distanceToGene));
        reports := reports + [r.value];
      }
      assert samples[|samples|..] == [];
      assert reports + [] == reports;
      sampleReports := reports;
      return None;
    }

    /** The data steps of `report`, in source order. */
    method Generate(consolidatedLines: nat, identifiedLines: nat, controlLines: nat,
                    inputs: map<string, SampleInput>, distanceToGene: (seq<string>, (int, int)) -> int)
      returns (error: Option<ReportError>)
      requires Valid()
      modifies this
      ensures Valid()
      ensures samplesCount == |old(samples)| && samples == WithoutControl(old(samples))
      ensures totalReads == consolidatedLines
      ensures totalCleaved == TotalCleaved(identifiedLines, controlLines, |old(samples)|)
      ensures |conditions| == |old(conditions)|
      ensures forall i :: 0 <= i < |conditions| ==> conditions[i] == Recount(old(conditions)[i], samples)
      ensures SampleReports(samples, inputs, distanceToGene).Success? ==>
        error == None && sampleReports == SampleReports(samples, inputs, distanceToGene).value
      ensures SampleReports(samples, inputs, distanceToGene).Failure? ==>
        error == Some(SampleReports(samples, inputs, distanceToGene).error) && sampleReports == old(sampleReports)
    {
      RemoveControl();
      SetGlobalStats(consolidatedLines, identifiedLines, controlLines);
      CountConditions();
      error := ProcessSamples(inputs, distanceToGene);
    }
  }
}
