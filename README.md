# GeL2MDT: a Dafny model of the case-handling core

GeL2MDT is a Django web application that clinical scientists use to prepare
Genomics England (GeL) rare-disease and cancer cases for multidisciplinary
team (MDT) meetings. Cases arrive as interpretation requests and reports from
the CIP-API. The application turns them into database rows:

- reports (`GELInterpretationReport`), versioned per interpretation-request family;
- proband variants, SVs and STRs, with their transcripts;
- family details, MDT linkages and validation statuses.

Its views, forms, background tasks and exports read and change those rows.

This project models the rules these components follow:

- `gelweb/gel2mdt/database_utils/case_handler.py`: parsing of interpreted-genome
  variants, SVs and STRs (tiers, the tiering-version gate, numbering,
  copy numbers); family and de-novo detection; inheritance; the
  de-duplication of proband variants; the case max tier; the genes failing
  coverage; SQL quote escaping; the single-row database lookup.
- `gelweb/gel2mdt/models.py`: the versioning `save` of a report; the latest
  cases per family; transcript selection and lookup; creation of rare-disease
  and cancer reports.
- `gelweb/gel2mdt/views.py`: usernames; the validation AJAX view; the
  transcript-selection view; the MDT tallies; the variant list with its report
  creation; adding and removing a report from an MDT; deleting an MDT.
- `gelweb/gel2mdt/forms.py`: group permissions; form enabling; the GELIR form
  save; the DNA, GMC and GEL-id cleaners; the rare-disease MDT form save.
- `gelweb/gel2mdt/tasks.py`: the admin group and GMC registration; the
  clinical-report version search; the demographics and clinician update; the
  report and proband history with its JSON diff.
- `gelweb/gel2mdt/exports.py`: the MDT export (pre-check, HGVS fields, row
  layout); the monthly not-completed summary; the GTAB sections; the outcome
  template; the NPF letter's clinician surname and gender.

## How the model is built

- The database is the class `Tables.Database`. It has one `seq` field per
  table, in primary-key order, and `nextId` for the next primary key.
- Every operation that writes to the database is a method on that class
  with a `modifies` clause. It is proved to leave the tables as a
  specification function of the old tables says.
- Objects whose methods update their own fields are classes. These are
  `CaseFamilyState`, `CaseModel`, `EditForm`, `DemographicsUpdater` and
  `ReportHistoryFormatter`.
- The loops of the modelled operations are methods with a `while` or `for`
  loop. Their invariants tie each loop to a recursive specification
  function, and lemmas then prove what those functions mean. A few loops
  whose result only feeds a larger computation are modelled by their
  recursive function alone.
- Exceptions are `Err` values, and the error names the Python exception
  that a code path raises. A constructor that can raise is modelled as a
  static method returning `Result` (`CaseModels.CaseModel.Init`).
- Network, LabKey, CIP-API, clock and e-mail are not called. Their answers
  are parameters: rows, a reply function, or `now`.

## Model

| member | source | states |
|---|---|---|
| CaseIngest.RequestIdSplits | gelweb/gel2mdt/database_utils/case_handler.py:128-130 | The request id `irId-version` splits on its dash back into exactly that id and that version. |
| CaseIngest.LatestStatus | gelweb/gel2mdt/database_utils/case_handler.py:233-238 | The latest status exists exactly when the status list is non-empty; otherwise an IndexError. |
| CaseIngest.LatestStatusAppend | gelweb/gel2mdt/database_utils/case_handler.py:237-238 | A status appended last is the one returned. |
| CaseIngest.TierValue | gelweb/gel2mdt/database_utils/case_handler.py:256-260 | A tier read from the last character of a tier (or domain) field is a single digit. |
| CaseIngest.MinTierFails | gelweb/gel2mdt/database_utils/case_handler.py:254-260 | The variant's tier fails with ValueError exactly when some report event has a tier field whose last character is not a digit. |
| CaseIngest.MinTierNone | gelweb/gel2mdt/database_utils/case_handler.py:252-265 | A tier that does not fail is None exactly when no report event carries a tier. |
| CaseIngest.MinTierLeast | gelweb/gel2mdt/database_utils/case_handler.py:252-265 | A tier that is found is the tier of some event and no greater than any event's tier: the minimum. |
| CaseIngest.VariantMinTier | gelweb/gel2mdt/database_utils/case_handler.py:252-265 | The event loop, with its variable `tier` carried over between events, computes that minimum. |
| CaseIngest.MinTierErrorExtends | gelweb/gel2mdt/database_utils/case_handler.py:254-260 | Once a prefix of the events fails, the whole list fails with the same error. |
| CaseIngest.ParseIgVariants | gelweb/gel2mdt/database_utils/case_handler.py:249-296 | The variant loop computes the in-order parse of the variant list from the given case list and count. The parse stops at the first error. |
| CaseIngest.ParseVariant | gelweb/gel2mdt/database_utils/case_handler.py:251-295 | One pass of the loop is the step of that parse: the tier, the filter, and the numbering of a pulled variant. |
| CaseIngest.ParseErrorExtends | gelweb/gel2mdt/database_utils/case_handler.py:249-296 | An error in a prefix of the variants is the error of the whole parse. |
| CaseIngest.ParseStepShape | gelweb/gel2mdt/database_utils/case_handler.py:281-295 | One step appends one parsed variant. A pulled variant's case record is appended, numbered one past the running count, and the count grows by one. |
| CaseIngest.ParseNumbering | gelweb/gel2mdt/database_utils/case_handler.py:249-296 | A successful parse has one entry per variant, in order, each with its tier. The case records are exactly the pulled variants, appended to the list and numbered consecutively from the starting count. |
| CaseIngest.ExomiserNeverNumbered | gelweb/gel2mdt/database_utils/case_handler.py:268-271 | Exomiser variants never become case variants: the list and the count are unchanged. |
| CaseIngest.TieringPullsBelowThree | gelweb/gel2mdt/database_utils/case_handler.py:272-277 | For the tiering service with `pullt3` unset, every variant has a tier and is pulled exactly when that tier is below 3. |
| CaseIngest.OtherSourcesPullAll | gelweb/gel2mdt/database_utils/case_handler.py:278-279 | Variants of any other service, and of clinical reports, are all pulled; the count grows by the number of variants. |
| CaseIngest.TieringVersionSkips | gelweb/gel2mdt/database_utils/case_handler.py:299 | A missing `gel-tiering` software version raises KeyError. With the dots removed, a version that is not all digits raises ValueError. Otherwise the variants are skipped exactly when the number is at most 1000. |
| CaseIngest.TieringVersionGated | gelweb/gel2mdt/database_utils/case_handler.py:299-302 | Tiering version 1.0.0 (digits 100 <= 1000) skips the SVs and STRs. |
| CaseIngest.TieringVersionParsed | gelweb/gel2mdt/database_utils/case_handler.py:299-303 | Tiering version 1.0.1.0 (digits 1010 > 1000) parses them. |
| CaseIngest.TieringVersionInvalid | gelweb/gel2mdt/database_utils/case_handler.py:299 | A version that is not digits once the dots are removed raises ValueError. |
| CaseIngest.LastTiered | gelweb/gel2mdt/database_utils/case_handler.py:305-308 | The index of the last event with a non-empty tier, with none after it; none exactly when no event has a tier. |
| CaseIngest.LastTieredEvent | gelweb/gel2mdt/database_utils/case_handler.py:305-308 | The SV event loop, where each truthy tier overwrites `max_tier`, finds that last tiered event. |
| CaseIngest.ParseSv | gelweb/gel2mdt/database_utils/case_handler.py:304-319 | One SV's loop body equals that SV's outcome: `max_tier` from its last tiered event and a case record when it has one. |
| CaseIngest.ParseSvs | gelweb/gel2mdt/database_utils/case_handler.py:303-321 | One outcome per SV, in order; the case list grows by exactly their case records. |
| CaseIngest.ParseIgSvs | gelweb/gel2mdt/database_utils/case_handler.py:298-322 | The result fails exactly when the version gate fails. When gated, every SV is uninteresting and the list is unchanged. Otherwise each SV gets its own outcome and the list grows by their case records. |
| CaseIngest.SvInterestingIffTiered | gelweb/gel2mdt/database_utils/case_handler.py:304-309 | An SV gets a case record exactly when one of its events has a tier. Its `max_tier` is the tier of the last such event. |
| CaseIngest.LastStrTiered | gelweb/gel2mdt/database_utils/case_handler.py:346-351 | The same last-tiered-event search over an STR's events. |
| CaseIngest.LastMember | gelweb/gel2mdt/database_utils/case_handler.py:330-337 | The last family member with a relation, if any; none exactly when no member has it. |
| CaseIngest.ParentIds | gelweb/gel2mdt/database_utils/case_handler.py:329-337 | The family loop yields the GEL ids of the last Mother and the last Father. |
| CaseIngest.HasShortCallMeaning | gelweb/gel2mdt/database_utils/case_handler.py:352-361 | The call loop raises exactly when some call of the proband or a parent has fewer than two copy readings. |
| CaseIngest.LastCallOf | gelweb/gel2mdt/database_utils/case_handler.py:352-361 | The index of the last call of a participant; none exactly when the participant has no call. |
| CaseIngest.StrCopies | gelweb/gel2mdt/database_utils/case_handler.py:352-361 | The call loop raises IndexError exactly on a short call. Otherwise each participant's copy numbers are the first two readings of their last call. |
| CaseIngest.CopiesStep | gelweb/gel2mdt/database_utils/case_handler.py:353-361 | A call of the participant replaces the copies recorded so far; any other call leaves them. |
| CaseIngest.ParseStr | gelweb/gel2mdt/database_utils/case_handler.py:338-376 | One STR's loop body equals the STR's outcome (tier, inheritance fields, copies, case record). |
| CaseIngest.ParseStrs | gelweb/gel2mdt/database_utils/case_handler.py:338-377 | The STR loop computes the in-order parse of the STRs. |
| CaseIngest.StrsSpecFails | gelweb/gel2mdt/database_utils/case_handler.py:338-377 | Parsing the STRs fails exactly when one of them fails. |
| CaseIngest.StrsSpecValues | gelweb/gel2mdt/database_utils/case_handler.py:338-377 | A successful parse gives each STR its own outcome, in order. |
| CaseIngest.ParseIgStrs | gelweb/gel2mdt/database_utils/case_handler.py:324-377 | A gate error propagates, and a gated list leaves every STR uninteresting. Otherwise the parents come from the family, the STRs are parsed, and the case list grows by their case records. |
| CaseAttributes.DetermineInheritance | gelweb/gel2mdt/database_utils/case_handler.py:1382-1405 | The inheritance is always one of `de_novo`, `inherited` or `unknown`. |
| CaseAttributes.InheritanceByTests | gelweb/gel2mdt/database_utils/case_handler.py:1388-1405 | On any two strings: de novo when both are `reference_homozygous`. Otherwise inherited when either passes a substring test. Otherwise unknown. |
| CaseAttributes.ZygosityNameTests | gelweb/gel2mdt/database_utils/case_handler.py:1392-1398 | A zygosity name passes the `heterozygous`/`alternate` substring tests exactly when it carries an alternate allele. |
| CaseAttributes.ReferenceHomozygousName | gelweb/gel2mdt/database_utils/case_handler.py:1388 | Only the reference-homozygous zygosity has that name. |
| CaseAttributes.InheritanceMatchesCarriers | gelweb/gel2mdt/database_utils/case_handler.py:1388-1405 | On real zygosity values: de novo exactly when both parents are reference-homozygous. Otherwise inherited exactly when some parent carries an alternate allele. Otherwise unknown. |
| CaseAttributes.LastCall | gelweb/gel2mdt/database_utils/case_handler.py:716-720 | The index of the last call a selector takes, with none after it. |
| CaseAttributes.ParentZygosities | gelweb/gel2mdt/database_utils/case_handler.py:714-720 | The call loop, which matches the mother before the father, gives the zygosity of each parent's last call, or `unknown`. |
| CaseAttributes.FindParents | gelweb/gel2mdt/database_utils/case_handler.py:692-696 | The member loop keeps the last Mother and the last Father. |
| CaseAttributes.AnyDeNovo | gelweb/gel2mdt/database_utils/case_handler.py:735-739 | The search, which stops at the first hit, is true exactly when some variant is de novo for the parents. |
| CaseAttributes.CaseFamilyState.GetFamily | gelweb/gel2mdt/database_utils/case_handler.py:682-753 | The parents are the last Mother and Father. The case is a trio exactly when both are sequenced. It has a de-novo variant exactly when it is a trio and some variant is de novo. The family id is chosen by sample type. Any other sample type gives UnboundLocalError. |
| CaseAttributes.DeNovoNeedsBothParents | gelweb/gel2mdt/database_utils/case_handler.py:716-733 | A de-novo call needs a reference-homozygous call from the mother and from the father. |
| CaseAttributes.NoTrioWithoutBothParents | gelweb/gel2mdt/database_utils/case_handler.py:698-702 | A family without a sequenced Mother is never a trio. |
| CaseAttributes.EntryFor | gelweb/gel2mdt/database_utils/case_handler.py:1309-1317 | The matched variant entry has the variant's coordinates; none exactly when no entry matches. |
| CaseAttributes.DedupProbandVariants | gelweb/gel2mdt/database_utils/case_handler.py:1349-1358 | The loop keeps a processed variant exactly when its variant entry was not seen before. |
| CaseAttributes.ProcessProbandVariants | gelweb/gel2mdt/database_utils/case_handler.py:1279-1358 | Fails exactly when processing some raw variant fails. Otherwise the result is the de-duplication of the per-variant results, one per raw variant. |
| CaseAttributes.DedupProbandVariantsProperties | gelweb/gel2mdt/database_utils/case_handler.py:1349-1358 | The de-duplicated list holds every variant entry of the input exactly once, in first-occurrence order, and only input variants. |
| CaseAttributes.GetIrMaxTier | gelweb/gel2mdt/database_utils/case_handler.py:1091-1095 | The fold of `get_ir` over the variants' tiers computes the case max tier. |
| CaseAttributes.LeastTruthyTierIsLeast | gelweb/gel2mdt/database_utils/case_handler.py:1092-1095 | The least truthy tier is one of the truthy tiers and no truthy tier is below it. It is none exactly when no tier is truthy. |
| CaseAttributes.CaseMaxTierBounds | gelweb/gel2mdt/database_utils/case_handler.py:1091-1095 | The case max tier is positive and at most 3. It is 3 or one of the variants' tiers, and no more than any truthy variant tier. |
| CaseAttributes.FalsyTierIgnored | gelweb/gel2mdt/database_utils/case_handler.py:1093 | A variant tier of 0 or None never lowers the case max tier. |
| CaseAttributes.TrailingJoinIsJoin | gelweb/gel2mdt/database_utils/case_handler.py:1047-1049 | Each gene followed by `, ` is the joined list plus one trailing separator, which `[:-2]` removes. |
| CaseAttributes.CommaList | gelweb/gel2mdt/database_utils/case_handler.py:1046-1050 | The string loop builds the comma-separated list of genes followed by a full stop. |
| CaseAttributes.GenesFailingCoverage | gelweb/gel2mdt/database_utils/case_handler.py:1043-1050 | `genes_failing_coverage` is the sorted distinct failing genes without `SUMMARY`, joined by `, `, then `.`. |
| CaseAttributes.GenesFailingCoverageContents | gelweb/gel2mdt/database_utils/case_handler.py:1043-1050 | The listed genes are strictly sorted and are exactly the failing genes other than `SUMMARY`. With none, the string is `.`. |
| CaseModels.UnescapeEscape | gelweb/gel2mdt/database_utils/case_handler.py:1790-1796 | Doubling every quote can be undone: replacing `''` by `'` gives the original string. |
| CaseModels.EscapeQuotesLength | gelweb/gel2mdt/database_utils/case_handler.py:1790-1796 | Escaping lengthens a string by exactly its number of quotes. |
| CaseModels.EscapeAll | gelweb/gel2mdt/database_utils/case_handler.py:1790-1796 | The escaped dictionary has the same keys, with each value escaped. |
| CaseModels.EscapeAllInverse | gelweb/gel2mdt/database_utils/case_handler.py:1790-1796 | Non-string values are unchanged, and every string value can be recovered from its escaped form. |
| CaseModels.LookupOutcome | gelweb/gel2mdt/database_utils/case_handler.py:2125-2134 | More than one row raises ValueError. No row gives none. Exactly one row gives that row. |
| CaseModels.CaseModel.constructor | gelweb/gel2mdt/database_utils/case_handler.py:1780-1784 | The first half of `__init__`: both dictionaries start as the attributes, the second one escaped. No entry has been looked up yet. |
| CaseModels.CaseModel.Init | gelweb/gel2mdt/database_utils/case_handler.py:1780-1788 | All of `__init__`. More than one matching row makes construction fail with the lookup's ValueError. Otherwise a new case model holds the attributes and their escaped copy, and its entry is the row found, or none. |
| CaseModels.CaseModel.StringEscapeModelAttributes | gelweb/gel2mdt/database_utils/case_handler.py:1790-1796 | The escaped copy is escaped in place; the original copy and the entry are untouched. |
| CaseModels.CaseModel.CheckFoundInDb | gelweb/gel2mdt/database_utils/case_handler.py:2113-2136 | The outcome is the single-row lookup. On success it is stored as the entry; on error the entry is unchanged. |
| ReportVersions.LatestIndex | gelweb/gel2mdt/models.py:389 | `latest('polled_at_datetime')`: a report of the family whose polling time no other report of the family exceeds. Of equal times, the model takes the first in table order. |
| ReportVersions.Repoint | gelweb/gel2mdt/models.py:428-442 | Rows pointing at the old report point at the new one; ids and contents are unchanged. |
| ReportVersions.RepointEmpties | gelweb/gel2mdt/models.py:428-442 | After re-pointing to a different report, no row is left on the old one, and every row that was on it now points at the new one. |
| ReportVersions.RepointRows | gelweb/gel2mdt/models.py:428-442 | The row-by-row loop computes that re-pointing. |
| ReportVersions.Save | gelweb/gel2mdt/models.py:381-446 | `save` leaves the report, MDT-link, proband-variant and comment tables as the save specification says. Every key stays below `nextId`. |
| ReportVersions.SaveFirstVersion | gelweb/gel2mdt/models.py:444-446 | The first report of a family is version 1 and becomes its only and latest report. Earlier rows and all child tables are unchanged. |
| ReportVersions.SaveOverwrite | gelweb/gel2mdt/models.py:390-412 | An overwrite adds no row and keeps every family's count. The latest row keeps its key but takes all the caller's fields and the polling time. Other rows are unchanged. |
| ReportVersions.OverwriteStaysLatest | gelweb/gel2mdt/models.py:389-412 | With a clock that has not gone back, the overwritten row stays the latest one. |
| ReportVersions.SaveNewVersion | gelweb/gel2mdt/models.py:413-427 | A new version is one higher than the latest and inherits its workflow fields. It keeps the caller's content, gets a fresh key, and is added after every existing row. |
| ReportVersions.SaveNewVersionRepoints | gelweb/gel2mdt/models.py:428-442 | After a new version, no MDT linkage, proband variant or comment is left on the previous latest report, and no such row is added or lost. |
| ReportVersions.NewVersionBecomesLatest | gelweb/gel2mdt/models.py:413-427 | A new version polled after every earlier version becomes the family's latest. |
| ReportVersions.KeptUnique | gelweb/gel2mdt/models.py:265-273 | Two kept rows of the same family are the same row. |
| ReportVersions.KeptIsKept | gelweb/gel2mdt/models.py:265-273 | Every row of the result is a kept row of the table. |
| ReportVersions.LatestCasesOnePerFamily | gelweb/gel2mdt/models.py:261-275 | `latest_cases_by_sample_type`: exactly one row for each family that has a row of the sample type, none for other families, and the kept row has the highest version. |
| ProbandVariants.SelectRow | gelweb/gel2mdt/models.py:693-705 | For a targeted variant, a row becomes selected exactly when it is for the chosen transcript. Rows of other variants are unchanged. |
| ProbandVariants.SelectedAfter | gelweb/gel2mdt/models.py:693-705 | Every row is updated on its own, and no row is added or removed. |
| ProbandVariants.DeselectThenSelect | gelweb/gel2mdt/models.py:694-696 | Deselecting all of a variant's rows and then selecting the chosen transcript's rows is the same as selecting just those rows. |
| ProbandVariants.SelectedAfterCompose | gelweb/gel2mdt/models.py:697-705 | Selecting for two sets of variants in a row is the same as selecting for their union. |
| ProbandVariants.NamesIgnoreSelection | gelweb/gel2mdt/models.py:697-705 | Selecting never changes which transcript names a variant has. |
| ProbandVariants.SelectOnly | gelweb/gel2mdt/models.py:694-696 | The two updates for one variant change the table to that selection. |
| ProbandVariants.SelectTranscript | gelweb/gel2mdt/models.py:693-705 | `select_transcript` selects the chosen transcript for this variant and for every variant of its report with a transcript of the same name. |
| ProbandVariants.SelectTranscriptEffect | gelweb/gel2mdt/models.py:693-705 | Afterwards the targeted variants have exactly the chosen transcript's rows selected. Keys and links of every row are unchanged. |
| ProbandVariants.SelectedOf | gelweb/gel2mdt/models.py:708-709 | The selected rows of a variant are exactly its rows with `selected` set. |
| ProbandVariants.SelectedOfAtMostOne | gelweb/gel2mdt/models.py:708-709 | When no two rows of a variant are selected, the selection has at most one row. |
| ProbandVariants.GetTranscript | gelweb/gel2mdt/models.py:716-721 | A transcript exactly when one row is selected, and then it is that row's transcript. |
| ProbandVariants.GetTranscriptVariant | gelweb/gel2mdt/models.py:707-714 | None exactly when not one row is selected. A found transcript variant is of the selected transcript and this variant. `get` raises when there is none or several. |
| ProbandVariants.SelectThenGet | gelweb/gel2mdt/models.py:693-721 | After selecting a transcript a variant has one row of, exactly one row is selected and `get_transcript` returns that transcript. |
| ProbandVariants.RareDiseaseReportOf | gelweb/gel2mdt/models.py:737-742 | The variant's report is a row of the table that belongs to it. |
| ProbandVariants.CreateRareDiseaseReport | gelweb/gel2mdt/models.py:736-742 | An existing report is returned and no key is spent. Otherwise a new report with the next key is appended. |
| ProbandVariants.RareDiseaseReportCountZero | gelweb/gel2mdt/models.py:737 | A variant has no report exactly when it counts none. |
| ProbandVariants.RareDiseaseReportIdempotent | gelweb/gel2mdt/models.py:736-742 | A second creation changes nothing. Afterwards the variant has a report, and at most one was added. |
| ProbandVariants.RareDiseaseReportsGrow | gelweb/gel2mdt/models.py:736-742 | Creation keeps every existing row. Exactly this variant gains a report, if it lacked one. |
| ProbandVariants.CancerReportOf | gelweb/gel2mdt/models.py:745-750 | The variant's cancer report is a row that belongs to it. |
| ProbandVariants.CreateCancerReport | gelweb/gel2mdt/models.py:744-750 | An existing cancer report is returned. Otherwise a new one with the next key is appended. |
| ProbandVariants.CancerReportCountZero | gelweb/gel2mdt/models.py:745 | A variant has no cancer report exactly when it counts none. |
| ProbandVariants.CancerReportIdempotent | gelweb/gel2mdt/models.py:744-750 | A second creation changes nothing, and at most one report is added. |
| ProbandVariants.CancerReportsGrow | gelweb/gel2mdt/models.py:744-750 | Creation keeps every existing row; exactly this variant gains a report. |
| Views.Username | gelweb/gel2mdt/views.py:139-142 | IndexError exactly when the first name is empty. Otherwise the username is the first five letters of the surname (all of a shorter one) and the first initial, lower-cased, at most 6 characters. |
| Views.UsernameIgnoresCase | gelweb/gel2mdt/views.py:139-142 | A username has no capital letter and does not depend on how the names were capitalised. |
| Views.ValidationCode | gelweb/gel2mdt/views.py:607-616 | A caption the view's table knows gives its code; any other raises KeyError. |
| Views.ValidationKeyInvertsChoices | gelweb/gel2mdt/views.py:607-616 | The view's caption-to-code table is exactly the inverse of the model's validation choices. |
| Views.ValidationCodesDistinct | gelweb/gel2mdt/models.py:650-657 | No two validation choices share a code. |
| Views.Validated | gelweb/gel2mdt/views.py:620-624 | An update sets the status and the responsible user. The time is recorded only when none was set. |
| Views.ValidationTimeSetOnce | gelweb/gel2mdt/views.py:623-624 | A later update changes status and user but keeps the first time. |
| Views.FindUser | gelweb/gel2mdt/views.py:602-605 | A found user has the name given; none exactly when no user has it. |
| Views.ResolveUser | gelweb/gel2mdt/views.py:602-605 | The only failure of resolving the responsible user is DoesNotExist. |
| Views.AjaxVariantValidation | gelweb/gel2mdt/views.py:579-642 | The view's answer and new tables are those of its specification. On any exception no table changes. |
| Views.AjaxUpdatesOneVariant | gelweb/gel2mdt/views.py:607-640 | A successful update of a proband variant sets that variant's status, user and first time, and answers with the code and user. No other row or table changes. |
| Views.AjaxErrors | gelweb/gel2mdt/views.py:602-618 | Exceptions come in the order the view meets them: unknown user, then unknown caption, then a missing row. |
| Views.FirstSelected | gelweb/gel2mdt/views.py:792-797 | The first selected row from a position on; none exactly when there is none. |
| Views.FirstPreferred | gelweb/gel2mdt/views.py:792-801 | The first selected row with a preferred transcript; none exactly when no selected row has one. |
| Views.ChoicesAfterFirst | gelweb/gel2mdt/views.py:795-801 | After the first selected row, the only further selection is the first preferred one. |
| Views.ChoicesCharacterised | gelweb/gel2mdt/views.py:792-801 | The view selects nothing when no row is selected. Otherwise it first selects the first selected row's transcript and ends on the first preferred transcript when there is one. |
| Views.SelectTranscriptView | gelweb/gel2mdt/views.py:781-801 | The view applies `select_transcript` with exactly those choices, taken from the rows as first fetched. |
| MdtViews.ClassesExclusive | gelweb/gel2mdt/views.py:936-943 | Every variant is in exactly one class: important, tier 3, or neither. Without a tier it is important exactly when flagged. |
| MdtViews.CountsPartition | gelweb/gel2mdt/views.py:936-943 | A report's important, tier-3 and unclassified counts add up to its number of variants. |
| MdtViews.CountReportVariants | gelweb/gel2mdt/views.py:936-943 | The inner loop counts the report's important and tier-3 variants. |
| MdtViews.ReportsIn | gelweb/gel2mdt/views.py:918-919 | The MDT's reports are exactly the table's reports with those ids. |
| MdtViews.TallyReports | gelweb/gel2mdt/views.py:928-947 | The report loop gives every report's tallies and the first- and second-check counts. |
| MdtViews.MdtView | gelweb/gel2mdt/views.py:909-953 | `mdt_view` gives the tallies of the MDT's reports, or DoesNotExist for an unknown MDT. |
| MdtViews.CheckTalliesDisjoint | gelweb/gel2mdt/views.py:944-947 | No report is counted in both check tallies. |
| MdtViews.CheckPercentages | gelweb/gel2mdt/views.py:948-953 | Both percentages are 0 without reports. Each lies between 0 and 100, and so does their sum. |
| MdtViews.ListedVariants | gelweb/gel2mdt/views.py:1007-1016 | Listed variants belong to the report and meet the view's rule, in table order. |
| MdtViews.ListedVariantsComplete | gelweb/gel2mdt/views.py:1007-1016 | Every variant of the report that meets the rule is listed. |
| MdtViews.ListedMatchesCount | gelweb/gel2mdt/views.py:1007-1016 | The list is as long as the matching tally: important variants, or unflagged ones. |
| MdtViews.ListProbandVariants | gelweb/gel2mdt/views.py:1007-1016 | The selection loop builds that list. |
| MdtViews.EnsureVariantReports | gelweb/gel2mdt/views.py:1018-1022 | Every given variant has a report of the MDT's kind. Existing rows are kept, no other variant gains one, and the other kind is untouched. |
| MdtViews.VariantIdsOf | gelweb/gel2mdt/views.py:881 | Exactly the ids of the report's variants. |
| MdtViews.IdsAt | gelweb/gel2mdt/views.py:1018-1022 | The ids of the listed variants, in order. |
| MdtViews.MdtProbandView | gelweb/gel2mdt/views.py:994-1022 | DoesNotExist for an unknown MDT or report, with nothing created. Otherwise every listed variant gets the report its MDT's sample type calls for. |
| MdtViews.AddIrToMdt | gelweb/gel2mdt/views.py:866-888 | A POST links the report to the MDT and ensures every variant of the report has a report of the MDT's kind. Otherwise nothing changes. |
| MdtViews.Unlinked | gelweb/gel2mdt/views.py:904 | The remaining linkages are exactly those that do not match. |
| MdtViews.UnlinkEffects | gelweb/gel2mdt/views.py:892-905 | Removing one report leaves the MDT's other reports linked. Deleting the MDT leaves it none and touches no other MDT. |
| MdtViews.RemoveIrFromMdt | gelweb/gel2mdt/views.py:892-905 | A POST removes exactly the linkages of that report to that MDT and redirects to the MDT's page. |
| MdtViews.WithoutMdt | gelweb/gel2mdt/views.py:1359 | The MDT table without exactly that MDT. |
| MdtViews.DeleteMdt | gelweb/gel2mdt/views.py:1348-1361 | A POST removes the MDT's linkages and then the MDT. Any other request ends in UnboundLocalError with nothing changed. |
| Tables.Revalidated | gelweb/gel2mdt/forms.py:518-520 | The MDT form's update sets the status. The time is recorded only when none was set. |
| Forms.HasGroupPermission | gelweb/gel2mdt/forms.py:32-39 | The group loop computes the permission over the user's groups in order. |
| Forms.GroupPermissionMeaning | gelweb/gel2mdt/forms.py:32-39 | With well-formed groups and a real flag, true exactly when some group grants it. |
| Forms.FormEnabledMeaning | gelweb/gel2mdt/forms.py:81-93 | A form is enabled with `can_edit_completed_proband`, or with its own permission on a case not completed. For a completed case only the first counts. |
| Forms.EditForm.Restrict | gelweb/gel2mdt/forms.py:192-204 | A form the user may not edit has every field disabled; otherwise the disabled set is unchanged. |
| Forms.WithGelirData | gelweb/gel2mdt/forms.py:206-214 | The six form fields are copied in, and every other field is kept. |
| Forms.GelirFormSave | gelweb/gel2mdt/forms.py:206-215 | `GELIRForm.save` is the report save with overwrite, on the copied instance. |
| Forms.GelirSaveOverwrites | gelweb/gel2mdt/forms.py:206-215 | Saving the form creates no version. The family's latest row takes the form's workflow fields, and no other row changes. |
| Forms.CleanDna | gelweb/gel2mdt/forms.py:584-596 | The stripped value is accepted exactly when it holds only A, T, G and C; anything else is refused with "Not DNA sequence". |
| Forms.CleanDnaStable | gelweb/gel2mdt/forms.py:584-596 | The empty sequence is accepted, and an accepted sequence is accepted again unchanged. |
| Forms.CleanGmc | gelweb/gel2mdt/forms.py:250-255 | A missing or empty code is refused; any other is stripped. |
| Forms.CleanGmcStable | gelweb/gel2mdt/forms.py:250-255 | A non-empty cleaned code is cleaned to itself. |
| Forms.CleanGelIdAsWritten | gelweb/gel2mdt/forms.py:627-631 | As written, every id passes. An id that looks like a GEL id is kept; any other turns into None. |
| Forms.CleanGelId | gelweb/gel2mdt/forms.py:627-631 | Corrected: exactly the ids that do not look like GEL ids are refused, and the others are kept. |
| Forms.GelIdNotRejected | gelweb/gel2mdt/forms.py:627-631 | As written, `abc` is accepted as None where the corrected cleaner refuses it. |
| Forms.CleanGelIdAgrees | gelweb/gel2mdt/forms.py:627-631 | On every id the corrected cleaner accepts, the two agree. |
| Forms.RareDiseaseMdtFormSave | gelweb/gel2mdt/forms.py:509-524 | The form save fails exactly when its specification fails, and then changes nothing. Otherwise it leaves the statuses the specification gives. |
| Forms.MdtFormPrecedence | gelweb/gel2mdt/forms.py:509-524 | A report of a proband variant changes only that variant's validation, with the chosen status and any time already set kept. The SV and STR tables are unchanged. |
| Tasks.FindGroup | gelweb/gel2mdt/tasks.py:57 | The first group with the name; none exactly when no group has it. |
| Tasks.WithAdminGroup | gelweb/gel2mdt/tasks.py:55-79 | "ADMIN GROUP" is fetched or created and given every permission. No other group changes. |
| Tasks.AdminGroupGrantsAll | gelweb/gel2mdt/tasks.py:55-79 | The admin group passes `has_group_permission` for every flag. |
| Tasks.AdminGroupWellFormed | gelweb/gel2mdt/tasks.py:57-79 | Well-formed groups stay well formed. |
| Tasks.RegisterGmcs | gelweb/gel2mdt/tasks.py:82-89 | After the loop, the GMC names are exactly the existing ones plus every non-empty proband GMC. |
| Tasks.Max | gelweb/gel2mdt/tasks.py:111 | The largest version is in the list and at least every element. |
| Tasks.FirstVersion | gelweb/gel2mdt/tasks.py:105-113 | None exactly without a clinical report. The version is 1 for an empty list, and otherwise the largest listed version. |
| Tasks.ClinicalReportVersion | gelweb/gel2mdt/tasks.py:105-135 | The version loop computes the version search. |
| Tasks.VersionFromNewestAvailable | gelweb/gel2mdt/tasks.py:115-135 | The version found is the newest one not refused, and every newer version up to the first tried was refused. |
| Tasks.VersionFromExhausted | gelweb/gel2mdt/tasks.py:115-135 | The search raises ValueError exactly when every version from 1 up was refused. |
| Tasks.FindClinician | gelweb/gel2mdt/tasks.py:611-615 | The first clinician with that name and hospital; none exactly when there is none. |
| Tasks.ClinicianChosen | gelweb/gel2mdt/tasks.py:576-628 | A clinician is set exactly when LabKey returned a row. It has that row's name and hospital, and is new only when no clinician had both. |
| Tasks.StrptimeYmd | gelweb/gel2mdt/tasks.py:707-708 | `strptime(..., "%Y/%m/%d").date()`: a result is always a date that exists. Any failure is a ValueError. |
| Tasks.StrptimeFormat | gelweb/gel2mdt/tasks.py:707-708 | Every valid date, written as `%Y/%m/%d`, is read back as that date. |
| Tasks.StrptimeRejectsForms | gelweb/gel2mdt/tasks.py:707-708 | `1990-01-01`, `01/02/1990` and the empty string raise ValueError. |
| Tasks.StrptimeRejectsMonth | gelweb/gel2mdt/tasks.py:707-708 | Month 13 raises ValueError. |
| Tasks.StrptimeRejectsDay | gelweb/gel2mdt/tasks.py:707-708 | 30 February raises ValueError. |
| Tasks.StrptimeUnpadded | gelweb/gel2mdt/tasks.py:707-708 | `1990/1/5` is 5 January 1990: month and day need no zero padding. |
| Tasks.DemographicsWritten | gelweb/gel2mdt/tasks.py:630-714 | The proband is rewritten only from a row whose surname and NHS number are known, with that row's fields. Its date of birth is the row's date text read by `strptime`. |
| Tasks.DemographicsDateChecked | gelweb/gel2mdt/tasks.py:702-710 | A date of birth that `strptime` refuses is never written: the update raises or leaves the proband alone. The outcome does not depend on the clinician, because the date is read first. |
| Tasks.DemographicsKept | gelweb/gel2mdt/tasks.py:630-714 | Without a LabKey row, or for a rare-disease proband whose identifier is not an NHS number, the proband is left alone. |
| Tasks.DemographicsUpdater.constructor | gelweb/gel2mdt/tasks.py:558-574 | The updater starts from the sample type, the clinicians and the proband, with no clinician chosen. |
| Tasks.DemographicsUpdater.UpdateClinician | gelweb/gel2mdt/tasks.py:576-628 | The chosen clinician (found or newly created) becomes the family's clinician. Without a row nothing changes. |
| Tasks.DemographicsUpdater.UpdateDemographics | gelweb/gel2mdt/tasks.py:630-714 | The proband becomes the demographics derived from LabKey. Otherwise it is left as it was, and the error, such as strptime's ValueError, is returned. |
| Tasks.FieldDiffMeaning | gelweb/gel2mdt/tasks.py:853-870 | A change is reported exactly when some field of interest differs. The listed fields are exactly those, each once. |
| Tasks.FieldDiffSymmetric | gelweb/gel2mdt/tasks.py:853-870 | The diff does not depend on which version is the newer. |
| Tasks.ChangedFields | gelweb/gel2mdt/tasks.py:866-869 | The key loop keeps exactly the keys whose values differ, in order. |
| Tasks.JsonDiff | gelweb/gel2mdt/tasks.py:853-870 | `json_diff` computes that diff. |
| Tasks.EntriesMeaning | gelweb/gel2mdt/tasks.py:832-848 | One entry per version. The first is shown whole, and each later one with its diff against the one before. |
| Tasks.EntriesSnoc | gelweb/gel2mdt/tasks.py:832-837 | One more version adds one entry, diffed against the previous version. |
| Tasks.RelabelField | gelweb/gel2mdt/tasks.py:828-831 | A stored choice code is replaced by its display text. A missing key raises KeyError. |
| Tasks.RelabelAll | gelweb/gel2mdt/tasks.py:824-831 | Every version is relabelled; otherwise the first failure is the error. |
| Tasks.RelabelMeaning | gelweb/gel2mdt/tasks.py:826-831 | Relabelling succeeds exactly when both statuses are known codes. It keeps every other field and shows both statuses' display texts. |
| Tasks.ReportHistoryFormatter.constructor | gelweb/gel2mdt/tasks.py:810-821 | The formatter holds the report and proband histories. |
| Tasks.ReportHistoryFormatter.GetReportHistory | gelweb/gel2mdt/tasks.py:823-838 | The report history entries, each version relabelled, or the relabelling error. |
| Tasks.ReportHistoryFormatter.GetProbandHistory | gelweb/gel2mdt/tasks.py:840-850 | The proband history entries. |
| Exports.ReportVariants | gelweb/gel2mdt/exports.py:45 | Exactly the report's proband variants. |
| Exports.MissingFor | gelweb/gel2mdt/exports.py:43-49 | Fails exactly when a lookup raises. Otherwise it lists only the report's family, once per variant without a transcript variant, and is empty exactly when all have one. |
| Exports.MissingAllOk | gelweb/gel2mdt/exports.py:43-49 | The outer loop fails exactly when some lookup raises. |
| Exports.MissingAllFamilies | gelweb/gel2mdt/exports.py:43-49 | Without a raised lookup, the families listed are exactly those of the reports with a variant missing its transcript variant. |
| Exports.ExportCheckPasses | gelweb/gel2mdt/exports.py:43-53 | The export goes ahead exactly when every variant of every listed report has its transcript variant. |
| Exports.ExportCheckMessage | gelweb/gel2mdt/exports.py:50-53 | A failed check's message names exactly the failing families, each once. |
| Exports.PrecheckMdtExport | gelweb/gel2mdt/exports.py:43-53 | The two nested loops compute the pre-check over the database's tables. |
| Exports.PrecheckFailsAt | gelweb/gel2mdt/exports.py:43-49 | A lookup that raises after earlier ones succeeded is the pre-check's error. |
| Exports.HgvsC | gelweb/gel2mdt/exports.py:168-173 | The second `:` field; none exactly when there is no `:`. |
| Exports.HgvsP | gelweb/gel2mdt/exports.py:169-175 | The protein change is present exactly when there is a `:`. |
| Exports.HgvsSecondField | gelweb/gel2mdt/exports.py:168-175 | `transcript:change` gives the change, and also the protein change when it holds no `%3D`. |
| Exports.HgvsLaterFieldsIgnored | gelweb/gel2mdt/exports.py:168-173 | Fields after the second are ignored. |
| Exports.LinesShorter | gelweb/gel2mdt/exports.py:162-182 | At most one output line per variant. |
| Exports.LinesMeaning | gelweb/gel2mdt/exports.py:162-182 | With every variant resolved, there is one line per variant, in order. |
| Exports.PvOutput | gelweb/gel2mdt/exports.py:162-182 | The loop builds those lines. |
| Exports.LinesOf | gelweb/gel2mdt/exports.py:158-182 | Every report's lines, report by report. |
| Exports.LayoutBlocks | gelweb/gel2mdt/exports.py:188-259 | Each block belongs to a later report with variants and holds that report's lines. It starts where the previous block ends. |
| Exports.LayoutCovers | gelweb/gel2mdt/exports.py:188-259 | Every report with variants gets a block. |
| Exports.RareDiseaseRows | gelweb/gel2mdt/exports.py:188-259 | From row 2 the blocks follow without gap or overlap, one for exactly each report with variants. A block is merged exactly when it does not hold one line. |
| Exports.WriteRareDiseaseRows | gelweb/gel2mdt/exports.py:158-259 | The rare-disease branch computes that layout. |
| Exports.WriteCancerRows | gelweb/gel2mdt/exports.py:122-157 | One row per report, from row 2, in order. |
| Exports.MonthPartition | gelweb/gel2mdt/exports.py:275-302 | Each report of a month's MDTs is counted once, as completed exactly when its status is `C`. At most one participant line is written per case not completed. |
| Exports.ParticipantsShorter | gelweb/gel2mdt/exports.py:293-301 | At most one participant line per case. |
| Exports.YearSummary | gelweb/gel2mdt/exports.py:275-302 | Twelve month columns per year. |
| Exports.SummariesAt | gelweb/gel2mdt/exports.py:271-302 | Month m of year y is column 12y + m. |
| Exports.MonthlyNotCompleted | gelweb/gel2mdt/exports.py:267-304 | The 48 columns from January 2017 to December 2020, in order. |
| Exports.MonthsOfYear | gelweb/gel2mdt/exports.py:276-302 | The month loop of one year gives its twelve columns. |
| Exports.MonthOf | gelweb/gel2mdt/exports.py:277-302 | One month's loops build its column. |
| Exports.SortCases | gelweb/gel2mdt/exports.py:280-286 | A month's reports, sorted into completed and not completed. |
| Exports.SortReports | gelweb/gel2mdt/exports.py:282-286 | One MDT's reports, sorted by status. |
| Exports.ParticipantLines | gelweb/gel2mdt/exports.py:293-301 | The participant lines of the cases not completed. |
| Exports.GtabHgvsIndexError | gelweb/gel2mdt/exports.py:735-740 | As written, `c.76A>T` raises IndexError; corrected, it gives itself. |
| Exports.GtabHgvs | gelweb/gel2mdt/exports.py:735-750 | Corrected HGVS field: none exactly for an empty value. A value without `:` gives itself, and one with `:` its second field. Wherever the original succeeds, the two agree. |
| Exports.HgvsField | gelweb/gel2mdt/exports.py:735-750 | Under the rule as written, the field fails with IndexError exactly on a non-empty value without `:`. The intended rule never fails. Both give the corrected field when they succeed. |
| Exports.EntryOf | gelweb/gel2mdt/exports.py:733-759 | One entry fails exactly when the variant cannot be written. A missing transcript variant raises AttributeError, and as written an unprefixed `hgvs_c` raises IndexError. Otherwise the entry holds the count, the position and both HGVS fields. |
| Exports.SectionFromOrdered | gelweb/gel2mdt/exports.py:730-759 | Section entries are numbered consecutively and are variants of the section, in increasing position. |
| Exports.SectionFromCovers | gelweb/gel2mdt/exports.py:730-759 | Every variant of the section has an entry. |
| Exports.SectionFromFails | gelweb/gel2mdt/exports.py:730-759 | A section fails exactly when one of its variants cannot be written. That variant lacks a transcript or transcript variant or, as written, has an unprefixed HGVS value. |
| Exports.SectionFromAgrees | gelweb/gel2mdt/exports.py:730-759 | Wherever a section as written succeeds, it writes what the intended section writes. |
| Exports.SectionListed | gelweb/gel2mdt/exports.py:730-759 | A successful section lists exactly its variants, in order, numbered from 1. |
| Exports.GtabSectioning | gelweb/gel2mdt/exports.py:730-912 | Domains 0, 1 and 2 list exactly the somatic variants of that tier, and the germline section lists the others. A somatic variant of tier 3 or none is in no section. The template fails exactly when a listed variant cannot be written. |
| Exports.GtabIntended | gelweb/gel2mdt/exports.py:730-912 | As written, a listed variant with an unprefixed `hgvs_c` aborts the template. The intended template fails only on a missing transcript or transcript variant. Wherever the template as written succeeds, the two templates agree. |
| Exports.WriteGtabSection | gelweb/gel2mdt/exports.py:730-759 | One section loop, as written, computes the section with the as-written HGVS rule. |
| Exports.WriteGtabSections | gelweb/gel2mdt/exports.py:730-912 | The four section loops, as written, in order; the first failure ends the template. |
| Exports.OutcomeStep | gelweb/gel2mdt/exports.py:418-423 | A row passes exactly when transcript and transcript variant exist. A raised lookup propagates; otherwise the ValueError. |
| Exports.Passing | gelweb/gel2mdt/exports.py:418-423 | The variants before the first failure all pass. |
| Exports.OutcomeFailsAt | gelweb/gel2mdt/exports.py:418-423 | The first failing variant decides the error. |
| Exports.OutcomeCheckMeaning | gelweb/gel2mdt/exports.py:418-424 | The template is written exactly when every variant has a transcript and a transcript variant, one row each. |
| Exports.TranscriptOfSelected | gelweb/gel2mdt/models.py:707-721 | A variant with a transcript variant has a selected transcript. |
| Exports.OutcomeTablesMeaning | gelweb/gel2mdt/exports.py:418-423 | On the tables, the check passes exactly when every variant has its transcript variant. |
| Exports.CreateReportsMeaning | gelweb/gel2mdt/exports.py:424 | Creating the reports keeps every row, and afterwards exactly the variants passed (and those that had one) have a report. |
| Exports.WriteOutcomeRows | gelweb/gel2mdt/exports.py:418-438 | The loop creates the reports of the variants that passed before the first failure and returns the check's outcome. |
| Exports.ClinicianSurname | gelweb/gel2mdt/exports.py:1144-1147 | The surname is the text after the last space, or the whole name without a space. |
| Exports.ClinicianSurnameOfFullName | gelweb/gel2mdt/exports.py:1144-1147 | `first surname` gives the surname. |
| Exports.NpfGender | gelweb/gel2mdt/exports.py:1072-1089 | `male`/`female` in any case give the initial and pronoun. None or `unknown` give placeholders. Any other value raises UnboundLocalError. |

## Left out

- Network and external systems (CIP-API, LabKey, e-mail): their answers are parameters of the modelled functions.
- The clock: `now` is a parameter wherever the source calls `timezone.now()` or `datetime.now()`.
- SQL text, hashing, `poll_api`, migrations and settings: not part of the modelled rules.
- Excel and Word styling in the exports: only the rows, cells and sections are modelled.
- Floating point: the coverage threshold is not modelled; the MDT percentages are taken as exact reals.
- Python set order: the export's failing-family message uses first-occurrence order in place of set order.
- The Exomiser score loop has no effect on the result, so it is not modelled.
- The `create_rare_disease_report` methods of `ProbandSV` and `ProbandSTR` have the same shape as that of `ProbandVariant` and are not modelled separately.
- `get_preferred_transcript` and `get_selected_count` are not modelled.
- `get_ir`'s other fields (has_germline_variant, tumour_content, assembly) are not modelled; only the max-tier fold is.
- Tasks.ClinicalReportVersion: requires every listed version to be at least 1. A version of 0 or below would make the source's loop run forever.
- Views.SelectTranscriptView: the rows are those fetched before the loop, as Django caches the queryset.
- Tasks.DemographicsUpdater.UpdateDemographics: when `strptime` raises, the source has already set the NHS number, surname and forename on the in-memory proband object without saving it. The model keeps only the saved row, which is unchanged.
- ReportVersions.LatestIndex: between reports with the same polling time, Django's `latest()` returns whichever row the database orders first. The model fixes that choice to the first in table order.
- Views.Username: `lower()` is modelled for ASCII letters only (`Text.Lower`). Python also lower-cases other capitals, such as `Ö` in `Öberg`, and a few of them into two characters (`İ`). The model keeps such a capital upper-case, and for a name containing `İ` its length clause does not hold of Python's result.
- CaseIngest.TieringVersionSkips: `int()` is modelled on ASCII digits only (`Text.IsDigits`, `Text.DigitsValue`). Python also accepts surrounding whitespace, a sign, underscores between digits and non-ASCII digits, so the model raises ValueError on versions such as ` 100` that Python reads.
- Tasks.StrptimeYmd: the `%Y`, `%m` and `%d` fields are read as ASCII digits; Python's `strptime` also accepts other Unicode digits. The ValueError messages follow CPython's wording, without `repr`'s escaping of quotes in the text.
- Text.Lower, Text.Upper, Text.IsDigits and Text.DigitsValue: the string helpers are ASCII-only. This also affects the NHS-number test in `Tasks.DemographicsFor` (`upper()`) and the GEL-id test of `Forms.CleanGelId` (`isdigit()`).

## Findings

| source | as written | input that shows it | evidently intended | confidence | as-written member | corrected member |
|---|---|---|---|---|---|---|
| gelweb/gel2mdt/forms.py:627-631 | `clean_gel_id` builds a ValidationError without raising it, so a bad id is cleaned to None. | `abc` | the form refuses ids that do not look like GEL ids | not executed | Forms.CleanGelIdAsWritten | Forms.CleanGelId |
| gelweb/gel2mdt/exports.py:735-750 | the HGVS `else` branch indexes `[1]` of a one-element split, so a value without `:` raises IndexError. | `c.76A>T` | the value itself is used | not executed | Exports.GtabHgvsIndexError | Exports.GtabHgvs |
