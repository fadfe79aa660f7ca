# Verification of the zone-apply pipeline

The webhook manages DNS records in DPF for ExternalDNS. DPF replaces the records of a zone as a whole: whatever a
submission leaves out is deleted. This project models the path a change set takes through the program and proves
what the program promises about it:

- `Names`, `Scopes`, `Zones`: canonical names, containment on label boundaries, and the one rule that says which zone owns a name.
  `NameLaws` and `ScopeLaws` say the same on texts.
- `Txt`, `TxtLaws`, `TxtForms`: the TXT parser and printer, and the spelling in which values are sent.
- `Validate`, `ValidateLaws`, `Adjust`, `Discharge`: the format checks, the adjustment of records, and what these leave
  for merging to worry about.
- `Overwrites`, `Merging`, `MergeLaws`, `KeyOrder`, `EditLaws`: merge, mark, guard and compare on values, with their laws.
- `Applying`: the same pipeline as the program runs it, on arrays whose records share label maps, proved against the values.
- `Grouping`, `GroupingLaws`: a change set split by owning zone.
- `Backends`, `RunLaws`, `Convergence`: `ApplyChanges` over many zones, attempts that fail before or after they take effect, and retries.
- `Reading`, `Closure`: `Records`, and what it returns after `ApplyChanges`.
- `LockWaits`, `Errors`, `Wire`: the timer race, the classification of errors, and the wire format.
- `NoDiff`: from adjusted endpoints to the next listing.

Loops and in-place updates are methods proved against functions; the laws are lemmas about those functions.
A slice of octets is a `Text` with one character for each octet. `nil` slices and empty slices of values are the same.

`dafny verify dfyconfig.toml` checks everything. Lemmas with a precondition on recursive functions switch automatic
induction off: the hypothesis that Dafny 4.11 adds for them takes function calls on arguments of any type as well formed,
which is more than the lemma says. `hide` keeps definitions that a proof does not need from the verifier.

## Findings

- **Retries.** A change set that both deletes and writes a key can come out differently the second time. `merge` pushes
  the key of each published record (`internal/dpf/merge.go:63`) and pushes a written key again when the delete step has
  removed it from the map (`:79`, `:91`). So a key that is written into a zone that does not publish it comes out once,
  and when the change set is sent again it comes out twice and the set is submitted instead of skipped
  (`EditLaws.DeletedWriteIsNotSkipped`, in every zone that takes the change set). Exactly when a second application is
  skipped: every deleted and written key was published before, and is first written after all new keys
  (`EditLaws.SkippedAgainIff`). Over zones with distinct keys exactly this decides whether retries converge, unless a zone
  refuses its group and nothing ever succeeds (`Convergence.ConvergesIffRepeatable`). `Convergence.RetryOfReplacementDiverges`
  is a run that does not converge: a zone that publishes the SOA record of `a.` is sent one record of `b.` to delete and to create.
  The model stores what is submitted; what DPF makes of a set that repeats a key is not in the source.
- **Guard.** `guard` looks submitted names up as they are spelled, and published names in canonical form. It therefore rejects a
  correctly merged set exactly when a surviving published name is not spelled canonically (`EditLaws.GuardAcceptsSubmittedIff`),
  for example when the zone publishes `A.` (`EditLaws.GuardRefusesForeignSpelling`).
- **Backslashes.** The comment in `parseTXT` says that backslashes are protected before quoting. The code replaces pairs of
  backslashes only (`internal/provider/validate.go:262-263`, raw strings). A value without quotes keeps its octets exactly when its backslashes come in
  pairs (`TxtLaws.UnquotedKeptIffPaired`); `TxtLaws.LoneBackslashIsLost` shows `a\b` sent as `"ab"`.
- **Names.** The spelling without the last dot reads back as the same name except for the root, the absent name, and names
  whose last label ends in white space (`Names.UnqualifiedReadsBack`); see `Names.RootDoesNotReadBack` and
  `Names.TrailingBlankDoesNotReadBack`.

## Preconditions

- Zone IDs identify zone names (`IdsIdentify`), and the zone list is the same for all attempts. The result about writing and reading also needs distinct zone names.
- The results about reading need published records with distinct keys to start from. `Closure.WriteThenRead` speaks of
  in-scope change sets that validation accepted, as `ApplyChanges` passes them on.
- One application to one zone is atomic: it takes effect or not, and may be reported as failed either way.

## Model

| member | source | states |
|---|---|---|
| Names.UnqualifiedReadsBack | internal/dnsname/name.go:43-98 | the spelling sent to ExternalDNS parses as the same name if and only if it is not empty and does not end in white space |
| Names.RootDoesNotReadBack | internal/dnsname/name.go:43-98 | counterexample: the root is sent as the empty text, from which nothing is read |
| Names.TrailingBlankDoesNotReadBack | internal/dnsname/name.go:43-98 | counterexample: the name `a .` is sent as `a` and a blank, which is read as `a.` |
| Names.CanonicalIsFixed | internal/dnsname/name.go:43-61 | canonicalising is idempotent, whatever case, dots and white space came in |
| Names.LabelsDetermineName | internal/dnsname/name.go:107-122 | splitting into labels loses nothing: equal labels mean equal names, escaped dots included |
| NameLaws.HostNameIff | internal/dnsname/name.go:43-61 | labels without dots, backslashes and white space, joined by dots, are a name if and only if each has at most 63 octets and the text 253; the name has the same labels up to case and no capital |
| NameLaws.ReadableIff | internal/dnsname/name.go:43-61 | the same for labels spelled with any escapes, with or without the last dot: 63 octets each and 255 in all with their lengths, an escape being one octet |
| NameLaws.SameNameIff | internal/dnsname/name.go:43-61 | two texts are read as one name if and only if they differ in ASCII case, surrounding white space and the last dot only |
| NameLaws.TrimSpaceCuts | internal/dnsname/name.go:50 | trimming takes the white space off both ends and nothing else |
| NameLaws.FqdnIff | internal/dnsname/name.go:55 | a dot at the end is the last dot unless an odd number of backslashes stands before it |
| Scopes.AncestorsAreComparable | internal/dnsname/scope.go:15-20 | two ancestors of one name contain one another, in the order of their label counts |
| ScopeLaws.ContainsIff | internal/dnsname/scope.go:15-20 | on texts: the root contains every present name; any other name contains itself and exactly the names that put whole labels, ending in an unescaped dot, before it; the absent name is in no relation |
| ScopeLaws.ScopeContainsIff | internal/dnsname/scope.go:66-100 | a scope contains exactly the names that are one of its domains or below one, so an empty scope contains none |
| Scopes.NewScope | internal/dnsname/scope.go:34-50 | keeps exactly the present domains, in order |
| Scopes.FindLongestMatch | internal/dnsname/scope.go:81-100 | the loop with best and bestLabels computes the longest match, also for an empty scope and an absent name |
| Scopes.LongestMatchIsDeepest | internal/dnsname/scope.go:75-100 | a domain is the match if and only if it contains the name and no domain of the set that does has more labels; order and repetition are irrelevant |
| Scopes.LongestMatchFindsOne | internal/dnsname/scope.go:81-100 | there is no match exactly when no domain contains the name |
| Zones.NewZoneIndex | internal/provider/zoneindex.go:26-43 | the index holds the present zone names, each with its first zone |
| Zones.FirstNamedIsFirst | internal/provider/zoneindex.go:30-38 | of several zones with one name the one that is listed first counts |
| Zones.IndexGivesOwner | internal/provider/zoneindex.go:53-60 | every index of a zone list gives the owner of that list |
| Zones.OwnerIsDeepest | internal/provider/zoneindex.go:45-60 | the owner is the one zone whose name is deepest among those containing the name |
| Zones.NoOwnerMeansNoZone | internal/provider/zoneindex.go:50-60 | a name has no owner exactly when no zone contains it |
| ScopeLaws.OwnedIff | internal/provider/zoneindex.go:44-60 | on texts: a name has an owner exactly when it is a listed zone or below one |
| ScopeLaws.OwnerHasLongestText | internal/provider/zoneindex.go:44-60 | the owner is the first listed zone whose name is the longest text among those at or above the name |
| Zones.OwnerIgnoresOrder | internal/provider/zoneindex.go:26-60 | permuting or repeating zones never changes the name of an owner |
| Zones.AddedZoneTakesOver | internal/provider/zoneindex.go:26-60 | a new zone takes over exactly the names below it whose owner was shallower or absent; all others keep their owner |
| Txt.CountQuotedSegments | internal/provider/validate.go:238-253 | the loop counts the pairs of quotes that no backslash escapes |
| TxtLaws.CountQuotesIsTwicePerToken | internal/provider/validate.go:234-253 | for a value that can be read, the quotes counted are twice the quoted character-strings that are read |
| TxtLaws.LexReadsPrint | internal/provider/validate.go:225-232 | printed character-strings are read back, each as one quoted string with its octets |
| TxtForms.SpellingOfOctet | internal/provider/validate.go:222-232 | how an octet is sent: blank to tilde as itself, quote and backslash behind a backslash, any other as its three digits |
| TxtForms.NormalFormIsPrinted | internal/provider/validate.go:206-232 | what is sent for any readable value: itself when well quoted, otherwise its character-strings in that spelling, each between quotes, one blank between them |
| TxtForms.PrintableIsQuoted | internal/provider/validate.go:190-220 | a value of printable octets without quotes and backslashes, such as `v=spf1 -all`, is sent between quotes; when longer than 255 octets, in runs of 255 |
| TxtForms.ChunkLengths | internal/provider/validate.go:174-176 | these runs have 255 octets each, the last one at most 255, and none is empty unless the value is |
| TxtForms.QuotedIsRead | internal/provider/validate.go:165-182 | what stands between quotes is one character-string with its blanks |
| TxtForms.EscapesAreRead | internal/provider/validate.go:165-182 | a backslash and an octet that is no digit stand for this octet, a backslash and three digits up to 255 for the octet with this code |
| TxtForms.BareWordIsRead | internal/provider/validate.go:165-182 | a word outside quotes is one character-string up to the next blank or quote |
| TxtForms.LexAtFront | internal/provider/validate.go:165-182 | blank and tab separate; semicolon, parentheses and line ends outside quotes are refused |
| TxtLaws.LeftAloneIffWellQuoted | internal/provider/validate.go:197-220 | a value is left alone if and only if it is a list of quoted character-strings of at most 255 octets |
| TxtLaws.NormalFormIsWellQuoted | internal/provider/validate.go:190-220 | what is sent is always quoted and no character-string in it exceeds 255 octets |
| TxtLaws.NormalizeIsIdempotent | internal/provider/validate.go:206-220 | normalising twice is normalising once, for every value that can be read |
| TxtLaws.NormalizeKeepsEveryString | internal/provider/validate.go:190-232 | the normal form can be read, and has the same character-strings octet for octet |
| TxtLaws.UnquotedKeptIffPaired | internal/provider/validate.go:258-264 | a value without quotes keeps its octets if and only if its backslashes come in pairs |
| TxtLaws.LoneBackslashIsLost | internal/provider/validate.go:258-264 | counterexample: `a\b` is sent as `"ab"` |
| TxtLaws.PlainValueIsCutByLength | internal/provider/validate.go:178-188 | without quotes and backslashes a value is cut every 255 octets, never at a blank, and the pieces concatenate to it |
| Validate.ValidateFormat | internal/provider/validate.go:30-67 | returns the first violation in the order of the checks |
| Validate.CheckCnameExclusivity | internal/provider/validate.go:101-122 | fails exactly when some written name has both a CNAME and another type |
| Validate.FormatAcceptedIff | internal/provider/validate.go:22-37 | accepted if and only if each created, updated and deleted record passes on its own and no created or updated CNAME has company among these; every refusal is permanent |
| Validate.FirstErrorByList | internal/provider/validate.go:30-37 | the violation told is the first of the created records, else of the updated, else of the deleted ones, else the CNAME one |
| ValidateLaws.RecordAcceptedIff | internal/provider/validate.go:39-139 | a record of another type than MX and SRV is accepted if and only if its TTL is 0 or 1 to 2147483647, an A or AAAA name has no underscore, a CNAME has one value, and each TXT value can be read |
| ValidateLaws.MxAcceptedIff | internal/provider/validate.go:60-61 | a printed preference and a host are accepted exactly when the preference is at most 65535 |
| ValidateLaws.SrvAcceptedIff | internal/provider/validate.go:62-63 | three printed numbers and a host are accepted exactly when each number is at most 65535 |
| Adjust.AdjustValues | internal/provider/adjust.go:69-93 | the loop with the changed flag normalises readable TXT values and keeps the others |
| Adjust.AdjustRecords | internal/provider/adjust.go:31-42 | adjusts each record at its own index and leaves the input alone |
| Adjust.AdjustedKeeps | internal/provider/adjust.go:31-93 | each record keeps name, type, number and order of values and an accepted TTL; values of other types and unreadable TXT values are verbatim, readable TXT values keep every character-string |
| Adjust.AdjustIsIdempotent | internal/provider/adjust.go:25-42 | adjusting adjusted records changes nothing, whether or not their values can be read |
| Adjust.AcceptedTtlsAreFixed | internal/provider/adjust.go:51-62 | validation accepts exactly the TTLs that clamping leaves alone, and clamping moves any other to the nearest accepted one, leaving only 0 unset |
| Discharge.ValidatedIsConvertible | internal/provider/validate.go:30-67 | an accepted change set meets no conversion error in merge or guard |
| Discharge.ValidatedFailsOnlyInGuard | internal/dpf/apply.go:75-100 | the only refusal an accepted change set can meet is that of the guard, which is temporary |
| Discharge.AcceptedTtlIsExact | internal/dpf/merge.go:258-267 | the 32-bit conversion is exact on every accepted TTL, and what is sent is 1 to 2147483647 or null |
| Discharge.AcceptedIffItFits | internal/provider/validate.go:45-51 | the accepted TTLs are exactly those that are not negative and survive the 32-bit conversion |
| Discharge.AdjustedIsStoredForm | internal/provider/adjust.go:21-42 | sending an adjusted record and reading it back gives it again; its values convert exactly when they can be read |
| Overwrites.TtlReadsBackIffItFits | internal/dpf/merge.go:258-267 | a TTL survives the wrapping conversion if and only if it fits in 32 bits |
| Overwrites.KeysAreFixed | internal/dpf/merge.go:213-219 | canonicalising the name of a key again gives the key, readable or not |
| Overwrites.NormalizeValues | internal/dpf/merge.go:237-251 | normalises every TXT value or fails permanently at the first that cannot be read |
| MergeLaws.MergeSucceedsIffConvertible | internal/dpf/merge.go:74-102 | merge fails, permanently, exactly when a type or TXT value of the change set cannot be converted |
| MergeLaws.OutKeysAreFinalKeys | internal/dpf/merge.go:44-118 | the keys of the merged set are (published minus deleted) plus written |
| MergeLaws.OutKeysDistinctIff | internal/dpf/merge.go:88-91 | a key comes out twice if and only if it is published and both deleted and written |
| MergeLaws.MergeMeetsSpecification | internal/dpf/merge.go:109-118 | record i of the merged set is the specified record of key i: surviving keys in their old order, then new keys in the order of first write |
| MergeLaws.UpdatesPrevail | internal/dpf/merge.go:82-107 | the write that counts for a key is the last update of it, or the last creation where there is no update |
| MergeLaws.LastWriteIsLast | internal/dpf/merge.go:82-107 | the last write of a key is the one that no other write of it follows |
| EditLaws.SubmittedSetIsSent | internal/dpf/apply.go:79-99 | over the three lists: surviving keys in their order, then keys first created, then keys first updated; name, type and description as published or blank, TTL and values of the write that counts, and the label managed-by on exactly the records written under their own name |
| EditLaws.UnreadableStays | internal/dpf/merge.go:50-71 | a published record whose name cannot be read is sent as it is, whatever the change set says |
| MergeLaws.OutEntryHasItsKey | internal/dpf/merge.go:53-107 | each merged record has the key it came out under, and labels that are not nil |
| MergeLaws.UntouchedIsVerbatim | internal/dpf/merge.go:50-71 | a record the change set does not mention comes out as published, apart from nil labels |
| MergeLaws.WrittenKeepsDescription | internal/dpf/merge.go:82-107 | a written record that was published takes TTL and values of the last write and keeps name spelling, description and labels |
| EditLaws.GuardIsSound | internal/dpf/merge.go:120-163 | for any set at all, acceptance means each published key is in the set or was asked to go |
| EditLaws.GuardAcceptsSubmittedIff | internal/dpf/merge.go:131-163 | the merged and marked set passes the guard if and only if each surviving published name is spelled canonically or cannot be read |
| EditLaws.ForeignSpellingIsRefused | internal/dpf/merge.go:131-163 | every zone refuses, temporarily, every convertible change set that leaves a published record whose name is not spelled canonically |
| EditLaws.GuardRefusesForeignSpelling | internal/dpf/merge.go:131-163 | counterexample: `A.` as the last published record of any zone, and any convertible change set that does not delete it |
| EditLaws.LostKeysAreRequested | internal/dpf/merge.go:73-80 | the keys that disappear are those published, deleted and not written again |
| EditLaws.EditRefusesIff | internal/dpf/apply.go:75-100 | the closure refuses exactly for a change set that does not convert or a surviving name not spelled canonically; otherwise it skips or submits the marked set |
| EditLaws.SkippedIff | internal/dpf/merge.go:165-210 | an accepted edit is skipped if and only if it would send exactly the published records, nil labels made empty |
| EditLaws.MergeOfSubmittedIsFixedIff | internal/dpf/merge.go:44-118 | merging the submitted set with the same change set gives it back, record for record, if and only if the change set deletes nothing it writes |
| EditLaws.MarkOfSubmittedIsFixed | internal/dpf/label.go:43-57 | marking the submitted set again changes nothing |
| KeyOrder.OutIsFixedIff | internal/dpf/merge.go:53-118 | merge lets the same keys out in the same order the second time if and only if each deleted and written key was published and is first written after all new keys |
| EditLaws.SubmittedSetIsFixedIff | internal/dpf/apply.go:79-86 | merging and marking the submitted set gives it back, record for record, under exactly that condition |
| EditLaws.SkippedAgainIff | internal/dpf/apply.go:75-100 | in any zone, what was submitted is accepted again, and is skipped under exactly that condition |
| EditLaws.SubmittedIsFixedPoint | internal/dpf/merge.go:165-185 | a change set that deletes nothing it writes is recognised as unchanged the next time, in every zone |
| EditLaws.DeletedWriteIsNotSkipped | internal/dpf/merge.go:73-91 | every zone that takes a change set which deletes and writes a key the zone does not publish is sent a set again the next time |
| EditLaws.RetryStableIff | internal/dpf/apply.go:75-100 | in a zone that publishes none of the deleted and written keys, a submitted change set is skipped when sent again if and only if there are none |
| Applying.LoadCurrent | internal/dpf/merge.go:45-71 | the first loop of merge: the specified table, sharing the published label maps, with new maps only for nil |
| Applying.DropDeleted | internal/dpf/merge.go:73-80 | the second loop of merge: exactly the deleted keys go, or the specified failure |
| Applying.WriteRecords | internal/dpf/merge.go:82-107 | the third loop of merge: the specified table or failure; known records keep their label map |
| Applying.MergeSlots | internal/dpf/merge.go:44-118 | merge on shared label maps yields the specified set in a new slice and writes neither to the given slice nor to any map; surviving records carry the very map they were published with |
| Applying.ChangedKeys | internal/dpf/label.go:62-75 | collects exactly the keys of the written records of supported types |
| Applying.ApplyManagedBy | internal/dpf/label.go:43-57 | in place: each written record gets a new map of its own with the one label, every other element is left as it is, and no existing map changes |
| Applying.GuardSlots | internal/dpf/merge.go:131-163 | the loops of guard decide as specified, including the failing delete type |
| Applying.UnchangedSlots | internal/dpf/merge.go:175-185 | true exactly when all records agree in order, nil and empty labels being equal |
| Applying.EditSlots | internal/dpf/apply.go:75-100 | merge, mark, guard, compare in that order yield the specified outcome; neither the published slice nor a published label map is written to, and what is sent is a new slice with new maps or the published ones |
| Grouping.RestrictToScope | internal/provider/apply.go:107-123 | keeps exactly the in-scope records of each bucket, in order |
| GroupingLaws.ScopingConserves | internal/provider/apply.go:107-123 | each in-scope record stays in its bucket as often as it was sent, every other one goes |
| Grouping.GroupByZone | internal/provider/apply.go:142-186 | fails, permanently, exactly when a record has no owner; otherwise groups in strict name order, one for each owner, with exactly its records in their order and bucket |
| GroupingLaws.GroupingIsUnique | internal/provider/apply.go:142-186 | that description determines the list of groups, though a Go map is iterated to build it |
| GroupingLaws.GroupingConserves | internal/provider/apply.go:142-186 | each record of each bucket is in the groups exactly as often as it was sent, in the same bucket |
| GroupingLaws.GroupsAreNonEmpty | internal/provider/apply.go:146-163 | no group is empty |
| GroupingLaws.GroupIdsDistinct | internal/provider/apply.go:178-186 | different groups go to different zones |
| Text.BeforeAtFirstDifference | internal/provider/apply.go:182-184 | the order of the groups: behind the common prefix the smaller octet comes first, and a prefix before the longer text |
| Backends.Backend.Apply | internal/dpf/apply.go:55-119 | one application changes at most its own zone, to the outcome of the edit closure, and reports as its fate says |
| Backends.FateDecidesReport | internal/dpf/apply.go:55-119 | a refusal is reported with its own failure and changes nothing; an accepted edit is reported as the network says and takes effect unless it failed before |
| Backends.Backend.ApplyAll | internal/provider/apply.go:64-80 | the loop applies group by group and stops at the first failure |
| Backends.Backend.ApplyChanges | internal/provider/apply.go:30-83 | the exits in the order of the code; a change set that gets past them makes one attempt of a run over its unique groups, whatever befalls it |
| RunLaws.OneMoreAttempt | internal/provider/apply.go:30-83 | each further call of ApplyChanges takes the world of a run one attempt further |
| RunLaws.OtherZonesUntouched | internal/provider/apply.go:64-80 | over any attempts, a zone without a group is never touched |
| RunLaws.RunStaysOnTheWay | internal/provider/apply.go:64-80 | after any attempts a zone in which its group settles is as it was or has reached its goal, nothing in between |
| RunLaws.UndisturbedFailsAtRefusal | internal/provider/apply.go:64-80 | an undisturbed attempt fails only at a group that the original zones refuse |
| RunLaws.AttemptReachesGoal | internal/provider/apply.go:64-80 | in one successful attempt every group is accepted and its zone holds what one application leaves, for every change set |
| RunLaws.RetriesConverge | internal/provider/apply.go:64-80 | when every group settles in its zone, one success after any attempts leaves all zones as a single undisturbed attempt would, and that one would have succeeded |
| RunLaws.GroupsAreSound | internal/provider/apply.go:142-186 | a change set that deletes nothing it writes splits into groups that settle, whatever the zones publish |
| RunLaws.ApplyChangesConverges | internal/provider/apply.go:30-83 | convergence for a change set that deletes nothing it writes and its zones; zones owning none of its records are as they were |
| Convergence.ConvergesIff | internal/provider/apply.go:64-80 | in every world, all runs converge if and only if some zone refuses its group or every group settles |
| Convergence.ConvergesIffRepeatable | internal/provider/apply.go:64-80 | over zones with distinct keys: if and only if some group does not convert or leaves a foreign spelling, or every group has its deleted and written keys published and first written after the new ones |
| Convergence.ConvergesIffNothingRestored | internal/provider/apply.go:64-80 | where those keys are not published: if and only if some zone refuses its group or no group deletes a key it writes |
| Convergence.RetryOfReplacementDiverges | internal/dpf/merge.go:73-91 | counterexample: one zone, one record deleted and created by one change set, two undisturbed successes |
| Convergence.ReplacementDiverges | internal/dpf/merge.go:73-91 | the same for every zone with canonically spelled names and every record it does not publish |
| Convergence.SecondAttemptDiffers | internal/dpf/merge.go:73-91 | the run that shows the other half: two undisturbed successes leave something else than one, in every world with a group that does not settle |
| Reading.ListRecords | internal/dpf/records.go:33-48 | exactly the records of supported types and readable names, in order |
| Reading.ListedIff | internal/dpf/records.go:121-149 | a record is listed exactly when some published record reports it: one of the eight types, a readable name, its TTL or 0, its values |
| Reading.ZoneIsRelevant | internal/provider/provider.go:191-201 | true exactly for a present zone name that contains, or is contained in, a domain of the scope |
| Reading.OwnerOfScopedNameIsRelevant | internal/provider/provider.go:180-201 | the owner of an in-scope name is never pruned |
| Reading.IrrelevantZoneShowsNothing | internal/provider/provider.go:115-117 | a pruned zone would have shown nothing |
| Reading.ReadRecords | internal/provider/provider.go:98-148 | the pruned loops return what reading every zone and keeping in-scope records of their owner would; they fail as a whole, with the failure of the zone list or of the first zone that is asked and cannot be read |
| Closure.EditSeenByReader | internal/dpf/apply.go:75-100 | one zone, one key: the last update, or else the last creation, once, nothing for a deleted key, what it was for any other; twice exactly when the key is published and both deleted and written |
| Closure.ReadAboutIsOwnersListing | internal/provider/provider.go:115-143 | for each name and type the reader returns what the owning zone publishes, when the name is in scope, and nothing else |
| Closure.WriteThenRead | internal/provider/provider.go:98-148 | after a successful ApplyChanges the reader returns each written key once with TTL and normalised values of its last update, or of its last creation where it is not updated, no deleted key, and all else as before; a written key that is also deleted and was published by its owner is returned twice |
| Closure.WriteThenReadAfterRetries | internal/provider/provider.go:98-148 | the same after any failed attempts and one success, when every group settles |
| Closure.UnmentionedStayOverRuns | internal/dpf/merge.go:50-71 | over any attempts, an unmentioned record stays verbatim, apart from nil labels |
| Closure.StaleCopiesStay | internal/provider/provider.go:130-140 | copies of a name in a zone that does not own it are neither returned nor altered |
| NoDiff.AdjustedWriteIsReturned | internal/provider/adjust.go:19-31 | after a successful ApplyChanges of adjusted records the reader returns each exactly as it was written |
| NoDiff.SentIsAdjusted | internal/webhook/wire.go:72-119 | whatever is sent of an adjustment answer is read, and read as adjusted records, when the names read back |
| NoDiff.NoDiffRecurs | internal/provider/adjust.go:19-31 | a change set made of endpoints of an adjustment answer, once applied, lists each that is the last word on its key once, with the name, type, TTL and targets of the answer |
| LockWaits.LockWait.constructor | internal/dpf/lock.go:94-101 | a new wait is armed, neither entered nor expired, with an empty history |
| LockWaits.LockWait.Fire | internal/dpf/lock.go:98 | the runtime may start the timer's function while the timer is armed |
| LockWaits.LockWait.DoEnter | internal/dpf/lock.go:104-110 | adds Enter to the history, which stays a possible run that leads to the object's state |
| LockWaits.LockWait.DoExpire | internal/dpf/lock.go:116-125 | the same for Expire, once the timer has fired |
| LockWaits.LockWait.DoStop | internal/dpf/lock.go:128-131 | the same for StopTimer and CancelContext, without the mutex |
| LockWaits.LockWait.Err | internal/dpf/lock.go:137-146 | an error exactly when in the object's history the timer was the first to get the mutex |
| LockWaits.FirstDecides | internal/dpf/lock.go:104-146 | in every interleaving, also with a timer that fires although stopped, the first to get the mutex decides; the error is there exactly when that was the timer |
| LockWaits.ExpiryIsPermanent | internal/dpf/lock.go:116-125 | expiry is never taken back and implies cancellation, whatever follows |
| LockWaits.NoExpiryAfterEnter | internal/dpf/lock.go:112-125 | once the edit has begun, nothing but releasing the wait cancels it |
| LockWaits.ExpiresOnce | internal/dpf/lock.go:94-125 | the timer's function runs at most once |
| LockWaits.StoppedTimerNeverFires | internal/dpf/lock.go:104-131 | after entering or stopping, the timer is not started any more, in any run |
| LockWaits.LateTimer | internal/dpf/lock.go:112-131 | a timer that fired before it was stopped still runs its function, which expires the wait unless it was entered |
| Errors.ClassifyGivesOneClass | internal/dpf/errors.go:121-189 | every error leaves with a class, and with exactly one unless it came with both |
| Errors.ClassIsStable | internal/dpf/errors.go:126-129 | a classified error keeps its class under any number of wrappings and is not wrapped again |
| Errors.AnswerFollowsClass | internal/webhook/errors.go:30-48 | for every error, whatever is wrapped around it once classified, the answer is 500 exactly for the temporary class and 400 otherwise; with both classes ExternalDNS retries, as the comment asks |
| Errors.CauseDecidesClass | internal/dpf/errors.go:121-189 | a tree of any shape with a single cause is permanent exactly when repeating cannot cure it: a token or zone that is missing, a full label table, a client error other than 408 and 429 |
| Errors.AnswerDecidesClass | internal/dpf/errors.go:169-244 | an API answer, whose status is carried or read from the message, is permanent exactly for 400 to 499 except 408 and 429, whatever it wraps and however it is wrapped, when nothing that is looked for earlier is in the tree |
| Errors.StatusLineDecides | internal/dpf/errors.go:191-209 | a raw message of three digits, a blank and any text has that status from 100 to 599, and is permanent exactly for 400 to 499 except 408 and 429 |
| Errors.TokenCauseIsDropped | internal/dpf/errors.go:131-139 | of an error about the token only the permanent class leaves; nothing it wraps is passed on |
| Errors.AnswerOfSingleCause | internal/webhook/errors.go:30-48 | an unclassified error with a single cause is answered 400 exactly for the permanent mark, an unsupported type or a missing zone |
| Wire.TypeTextReadsBack | internal/provider/types.go:58-71 | the text of a supported type reads back as it; the text of no other DPF type is read |
| Wire.LiteralTypes | internal/provider/types.go:52-71 | exactly the eight texts A, AAAA, CNAME, TXT, SRV, PTR, MX and NAPTR are read, each as its own type |
| Wire.RecordOfLiteralType | internal/webhook/wire.go:102-119 | an endpoint is read as its own name, type, TTL and targets; an unreadable name or type is a permanent failure |
| Wire.ReadEndpoints | internal/webhook/wire.go:90-100 | all records, or the first failure |
| Wire.FirstFailureIsTold | internal/webhook/wire.go:90-100 | a list fails with the failure of its first unreadable endpoint |
| Wire.ToRecordsPointwise | internal/webhook/wire.go:90-119 | a list is read as some records exactly when each endpoint is read as the record at its index |
| Wire.AdjustEndpoints | internal/webhook/wire.go:165-183 | overwrites the four adjusted fields index by index; on a length mismatch returns the input |
| Wire.PostAdjustEndpoints | internal/webhook/handler.go:136-150 | the answer is the failure of reading, or the adjusted fields over the received endpoints |
| Wire.AnswerKeepsForeignFields | internal/webhook/wire.go:147-183 | each answer keeps set identifier, labels and provider-specific properties of the endpoint at its own index |
| Wire.AnswerKeepsTargets | internal/webhook/wire.go:147-183 | each answer has the name, type and an accepted TTL that were received, and the targets: verbatim unless TXT, readable TXT targets with every character-string |
| Wire.AnswerReadsBackIff | internal/webhook/wire.go:102-183 | the answer is read as exactly the adjusted records if and only if every name reads back |
| Wire.AnswerIsIdempotent | internal/webhook/wire.go:147-183 | sending such an answer again gets the same answer |
| Wire.ToChangeSet | internal/webhook/wire.go:72-88 | the three lists that are used, or the failure of the first that is unreadable in the order create, updateNew, delete; all failures are permanent; updateOld plays no part |
| Wire.ChangesReadIff | internal/webhook/wire.go:72-88 | a request is read as a change set exactly when create, updateNew and delete are read as its three lists |

## Left out

- The library for DNS messages is not part of this model. Names follow its escapes, length limits and ASCII case folding; TXT values follow section 5.1 of RFC 1035 on one line. Unquoted comments, parentheses and line ends are treated as unreadable, and a decimal escape above 255 wraps.
- White space trimmed from names is ASCII white space only; Unicode white space is not modelled.
- DPF itself is a map from zone to records. Zone locks, paging, jobs, polling, credentials and requests are not modelled; another writer during a run is outside the model.
- The names of record types in DPF are taken to be those of ExternalDNS (internal/dpf/rrtype.go maps them one to one).
- The flags that make DPF ignore a submitted SOA and apex NS are not modelled; these records are submitted verbatim like all others.
- CNAME exclusivity is checked within a change set only, as the code does; nothing is claimed about records already in the zone.
- Error texts, response bodies and network errors as a kind of their own: the class of an error does not depend on them, and an error with an added body is always wrapped once more here.
- Go's int and int64 are unbounded integers; only the 32-bit TTL conversion wraps. Overflow in strconv.Atoi is not modelled, which changes no verdict because all checks bound the value.
- LockWaits.LockWait.DoEnter: mutex and scheduler are represented by taking each critical section as one event; cancellation of the parent context is not an event.
- Backends.Backend.Apply: the lock wait and the summary for error messages do not appear; a failure to get the lock is a fate that fails before taking effect.
- Records returned by the reader are described for each name and type; the order across names follows the zone list and is only stated by Reading.ReadRecords.
- HTTP handlers, negotiation, telemetry, logging, configuration and shutdown: plumbing without hard properties.
