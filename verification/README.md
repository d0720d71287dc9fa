# Declarest core, modelled in Dafny

Declarest keeps the desired state of remote resources in a repository, compares it with what a
managed service reports, and applies the difference. This project models the logic behind that and
proves what it keeps. Payloads are values of one datatype (`Payload.Value`), as they are after
normalization; failures are results, never preconditions.

What the modules are about:

- `DefaultsOverlay`: a payload is stored without what its defaults already say, and rebuilt when it
  is read. Merge and compaction undo each other, compaction is a canonical and least form, and
  inferred defaults are exactly the leaves that all samples share.
- `Externalization`, `ExternalizationCases`: string attributes, also below array wildcards, move to
  sidecar files and come back; which places an entry names, and what each of them holds afterwards.
- `SaveRead`: both together. Saving and then reading returns the payload if and only if the payload
  contains its defaults.
- `Diff`, `Floats`: the structural diff is a correct patch with located, non-overlapping entries, and is empty
  exactly when the payloads agree up to integers against floats. Its pointers are right if and only
  if no binary mismatch lies below the root.
- `Apply`, `ApplyCases`: create, update or skip against a service that may fail at every call. At most
  two mutations, convergence under an exact condition, and the calls and the result of every case.
- `Secrets`, `SecretPlaces`, `SecretKeys`: detection, masking, placeholder normalization and
  resolution; which fields are detected and masked, which texts are placeholders, and which keys of the
  store they read.
- `Properties`, `PropertiesText`: the properties printer and parser, with the exact set of maps that
  survive, and the meaning of text that is written by hand.
- `JsonPointer`, `PointerSet`, `Transforms`: RFC 6901 pointers, setting a value in place on the heap,
  and the select and exclude transforms.
- `Resolver`, `ResolverSteps`: the memoizing resolver with cycle detection, for one caller as a
  recursion over a dependency graph and for many callers as interleaved atomic steps.
- `Paths`, `Admission`: logical paths, the overlap test, and single ownership over every run of
  admitted SyncPolicies.
- `Calendar`, `Cron`, `CronText`: five-field schedules over the civil calendar, and what their
  expressions mean.
- `Template`, `TemplateCases`, `TemplateText`: identity templates, the pointers that they report, what
  they say, and the texts that do not mean what they seem to.
- `Payload`, `Text`, `Numerals`: values, results and the string operations of Go that the others use.

Methods follow the loops and the state of the code and are proved against functions; the lemmas are
about those functions. Where the code does something other than its documentation or its callers
expect, the model follows the code. One lemma shows the case, and another one says for all inputs when
it happens or when it cannot:

- A SyncPolicy path is normalized once when it is compared as a listed policy and twice when it is
  the candidate. Normalization is not idempotent on paths that end in white space, so two policies
  with the path `/a /` are both admitted (`Admission.DriftBreaksSingleOwner`; exactly when:
  `CheckIsSoundIff`).
- A remote object whose payload names another identifier redirects every update to that identifier,
  so applying never converges (`Apply.ForeignIdDiverges`; exactly when: `ApplyConvergesIff`).
- An empty diff does not mean that applying is silent: the integer 1 and the float 1.0 agree for the
  one and differ for the other (`Apply.NumbersDiffer`; exactly when: `SilenceAndDiff`).
- A binary mismatch below the root is reported at the root (`Diff.NestedBinaryMisreported`; exactly
  when: `ReportsFaithfulIff`).
- Some property keys do not come back (`Properties.KeysThatDoNotReturn`; exactly when: `RoundTripIff`).
- A schedule for 29 February finds no next minute around a century year that is no leap year
  (`Cron.LeapGap`, `LeapGapExample`; exactly when: the last clause of `Cron.Next`).
- A step close to the largest integer makes the parser of cron fields index out of range
  (`Cron.LargestStepPanics`; exactly when: `AddFieldPart`); a substring length close to it does the
  same in a template (`TemplateCases.SubstringPanics`; exactly when: `EvalPanicsIff`).
- An empty quoted string in a template turns the word after it into a literal
  (`Template.EmptyQuoteHidesPointer`; exactly when: `TemplateCases.WordQuotedIff`).
- A malformed pointer as a helper argument is taken for a literal instead of being refused
  (`TemplateCases.MalformedTemplate`; exactly when: `SlashArgumentsIff`).
- With several callers, the in-flight mark reports cycles that are none (`ResolverSteps.SpuriousCycle`;
  exactly when: `MarkRefusedIff` and `RefusalGenuineIff`), and a path may be resolved more than once
  (`ResolvedTwice`; exactly when: `ResolvedAgainIff`); neither happens when the callers of a path come
  one at a time (`OneAtATimeNotRefused`, `OneAtATimeResolvedOnce`).
- Masking changes what a payload resolves to when a placeholder shares its attribute with a masked
  value: its key differs from the other one in surrounding white space, or it lies below a blank key,
  which counts for nothing (`Secrets.AliasedChanges`, `BlankKeyShares`; exactly when: `MaskedStoreIff`).
- Without a resource path the keys of secrets are not scoped, so that a payload can read the secret of a
  resource (`SecretKeys.UnscopedReads`; exactly when keys meet: `KeysMeetIff`).
- In the last field of a schedule a range that ends in 7 is refused, but only if the 7 is written without
  a leading zero or sign (`CronText.PaddedSeven`; exactly when: `PartOfIff`).
- Excluding a path below a null removes the null (`Transforms.NullRemoved`; exactly when:
  `ExcludeExactIff`); excluding array elements shifts the others (`ExcludeShiftsIndices`; not so under
  the condition of `ExcludeIsPruned`); selecting a numeric object key makes an array
  (`NumericKeySelected`; exactly when: `SelectIff`).

## Model

| member | source | states |
|---|---|---|
| DefaultsOverlay.MergeObjectWithDefaults | resource/defaults_overlay.go:236-254 | the loop that fills the merged map computes the recursive overlay of overrides on defaults |
| DefaultsOverlay.CompactObjectAgainstDefaults | resource/defaults_overlay.go:256-281 | the loop that fills the compacted map computes the recursive compaction |
| DefaultsOverlay.IntersectObjectDefaults | resource/defaults_overlay.go:283-306 | the loop that fills the common map computes the recursive intersection |
| DefaultsOverlay.MergeOfCompact | resource/defaults_overlay.go:236-281 | merging defaults under a compacted payload has the effect of merging them under the payload itself, for all objects |
| DefaultsOverlay.CompactOfMerge | resource/defaults_overlay.go:236-281 | compacting the effective payload gives what compacting the payload gives |
| DefaultsOverlay.CompactIsCanonical | resource/defaults_overlay.go:79-111 | two payloads compact alike if and only if their effective payloads are equal |
| DefaultsOverlay.CompactIsLeast | resource/defaults_overlay.go:256-281 | the compacted form is contained in every override that has the same effect |
| DefaultsOverlay.MergeOfStoredForm | resource/defaults_overlay.go:49-111 | compaction succeeds exactly when merging does, and the stored form of an object, also the null one, merges to the same effective payload |
| DefaultsOverlay.NothingStoredIff | resource/defaults_overlay.go:79-111 | nothing is left to store if and only if the payload is null or adds nothing to its defaults; what is refused; without defaults everything is stored |
| DefaultsOverlay.IntersectLeaves | resource/defaults_overlay.go:283-306 | a leaf assignment is in the intersection if and only if both sides make it |
| DefaultsOverlay.LeavesDetermine | resource/defaults_overlay.go:283-306 | an object is determined by its leaf assignments |
| DefaultsOverlay.InferDefaultsFromValues | resource/defaults_overlay.go:162-198 | the loop over the samples skips nulls, refuses other non-objects and intersects the rest |
| DefaultsOverlay.InferredDefaultsAreSharedLeaves | resource/defaults_overlay.go:162-198 | inferred defaults make exactly the leaf assignments that every sample makes |
| DefaultsOverlay.InferenceIgnoresOrder | resource/defaults_overlay.go:162-198 | permuting the samples does not change the result, failures included |
| DefaultsOverlay.SampleRestored | resource/defaults_overlay.go:49-198 | every sample compacted against the inferred defaults merges back to itself |
| DefaultsOverlay.InferenceRefusedIff | resource/defaults_overlay.go:162-198 | inference fails if and only if there are two values or more and one is neither null nor an object |
| DefaultsOverlay.OneSampleHasNoDefaults | resource/defaults_overlay.go:162-198 | without two values that are not null the defaults are the empty object |
| Externalization.ResolveExternalizedTargets | internal/resourceexternalization/service.go:189-240 | the loop with its two seen-sets accepts exactly the target lists without a repeated path or file; which targets these are is `ExternalizationCases.PlacesComplete` |
| Externalization.AddTargets | internal/resourceexternalization/service.go:203-236 | targets are added if and only if paths and files stay pairwise distinct, and the seen-sets hold exactly those added |
| Externalization.MatchesLocated | internal/resourceexternalization/service.go:260-325 | every match, wildcards resolved, names a place in the payload |
| Externalization.AssignAt | internal/resourceexternalization/service.go:327-384 | assigning to the place of a string succeeds, is seen there and keeps the shape of the payload |
| Externalization.AssignElsewhere | internal/resourceexternalization/service.go:327-384 | assigning to one place leaves the strings at all other places |
| Externalization.Extract | internal/resourceexternalization/service.go:46-93 | the loop over the targets replaces each string by its placeholder and collects one artifact each, or fails as a whole; place by place in `ExternalizationCases.ExtractIsExact` |
| Externalization.Expand | internal/resourceexternalization/service.go:95-160 | the loop over the targets puts the artifact texts back, or fails as a whole |
| Externalization.TargetsSameShape | internal/resourceexternalization/service.go:189-325 | replacing strings by strings does not change the resolved targets |
| Externalization.ExtractKeepsShape | internal/resourceexternalization/service.go:46-93 | extraction changes text only and yields one artifact per target |
| Externalization.ExpandOfExtract | internal/resourceexternalization/service.go:46-160 | expanding an extracted payload against its artifacts returns the payload, for every entry list on which extraction succeeds and every placeholder template |
| Externalization.ArtifactFileInjective | internal/resourceexternalization/service.go:386-412 | different wildcard indices give different file names |
| Externalization.EntryFilesNeverCollide | internal/resourceexternalization/service.go:248-412 | no two matches of one entry get the same file |
| ExternalizationCases.IndexTokenIff | internal/resourceexternalization/service.go:426-435 | a token names array element i if and only if it is a decimal numeral of i, signs and leading zeros included |
| ExternalizationCases.CollectIsExact | internal/resourceexternalization/service.go:260-325 | the matches of a path are exactly the places that it names, an object step taking its key and an array step the index or any index under "*", each with the value there and its wildcard indices |
| ExternalizationCases.CollectFailsIff | internal/resourceexternalization/service.go:260-325 | following a path fails if and only if some place that its first tokens name cannot be entered by the next one |
| ExternalizationCases.PlacesComplete | internal/resourceexternalization/service.go:189-240 | every place that an entry names is behind a target, once |
| ExternalizationCases.DistinctIffNoClash | internal/resourceexternalization/service.go:199-238 | the seen-sets refuse exactly the entries that give one path key or one file to two places |
| ExternalizationCases.PathKeysApart | internal/resourceexternalization/service.go:204-215 | path keys tell paths apart whose tokens have no NUL character |
| ExternalizationCases.PathKeyShared | internal/resourceexternalization/service.go:204-204 | a token with a NUL character and two tokens that share a key |
| ExternalizationCases.ExtractSucceedsIff | internal/resourceexternalization/service.go:46-93 | extraction succeeds if and only if every entry can be followed, no two places clash and every place holds a string |
| ExternalizationCases.ExtractIsExact | internal/resourceexternalization/service.go:46-93 | after extraction every place of every entry holds its placeholder and has an artifact with the old text; there are no other artifacts, none shares a file, and no other text has changed |
| ExternalizationCases.ExpandIsExact | internal/resourceexternalization/service.go:95-160 | expansion succeeds if and only if the entries can be followed, do not clash and the file of every waiting place is there; then the waiting places hold the texts of their files and no other text has changed |
| ExternalizationCases.ArtifactFileText | internal/resourceexternalization/service.go:386-412 | the file name written out: directory, stem, the wildcard indices after dashes, extension |
| Numerals.AtoiIff | internal/resourceexternalization/service.go:426-435 | the integer parser accepts exactly the decimal numerals of the numbers of 64 bits |
| SaveRead.Repository.SaveResourceWithArtifacts | internal/orchestrator/externalized.go:82-87 | stores the payload and writes the artifacts of one path, and touches no other path's files |
| SaveRead.SaveLocalResource | internal/orchestrator/externalized.go:27-88 | stores the extracted and compacted payload with its artifacts, or changes nothing |
| SaveRead.ReadLocalResource | internal/orchestrator/local.go:44-54 | a read merges the defaults under the stored payload and expands the artifacts; a missing path is not found |
| SaveRead.SaveThenRead | internal/orchestrator/externalized.go:66-127 | what is read back equals the saved payload if and only if that payload contains its defaults |
| SaveRead.SaveAndReadBack | internal/orchestrator/externalized.go:66-127 | through a repository that may hold anything before: after a successful save the payload is read back unchanged if and only if it contains its defaults, and a failed save leaves payloads and artifacts alone |
| Diff.DiffCollector.CollectDiffEntries | internal/orchestrator/diff.go:101-172 | appends to the shared list the reports of exactly the edits between the two payloads, under the given pointer |
| Diff.BuildDiffEntries | internal/orchestrator/diff.go:95-99 | the whole list is the reports of the edits from the root, and empty if and only if the payloads agree |
| Diff.EditsLocated | internal/orchestrator/diff.go:101-172 | every edit carries exactly what local and remote hold at its path |
| Diff.EditsApart | internal/orchestrator/diff.go:101-172 | no edit path is a prefix of another |
| Diff.EditsEmptyIffAgree | internal/orchestrator/diff.go:101-191 | there is no edit if and only if the payloads agree up to integers against the floats that they are rounded to |
| Diff.PatchCorrect | internal/orchestrator/diff.go:101-191 | substituting the remote sides into local gives remote, up to integers against floats |
| Diff.NumbersAgreeIff | internal/orchestrator/diff.go:179-191 | the scalar comparison holds if and only if one side is an integer and the other the float that it is rounded to |
| Diff.AgreeSymmetric | internal/orchestrator/diff.go:101-191 | agreement does not depend on which side is local |
| Diff.IntAgainstFloat | internal/orchestrator/diff.go:179-191 | up to 2^53 an integer and a float are reported, as a replacement, if and only if they are different numbers, on either side |
| Floats.RoundIsNear | internal/orchestrator/diff.go:182-182 | the conversion of an integer past 2^53 is at most half a step of the float grid away, and even on a tie |
| Floats.RoundedIsNearest | internal/orchestrator/diff.go:182-182 | no number with 53 significant bits is nearer, and one as near loses against the even one |
| Floats.RoundedUnique | internal/orchestrator/diff.go:182-182 | an integer is rounded to one number only |
| Floats.FloatOfIff | internal/orchestrator/diff.go:182-182 | the modelled conversion is that rounding, for both signs |
| Floats.SmallIsExact | internal/orchestrator/diff.go:174-178 | up to 2^53 it is exact |
| Diff.ReportsFaithfulIff | internal/orchestrator/diff.go:101-172 | the reported pointers print the edit paths if and only if no binary mismatch lies below the root |
| Diff.NestedBinaryMisreported | internal/orchestrator/diff.go:105-107 | two objects that differ in a binary field, with the mismatch reported at the root |
| Diff.EntryPlacesIff | internal/orchestrator/diff.go:95-208 | the reported pointers parse to the places of the differences if and only if no binary mismatch lies below the root and no edited key ends in white space |
| Diff.EntriesLocatedAndApart | internal/orchestrator/diff.go:95-208 | then every entry holds what the payloads have at the pointer that it reports, and no reported pointer is at or above another |
| Apply.DetectAmbiguity | internal/orchestrator/remote_read.go:107-142 | the loop over the listing reports a conflict exactly when more than one candidate has the identity, which `ApplyCases.CheckListingIff` writes out; other listing faults are ignored |
| Apply.FetchRemoteValue | internal/orchestrator/remote_read.go:27-105 | direct read, then the ambiguity check, or the fallbacks after the faults that allow them, in the order of the calls in the log |
| Apply.ExecuteRemoteMutation | internal/orchestrator/remote_mutation.go:27-69 | one call, whose answer, if there is one, replaces the desired payload |
| Apply.ApplyDesiredState | internal/orchestrator/commands.go:119-183 | state and result of the service after the decision procedure, calls in order |
| Apply.MutationsOfApply | internal/orchestrator/commands.go:119-183 | whatever the service does: no call at all if the conflict checker skips, otherwise at most one mutation, or a create that met a conflict and then an update |
| Apply.ApplySyncs | internal/orchestrator/commands.go:119-183 | a successful apply leaves the object that a read finds, directly or by a fallback, comparing equal to the desired payload |
| Apply.InSyncIsStable | internal/orchestrator/commands.go:119-183 | an unforced apply of an object in sync mutates nothing, succeeds exactly when the listing is unambiguous and the transforms accept the payload, and then the diff is empty |
| Apply.ApplyConverges | internal/orchestrator/commands.go:119-183 | after any successful apply a second unforced one issues no mutation, and the diff is empty where it succeeds |
| Apply.ApplySyncsIff | internal/orchestrator/commands.go:119-183 | without faults, the object is in sync afterwards if and only if there was nothing to update, or the next read finds what was updated, or what it finds compares equal already |
| Apply.ApplyConvergesIff | internal/orchestrator/commands.go:119-183 | without faults, the second apply succeeds without a mutation if and only if that condition holds, the read is unambiguous and the transforms accept the payload |
| Apply.DirectConvergesIff | internal/orchestrator/commands.go:119-183 | for an object that is read directly, the second apply issues no mutation if and only if the object was stored under its own identifier or was in sync before |
| Apply.SilentIffInSync | internal/orchestrator/commands.go:157-182 | without faults, an apply succeeds without a mutation if and only if the object is in sync, the read is unambiguous and the transforms accept the payload |
| Apply.SilenceAndDiff | internal/orchestrator/commands.go:172-172 | apply is silent if and only if both sides are equal, and the diff is empty if and only if they agree up to integers against floats |
| Apply.NumbersDiffer | internal/orchestrator/diff.go:167-191 | a service state in which the diff is empty and apply issues an update: an integer against the float that it converts to |
| Apply.ForeignIdDiverges | internal/orchestrator/commands.go:168-182 | after any number of applies, an object out of sync whose payload names another object is as it was, and the next apply succeeds and updates the other one |
| Apply.ForeignExample | internal/orchestrator/local.go:233-244 | there are such objects, with the identifier in a field of the payload |
| ApplyCases.CheckListingIff | internal/orchestrator/remote_read.go:107-142 | the check reports a conflict if and only if it is on and two entries of the listing have the alias of the resource or its identifier that is not blank, or the listing itself fails with a conflict |
| ApplyCases.ReadQuiet | internal/orchestrator/remote_read.go:27-105 | without faults: the calls of a read, and that it returns the object under the identifier or where the fallbacks look, a conflict if ambiguous, or not found |
| ApplyCases.ApplyCreates | internal/orchestrator/commands.go:142-151 | without an object: the calls, the created object and the returned resource with the answer of the service, or as desired if there is none |
| ApplyCases.ApplyRefuses | internal/orchestrator/commands.go:142-146 | an ambiguous object is left alone and reported as a conflict |
| ApplyCases.ApplyReconciles | internal/orchestrator/commands.go:158-182 | with an object: the identifier taken over, the failure of a transform, the remote payload returned if both sides are equal, and otherwise the update, its target and the returned resource |
| ApplyCases.ReadFaultEnds | internal/orchestrator/remote_read.go:41-43 | a fault of the direct read other than not found and validation ends the run with that fault |
| ApplyCases.ReadFaultSearches | internal/orchestrator/remote_read.go:41-59 | the other two go on to the fallbacks; if these find nothing, a missing object is created and a validation fault returned |
| ApplyCases.SearchFault | internal/orchestrator/remote_read.go:61-104 | a fault of the fallbacks ends the read, except that not found leaves the first fault |
| ApplyCases.RescuedIsCompared | internal/orchestrator/commands.go:158-180 | a value that the fallbacks find is compared like an object and returned if equal |
| ApplyCases.SkippedIsReturned | internal/orchestrator/commands.go:130-140 | if the conflict checker skips, nothing is called and the resource is returned as it is |
| ApplyCases.LateObjectOverwritten | internal/orchestrator/commands.go:148-154 | an object that appears between the read and the create is updated |
| ApplyCases.DiffQuiet | internal/orchestrator/commands.go:347-408 | without faults the diff compares with the object, with null if there is none, and reports ambiguity and failing transforms |
| Properties.EncodePropertiesPayload | resource/payload_codec_kv.go:312-332 | the printed text is the escaped entries in key order, one line each; anything but an object of scalars is refused |
| Properties.EscapePropertiesKey | resource/payload_codec_kv.go:334-354 | the loop escapes character by character, a space at the front only |
| Properties.EscapePropertiesValue | resource/payload_codec_kv.go:356-385 | the loop escapes character by character |
| Properties.HasTrailingUnescapedBackslash | resource/payload_codec_kv.go:206-212 | the line continues exactly when an odd number of backslashes ends it |
| Properties.PropertiesLogicalLines | resource/payload_codec_kv.go:169-198 | the loop with its current line joins continued lines, leading blanks dropped |
| Properties.SplitLinesAre | resource/payload_codec_kv.go:200-204 | replacing line ends and splitting gives the lines ended by any of the three line ends |
| Properties.FindSeparator | resource/payload_codec_kv.go:214-240 | the scan with its escape flag stops at the first separator that is not escaped |
| Properties.SplitPropertiesKeyValue | resource/payload_codec_kv.go:214-264 | the raw key and the value after separator and blanks |
| Properties.UnescapePropertiesString | resource/payload_codec_kv.go:266-310 | the scanner computes the unescaped text, or fails on a bad unicode escape |
| Properties.DecodePropertiesPayload | resource/payload_codec_kv.go:144-167 | later lines override earlier ones; comments and blank lines are skipped |
| Properties.DecodeOfText | resource/payload_codec_kv.go:144-385 | decoding the printed entries gives the entries back, for keys that the format carries |
| Properties.OnlyCarriedKeysReturn | resource/payload_codec_kv.go:144-385 | whatever is printed, only keys that the format carries are read |
| Properties.RoundTripIff | resource/payload_codec_kv.go:144-385 | decoding undoes encoding if and only if no key has a tab, line end, form feed or inner space and the least key does not start with a byte order mark; values are arbitrary |
| Properties.PayloadRoundTripIff | resource/payload_codec_kv.go:144-415 | an object of scalars comes back if and only if its values are strings and its keys come back |
| Properties.KeysThatDoNotReturn | resource/payload_codec_kv.go:334-354 | four keys that do not come back, whatever their value |
| PropertiesText.UnescapeUnits | resource/payload_codec_kv.go:266-310 | text of plain characters, escaped characters and four-digit escapes in either case is read as meant; half of a surrogate pair is the replacement character |
| PropertiesText.BrokenEscape | resource/payload_codec_kv.go:293-303 | a unicode escape without four hexadecimal digits is refused, wherever it stands |
| PropertiesText.FinalBackslash | resource/payload_codec_kv.go:276-280 | a single backslash at the end stands for itself |
| PropertiesText.EntryReads | resource/payload_codec_kv.go:214-264 | key, separator and value of a line for every separator: an equals sign or colon and blanks, or a blank and any separators |
| PropertiesText.PlainEntry | resource/payload_codec_kv.go:214-264 | in plain text the key ends at the first equals sign, colon, space, tab or form feed |
| PropertiesText.LineDecodes | resource/payload_codec_kv.go:144-167 | an indented comment with either mark and a blank line are passed over, any other line gives its key the value |
| PropertiesText.DocumentDecodes | resource/payload_codec_kv.go:144-167 | a text of such lines decodes to the entries as they are meant |
| PropertiesText.LastCounts | resource/payload_codec_kv.go:144-167 | of several entries with one key the last one counts |
| PropertiesText.ContinuationJoins | resource/payload_codec_kv.go:169-198 | breaking a line with a backslash, a line end and blanks does not change what the text decodes to |
| PropertiesText.MarkIgnored | resource/payload_codec_kv.go:174-177 | a byte order mark in front of the text is passed over |
| PropertiesText.IntegersPrinted | resource/payload_codec_kv.go:387-415 | an integer is printed as a numeral of that integer |
| PropertiesText.WordsPrinted | resource/payload_codec_kv.go:387-415 | null is printed as nothing, booleans as words, strings as they are |
| PropertiesText.EncodeFailsIff | resource/payload_codec_kv.go:312-332 | encoding fails if and only if the payload is no object or has a nested field |
| Resolver.DenotationUnique | managedservice/list_jq_resource_resolver.go:57-88 | without cache and cycle check, a path has at most one meaning |
| Resolver.CycleIsMeaningless | managedservice/list_jq_resource_resolver.go:73-75 | a path that leads to itself has no meaning |
| Resolver.MeaninglessIffTrouble | managedservice/list_jq_resource_resolver.go:57-88 | a path has no meaning if and only if a cycle or a failing node is reachable from it |
| Resolver.ListJQResolver.ResolveListJQResource | managedservice/list_jq_resource_resolver.go:57-88 | with cache and cycle check: an answer is the meaning of the path, an error means that it has none; the in-flight set is restored on every exit, the cache only grows, and each path is completed at most once |
| Resolver.ListJQResolver.CallResolver | managedservice/list_jq_resource_resolver.go:79-82 | the same for the error-propagating resolver that asks back |
| Resolver.ResolveOnce | managedservice/list_jq_resource_resolver.go:38-88 | a fresh resolver answers if and only if the path has a meaning, and then with it |
| ResolverSteps.StepKeepsMarks | managedservice/list_jq_resource_resolver.go:121-135 | every atomic step keeps marks and their owners in agreement |
| ResolverSteps.StepKeepsSourced | managedservice/list_jq_resource_resolver.go:108-119 | every atomic step keeps cached values and answers traceable to the resolver |
| ResolverSteps.RunsKeepInvariants | managedservice/list_jq_resource_resolver.go:68-135 | both hold in every state that any interleaving reaches |
| ResolverSteps.AtMostOneInside | managedservice/list_jq_resource_resolver.go:68-87 | in every run at most one caller is inside the resolver for a path |
| ResolverSteps.OnlyMarkerUnmarks | managedservice/list_jq_resource_resolver.go:121-135 | in every run a mark is removed only by the caller that set it |
| ResolverSteps.AnswersComeFromResolver | managedservice/list_jq_resource_resolver.go:68-119 | in every run, cached values and answers for a path were returned by the resolver for that path |
| ResolverSteps.SpuriousCycle | managedservice/list_jq_resource_resolver.go:73-75 | a run in which a caller is told of a cycle because another one was first |
| ResolverSteps.ResolvedTwice | managedservice/list_jq_resource_resolver.go:68-87 | a run in which the resolver returns twice for a path, with two values |
| ResolverSteps.MarkRefusedIff | managedservice/list_jq_resource_resolver.go:121-129 | in every run, a caller is told of a cycle if and only if another caller holds the path |
| ResolverSteps.RefusalGenuineIff | managedservice/list_jq_resource_resolver.go:72-76 | in every run in which resolvers end after their own requests, a refusal is for a path that was asked for on the way to the caller if and only if the caller that holds the path is an ancestor |
| ResolverSteps.ResolvedAgainIff | managedservice/list_jq_resource_resolver.go:68-87 | in every run, a caller that is let in resolves a path again if and only if the path is cached by then |
| ResolverSteps.StepKeepsOrder | managedservice/list_jq_resource_resolver.go:68-135 | while callers of a path come one at a time, every step keeps at most one of them at work and every returned value cached or about to be |
| ResolverSteps.OneAtATimeNotRefused | managedservice/list_jq_resource_resolver.go:68-87 | in every such run no caller is told of a cycle |
| ResolverSteps.OneAtATimeResolvedOnce | managedservice/list_jq_resource_resolver.go:68-87 | in every such run the resolver returns a value for a path at most once |
| Secrets.NormalizationSound | secrets/secret_placeholders.go:42-172 | normalizing placeholders is idempotent and does not change what a payload resolves to |
| Secrets.SamePathSameKey | secrets/secret_placeholders.go:182-192 | joined attribute paths determine the last key up to surrounding white space |
| Secrets.ParseExplicitScope | secrets/secret_placeholders.go:89-134 | a printed placeholder with an explicit key parses to that key |
| Secrets.MaskingInvisible | secrets/secret_masking.go:25-165 | masking succeeds once its candidates are collected, and under every store that holds the masked values the masked payload resolves to what the original resolves to, failures included |
| Secrets.MaskingLeavesNothing | secrets/secret_masking.go:25-165 | nothing is detected in a masked payload, and masking it again changes and stores nothing |
| Secrets.Resolution.ResolveString | secrets/secret_resolution.go:185-209 | with its cache, the same as reading the store under the key of resource path and attribute, and the cache keeps agreeing with the store |
| Secrets.Resolution.ResolvePayloadValue | secrets/secret_resolution.go:145-213 | the recursion with the shared cache resolves every string of the payload, or fails as a whole |
| Secrets.MaskCollector.CollectMaskCandidates | secrets/secret_masking.go:60-119 | the recursion over the shared maps collects the candidates in key order, or fails on a malformed placeholder or on conflicting scopes |
| Secrets.NormalizePlaceholdersValue | secrets/secret_placeholders.go:42-87 | the loops that fill fresh containers normalize every string of the payload, or fail as a whole |
| Secrets.MaskValue | secrets/secret_masking.go:121-165 | the loops that fill fresh containers mask exactly the plain strings at candidate paths |
| Secrets.DetectionCollector.CollectDetectedCandidates | secrets/secret_detection.go:47-82 | the recursion over the shared set detects the paths of plain, likely values under likely keys, or fails on a malformed placeholder |
| Secrets.StoreAll | secrets/secret_masking.go:41-50 | each collected value is stored under the key that its placeholder resolves to, and no other secret changes; after a fault of the store the values of the first keys are stored |
| Secrets.MaskPayload | secrets/secret_masking.go:25-58 | the masked payload under the new store resolves to what the original resolves to under it, and to what the original resolved to under the old store exactly when it fails or no placeholder clashes with a masked value; a refused payload stores nothing, and a fault of the store leaves the values of the first keys stored |
| Secrets.ResolvesSameIff | secrets/secret_resolution.go:145-213 | what resolves under one store resolves to the same under another if and only if the keys that it refers to have the same secrets there |
| Secrets.MaskedStoreIff | secrets/secret_masking.go:25-58 | a payload resolves after masking to what it resolved to before if and only if it does not resolve or no placeholder refers to a masked attribute whose secret was missing or another one |
| Secrets.SharedAttribute | secrets/secret_placeholders.go:182-192 | keys that differ in surrounding white space share an attribute |
| Secrets.BlankKeyShares | secrets/secret_placeholders.go:182-192 | what lies below a blank key has the attributes of the root |
| Secrets.AliasedChanges | secrets/secret_masking.go:25-58 | for all such keys: the payload with a plain value under one and a placeholder under the other is masked, and resolves differently after masking, unless the store had that value already |
| SecretPlaces.PathIsPointer | secrets/secret_placeholders.go:182-192 | the attribute path of a place is the JSON Pointer of its trimmed keys and indices |
| SecretPlaces.PathAfterBlank | secrets/secret_placeholders.go:182-192 | a blank key starts the attribute path anew |
| SecretPlaces.WalkSucceedsIff | secrets/secret_resolution.go:145-213 | resolving or normalizing succeeds if and only if the payload is not nested too deeply and every string can be rewritten |
| SecretPlaces.WalkRewrites | secrets/secret_resolution.go:145-213 | each string is then rewritten by its attribute path, and nothing else changes |
| SecretPlaces.DepthLimit | secrets/secret_resolution.go:145-160 | 256 levels of nesting are accepted and 257 are not |
| SecretPlaces.MaskSucceedsIff | secrets/secret_masking.go:60-119 | masking succeeds if and only if the payload is not nested too deeply, every secret-looking field is null or a string without a malformed placeholder, and no two plain secrets share a key or an attribute path |
| SecretPlaces.MaskedValues | secrets/secret_masking.go:60-119 | the stored values are exactly the texts of the plain secrets, by attribute path |
| SecretPlaces.MaskReplaces | secrets/secret_masking.go:121-165 | the plain secrets are replaced by the placeholder of their place, at every depth, and nothing else changes |
| SecretPlaces.DetectIff | secrets/secret_detection.go:27-82 | a path is detected if and only if a plain, likely text under a secret-looking key stands there; detection fails if and only if the payload is nested too deeply or such a key has a malformed placeholder |
| SecretKeys.PlaceholderIff | secrets/secret_placeholders.go:89-107 | a string is a placeholder if and only if it is the word secret in double braces, blanks around aside, followed by nothing or an ASCII blank |
| SecretKeys.PlaceholderText | secrets/secret_placeholders.go:89-134 | what follows the word, trimmed, is the argument |
| SecretKeys.AsciiSpaces | secrets/secret_placeholders.go:100-105 | the blanks that end the word are the white space below 128 |
| SecretKeys.WordArgument | secrets/secret_placeholders.go:129-133 | an unquoted argument is a key if it is one word and refused otherwise |
| SecretKeys.CurrentNormalizes | secrets/secret_placeholders.go:42-87 | a placeholder of the place itself, however it is spaced, is normalized to one text, and refused at the root |
| SecretKeys.WordNormalizes | secrets/secret_placeholders.go:42-87 | a placeholder with a word, however it is spaced, is normalized to the quoted word, and refused if the word starts with a slash |
| SecretKeys.PlainStays | secrets/secret_placeholders.go:42-107 | every other string is neither normalized nor resolved |
| SecretKeys.CurrentReads | secrets/secret_placeholders.go:136-172 | the placeholder of the place itself reads the key of resource path, colon and attribute path, and fails at the root |
| SecretKeys.WordReads | secrets/secret_placeholders.go:136-172 | a placeholder with a word reads the key of resource path, colon and word; a word that starts with a slash is refused |
| SecretKeys.FieldReads | secrets/secret_resolution.go:185-209 | an object whose field is its own placeholder resolves to the secret under the resource path, a colon, a slash and the escaped field name, and fails if there is none |
| SecretKeys.KeysMeetIff | secrets/secret_placeholders.go:147-151 | two resources have a key in common if and only if a path is blank, both are the same, or one goes on with a colon after the other |
| SecretKeys.ResourcesApart | secrets/secret_placeholders.go:136-152 | otherwise what is stored for one resource does not change what the payloads of the other resolve to |
| SecretKeys.MaskingIsLocal | secrets/secret_masking.go:25-58 | masking a payload of one resource does not change what any payload of another one resolves to, for different paths that are not blank and have no colon |
| SecretKeys.UnscopedReads | secrets/secret_placeholders.go:147-149 | a payload without a resource path that reads the secret of a resource |
| JsonPointer.UnescapeJSONPointerToken | resource/jsonpointer.go:141-167 | the scanner is the strict unescape |
| JsonPointer.EscapeIsPerCharacter | resource/jsonpointer.go:46-49 | two replacement passes escape each character on its own |
| JsonPointer.UnescapeOfEscape | resource/jsonpointer.go:46-167 | unescaping undoes escaping, and no escaped token holds a slash |
| JsonPointer.EscapeOfUnescape | resource/jsonpointer.go:46-167 | escaping undoes unescaping on every accepted token |
| JsonPointer.UnescapesAgree | metadata/openapi_infer_schema.go:273-300 | the two replacement passes of the reference walker agree with the strict unescape on every token that it accepts |
| JsonPointer.PrintOfParse | resource/jsonpointer.go:25-62 | printing a parsed pointer gives the trimmed pointer |
| JsonPointer.ParseOfPrint | resource/jsonpointer.go:25-62 | parsing undoes printing if and only if the last token does not end in white space |
| JsonPointer.LookupTokens | resource/jsonpointer.go:68-95 | the loop that walks down is the recursive lookup |
| JsonPointer.LookupAfterSet | resource/jsonpointer.go:186-234 | a successful set is seen by lookup |
| JsonPointer.SetKeepsOthers | resource/jsonpointer.go:186-234 | every pointer that resolved before and parts ways with the set one keeps its value |
| JsonPointer.SetFailsIffBlocked | resource/jsonpointer.go:186-234 | set fails if and only if the walk meets a container of the wrong kind |
| PointerSet.DeepCopyValue | resource/jsonpointer.go:122-139 | the copy stands for the same payload, shares no container with anything and changes none |
| PointerSet.SetValue | resource/jsonpointer.go:186-234 | in place: the tree afterwards stands for the payload that Set gives and stays a tree; a refusal leaves every container as it was, also when the value shares containers with the tree |
| PointerSet.SetJSONPointerValue | resource/jsonpointer.go:106-112 | afterwards the pointer resolves to the value and all diverging pointers to what they did, or nothing has changed, exactly when the pointer is malformed or blocked |
| Transforms.NormalizePointers | internal/orchestrator/json_pointer.go:84-107 | the loop with its seen-set gives the sorted set of trimmed pointers, or fails on a malformed one |
| Transforms.ApplySuppressPointers | internal/orchestrator/json_pointer.go:63-82 | the loop deletes the pointers in order; the root pointer gives null |
| Transforms.DeleteAllIsWithout | resource/jsonpointer.go:236-291 | deleting object-key paths one after the other removes the set of paths, in whatever order and however often they occur |
| Transforms.ExcludeIsWithout | internal/orchestrator/json_pointer.go:63-107 | excluding object-key pointers depends on the set of their paths only |
| Transforms.ExcludeTwice | internal/orchestrator/json_pointer.go:63-82 | excluding object-key pointers is idempotent |
| Transforms.LookupWithout | resource/jsonpointer.go:236-291 | what every pointer resolves to after the exclusion |
| Transforms.ExcludeExactIff | resource/jsonpointer.go:275-290 | exactly the subtrees at the excluded paths are gone if and only if no path runs through a null that is not excluded itself |
| Transforms.NullRemoved | resource/jsonpointer.go:280-287 | a path below a null takes the null with it |
| Transforms.ExcludeKeepsOthers | resource/jsonpointer.go:236-291 | what lies aside of every excluded path keeps its value |
| Transforms.ExcludeShiftsIndices | resource/jsonpointer.go:253-255 | array elements shift: excluding indices 0 and 1 removes the first and the third element, and excluding an index is not idempotent |
| Transforms.DeleteAllIsPruned | resource/jsonpointer.go:236-291 | deletions with array indices remove exactly the set of their paths if no path steps, in an array that it passes through, to or behind an element that an earlier one deletes |
| Transforms.ExcludeIsPruned | internal/orchestrator/json_pointer.go:63-107 | so does exclusion, in the sorted order of its pointers |
| Transforms.ApplyFilterPointers | internal/orchestrator/json_pointer.go:24-61 | the loop copies the found values one after the other and ends with an empty container where nothing was found |
| Transforms.SelectKeeps | internal/orchestrator/json_pointer.go:24-61 | selecting pointers that respect the shape never fails, keeps every found value, and gives a part of the payload padded with null elements |
| Transforms.SelectOnly | internal/orchestrator/json_pointer.go:24-61 | away from the pointers that resolve, the result holds nothing but null |
| Transforms.SelectIff | internal/orchestrator/json_pointer.go:24-107 | with array indices without leading zeros, selection succeeds with a part of the payload if and only if the root is selected or every pointer that resolves respects the shape |
| Transforms.NumericKeySelected | internal/orchestrator/json_pointer.go:31-47 | a selected numeric object key becomes an array index, and together with another key it fails |
| Transforms.RootPointerTakesAll | internal/orchestrator/json_pointer.go:24-82 | a blank pointer among well-formed ones makes exclusion give null and selection give the payload |
| Transforms.NothingSelected | internal/orchestrator/json_pointer.go:24-61 | where no pointer resolves, selection gives an empty container of the same kind, or null |
| Paths.SplitRawPathSegments | resource/paths.go:162-198 | the scanner with its template depth and buffer splits outside templates only |
| Paths.JoinOfScan | resource/paths.go:172-197 | joining the scanned segments gives the scanned text back, whatever the templates |
| Paths.ScanIsSplit | resource/paths.go:172-197 | without templates the scanner is the plain split at slashes |
| Paths.ReservedIff | resource/paths.go:103-116 | without templates, a cleaned path is refused if and only if a segment is "_", white space at the end of the path aside |
| Paths.CleanRawPathIsClean | resource/paths.go:39-65 | a cleaned path is the rendering of non-empty segments without dots, slashes and backslashes |
| Paths.NormalizeIdempotent | resource/paths.go:39-116 | cleaning and normalizing are idempotent |
| Paths.OverlapIsPrefix | resource/paths.go:118-247 | the string test on two paths holds if and only if one segment list is a prefix of the other |
| Paths.RelatedIffShared | resource/paths.go:118-138 | that is so if and only if some path lies in both scopes |
| Admission.NormalizeSettled | api/v1alpha1/common_types.go:148-164 | the API normalization is idempotent on paths that do not end in white space |
| Admission.NormalizeAgain | api/v1alpha1/common_types.go:148-164 | what it gives on those that do |
| Admission.CheckIsExact | api/v1alpha1/common_types.go:168-188 | for other candidates the overlap check finds exactly the scopes that share a path |
| Admission.CheckIsSoundIff | api/v1alpha1/common_types.go:168-188 | the check finds every overlapping policy if and only if the candidate does not drift |
| Admission.SpacedSegmentDrifts | api/v1alpha1/common_types.go:148-164 | paths with a white space before their last slash drift |
| Admission.ValidateNoOverlap | api/v1alpha1/webhook.go:291-337 | the loops over policies and generators refuse exactly the candidates that collide with a live one |
| Admission.ValidateCreate | api/v1alpha1/webhook.go:273-285 | on any listing of the namespace, the decision that the run model uses |
| Admission.AdmittedIff | api/v1alpha1/webhook.go:273-337 | a request is admitted if and only if it is valid and its normalized path is clear of every policy of another name and of every collection path of a generator, those being deleted aside |
| Admission.StepKeepsSingleOwner | api/v1alpha1/webhook.go:273-314 | every admitted create, update and deletion keeps the scopes of live policies disjoint, unless its path drifts |
| Admission.RunsKeepSingleOwner | api/v1alpha1/webhook.go:273-314 | so does every run of them: no logical path is in the scopes of two live policies |
| Admission.DriftBreaksSingleOwner | api/v1alpha1/webhook.go:302-318 | for every drifting path, two policies with it are admitted one after the other |
| Calendar.DateOfNumber | cronexpr/cronexpr.go:86-99 | the date of the day number of a date is that date |
| Calendar.NumbersInOrder | cronexpr/cronexpr.go:114-124 | day numbers follow the order of dates |
| Calendar.PartsOfAt | cronexpr/cronexpr.go:86-99 | day, hour and minute of a composed minute |
| Calendar.KnownWeekdays | cronexpr/cronexpr_test.go:65-68 | the weekday count is anchored at a known Monday |
| Cron.AddFieldPart | cronexpr/cronexpr.go:160-222 | marks exactly the values of the list item and keeps the others, refuses without a change, or panics exactly when the second value overflows |
| Cron.ReachedIff | cronexpr/cronexpr.go:218-220 | the marked values are the multiples of the step from the first value on |
| Cron.LargestStepPanics | cronexpr/cronexpr.go:160-222 | an expression whose parsing panics |
| Cron.ParseField | cronexpr/cronexpr.go:126-158 | the field allows exactly what some list item says, as `CronText.PartOfIff` reads it; the final check for an allowed value never fails |
| Cron.Parse | cronexpr/cronexpr.go:49-83 | succeeds exactly when all five fields do, and each field means its word, written out in `CronText.ScheduleOfExpression` |
| Cron.Next | cronexpr/cronexpr.go:114-124 | the least matching minute strictly after the argument; none only if no minute up to the limit matches; and one if and only if the schedule recurs every year or an allowed leap day is within the limit |
| Cron.MatchesIff | cronexpr/cronexpr.go:86-111 | a minute matches if and only if its minute, hour and month are allowed and, for the day, both day fields allow it when one of them is a wildcard, and one of them does otherwise |
| Cron.NextExistsIff | cronexpr/cronexpr.go:86-124 | a matching minute is within five years if and only if days of the week are restricted, no days are, a day that every year has is allowed, or an allowed leap day is ahead |
| Cron.LeapYearAhead | cronexpr/cronexpr.go:114-124 | a leap year among the next four years suffices |
| Cron.LeapGap | cronexpr/cronexpr.go:114-124 | before a century year that is no leap year nothing matches within five years |
| Cron.LeapGapExample | cronexpr/cronexpr.go:114-124 | the schedule `0 0 29 2 *` matches nothing within five years from 1 March 2096 |
| CronText.ItemText | cronexpr/cronexpr.go:160-222 | a star, a number or a range, with or without a step, is read as its first and last value and its step; it is refused exactly when out of bounds or out of order, with a step that is not positive, or as a range that ends in 7 in the last field |
| CronText.ItemAllowsIff | cronexpr/cronexpr.go:160-222 | it allows exactly the values of its range that are a whole number of steps from the first; a 7 in the last field allows 0 |
| CronText.PartOfIff | cronexpr/cronexpr.go:160-236 | for every text: an item is accepted, and as what, if and only if it is so written, with blanks, signs and leading zeros as the code takes them |
| CronText.PaddedSeven | cronexpr/cronexpr.go:193-195 | a range from "07" is accepted in the last field, and begins at Sunday |
| CronText.FieldAllowsIff | cronexpr/cronexpr.go:126-158 | a list of items allows exactly the values of its items |
| CronText.FieldAddedIff | cronexpr/cronexpr.go:126-158 | a list is accepted if and only if all its items fit and none overflows |
| CronText.WildcardIff | cronexpr/cronexpr.go:132-137 | only a star by itself makes a field a wildcard |
| CronText.ExpressionAddedIff | cronexpr/cronexpr.go:49-83 | an expression is accepted if and only if it has five fields and every item fits its field |
| CronText.ScheduleOfExpression | cronexpr/cronexpr.go:49-83 | each field of the schedule then has exactly the values that its items allow |
| CronText.WindowIsFiveYears | cronexpr/cronexpr.go:114-117 | the search runs from the first whole minute after the argument to the same minute five years later, 1 March for a missing 29 February |
| Template.Tokenize | metadata/identitytemplate/template.go:285-336 | the loop with its quote and escape flags computes the tokens, or fails on an open quote |
| Template.CompileTemplate | metadata/identitytemplate/template.go:157-237 | the loop over the offset computes pieces and pointers, pointers in order of first occurrence |
| Template.RenderTemplate | metadata/identitytemplate/template.go:126-141 | the loop over the parts renders them in order and stops at the first failure |
| Template.PointersAreExact | metadata/identitytemplate/template.go:157-283 | a compiled template reports a pointer if and only if it occurs in an expression |
| Template.RenderDependsOnPointers | metadata/identitytemplate/template.go:404-529 | payloads with equal lookups at the reported pointers render to the same text or the same failure |
| Template.LonePointer | metadata/identitytemplate/template.go:115-222 | a bare pointer without blanks, quotes and doubled braces compiles as its template does, reports itself and renders to the text of what it resolves to |
| Template.EmptyQuoteHidesPointer | metadata/identitytemplate/template.go:292-299 | a pointer after an empty quoted string is read as a literal |
| TemplateCases.LonePointerIff | metadata/identitytemplate/template.go:115-222 | a bare pointer stands for the expression of itself if and only if it has no blank, quote or doubled brace and does not end in a closing one |
| TemplateCases.WordQuotedIff | metadata/identitytemplate/template.go:285-336 | in every text that scans, a word without quotes is marked as quoted if and only if an empty quoted string stands between it and the token before it |
| TemplateCases.SlashArgumentsIff | metadata/identitytemplate/template.go:267-276 | in every helper expression that compiles, an argument that starts with a slash is taken for a literal if and only if it is quoted or malformed |
| TemplateCases.MalformedAlone | metadata/identitytemplate/template.go:248-259 | on its own a malformed pointer is refused |
| TemplateCases.MalformedTemplate | metadata/identitytemplate/template.go:239-283 | a default with a malformed pointer compiles, reports the other pointer only and renders the malformed one for every payload |
| TemplateCases.MalformedExample | resource/jsonpointer.go:141-167 | there are such pointers |
| TemplateCases.EvalPanicsIff | metadata/identitytemplate/template.go:450-523 | a compiled expression panics if and only if it is a substring whose arguments have values, whose start lies in the text, whose length is not negative and whose end is past the largest int |
| TemplateCases.RenderPanicsIff | metadata/identitytemplate/template.go:126-141 | a template panics if and only if its first expression without a value does |
| TemplateCases.SubstringPanics | metadata/identitytemplate/template.go:473-497 | a template that panics on every payload with a name |
| TemplateText.PiecesOfText | metadata/identitytemplate/template.go:157-211 | a template is its text up to the first double brace, then the expression, then the rest |
| TemplateText.PiecesOfPlainText | metadata/identitytemplate/template.go:166-172 | a text without a brace is a template of that text |
| TemplateText.RenderOfText | metadata/identitytemplate/template.go:126-141 | the text is rendered as it is, followed by what the expression gives; an expression without a value fails the template |
| TemplateText.HelperCompilesIff | metadata/identitytemplate/template.go:338-374 | a template of several words compiles if and only if the first is a helper that takes so many arguments |
| TemplateText.NameArgument | metadata/identitytemplate/template.go:376-394 | an argument of letters, digits and underscores stands for the field of that name, any other word without a leading slash for itself |
| TemplateText.BlankSeparates | metadata/identitytemplate/template.go:285-336 | a space, tab or line end separates words |
| TemplateText.QuotesEnclose | metadata/identitytemplate/template.go:292-336 | a text in double or single quotes is one quoted word, and a backslash takes the next character as it is |
| TemplateText.CaseText | metadata/identitytemplate/template.go:452-463 | uppercase and lowercase, under both names, say the text at the pointer in upper and lower case, and fail without one |
| TemplateText.TrimText | metadata/identitytemplate/template.go:464-473 | trim says the text without the blanks around it |
| TemplateText.DefaultSays | metadata/identitytemplate/template.go:508-519 | default says the first text there is, fails if there is none, and does not go past a value that has no text |
| TemplateText.SubstringFrom | metadata/identitytemplate/template.go:474-507 | substring with a start says the text from there on, and fails past the end or on a blank |
| TemplateText.SubstringOf | metadata/identitytemplate/template.go:474-507 | substring with start and length says so many characters, and fails past the end or on a blank |
| TemplateText.PointersOnce | metadata/identitytemplate/template.go:224-237 | no pointer is reported twice |

## Left out

- Normalization of payloads, JSON and YAML encoders, jq, base64, git, HTTP, vault and Kubernetes wiring: libraries and I/O; payloads start out normalized.
- Floating point: floats are reals with a rounding conversion from integers; formatting is not modelled.
- Bytes: strings are sequences of characters, which agrees with the byte scanners on everything they test.
- Error messages: failures are told apart by category only.
- Deletion in place: `JsonPointer.Delete` and `Externalization.Assign` are on values; only setting a JSON Pointer value is modelled on the heap, so aliasing of a deleted element's backing array is not captured.
- Allocation limits: setting at a huge array index fails to allocate in Go; the model pads without bound.
- PointerSet.SetValue: takes the containers of the tree as a ghost argument and asks that no container occurs in it twice, because the code builds its trees so.
- Externalization.ExpandOfExtract: asks for arrays no longer than a Go slice can be, because index tokens are parsed as Go integers.
- ExternalizationCases.CollectIsExact: asks for the same, and so do the lemmas that follow from it.
- Defaults: type compatibility of defaults files, file includes and the inference from created resources (resource/defaults_overlay.go:113-160, 200-219).
- Artifact stores: that a store refuses unsafe file names, and faults while it writes.
- Apply.FetchRemoteValue: the list, metadata-path and singleton fallbacks are one call, which finds an object by a function of the objects or, in runs with other clients, any value, because they depend on arbitrary listings.
- SaveRead.ReadLocalResource: does not model the search for a missing path among the listed resources, because it depends on the identity attributes of arbitrary resources.
- Apply: secret resolution before the comparison, the whole-resource-secret comparison and the sorting of the diff document; jq in the compare transforms is a function that may fail.
- Secrets: key and value classification are predicates of which only invariance under trimming is used, and quoting is a function with its inverse.
- Secrets: placeholders for the whole payload descriptor (secrets/secret_resolution.go:102-143, 215-261).
- Properties: the INI codec, which has the same shape, and the text of floats and binary content, which is a function.
- Resolver: paths are normalized by a function parameter, and a resolver makes a bounded number of requests per path; contexts and the mutex are the atomicity of the steps.
- Transforms.SelectIff: asks for array indices without leading zeros, because pointers that spell an index in two ways can mend each other's damage; for the others `SelectKeeps` gives one direction.
- Transforms.ExcludeIsPruned: gives a sufficient condition only, because a path that hits a shifted element does no harm where another path has removed the same subtree already.
- Paths.ReservedIff: leaves out paths with templates, for which the scanned segments are the definition.
- Admission: environment expansion is a fixed function, listings are fresh and requests come one at a time; generators are checked as the code does, from the side of the policy, so there is no invariant about them.
- Paths: the raw path options other than the missing leading slash, joining and child segments.
- Cron: times are UTC instants; the limits of time.Time are not modelled.
- Template: case mapping and the text of scalars other than strings are functions; the cache of compiled templates is not modelled.
