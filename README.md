# Cyclid job linter, modelled in Dafny

This project models the job linter of Cyclid (`lib/cyclid/linter.rb`). Cyclid
uses it to read a job definition and report obvious mistakes before the job
runs. The linter has two classes:

- `StatusLogger` is an append-only log of `{type, text}` records. It keeps a
  count of warnings and a count of errors.
- `Verifier` owns one `StatusLogger`. Its `verify` method writes findings in a
  fixed order:
  1. the top-level keys of the job;
  2. the `stages` catalogue, which also records the declared stage names in
     `@ad_hoc_stages`;
  3. the `sequence`, whose lower-cased and de-duplicated dependencies are
     checked against that list and then against the tri-state resolver
     `stage_exists?` (UNKNOWN / NOT_EXIST / EXISTS).

  Any Ruby exception raised on the way becomes a single final error, and
  verification stops there.

Files:

- `job_document.dfy` (module `JobDocument`): the keyed job document as a
  JSON-like `Value`, plus the Ruby core methods the linter relies on (`empty?`,
  `each`, `downcase`, string interpolation, `uniq!`). A call that Ruby would
  reject with NoMethodError returns `Fault`.
- `status_logger.dfy` (module `StatusLog`): the `StatusLogger` class. Its
  invariant is that both counters equal the number of records of their type.
- `lint_spec.dfy` (module `LintSpec`): every message text, verbatim, and
  `verify` written as functions: what one call appends to the log and the
  ad-hoc stage list it leaves behind. Loops are written as folds that stop at
  the first raise.
- `verifier.dfy` (module `Linter`): the `Verifier` class. Its fields are
  `status`, `adHocStages` and `stageExists`. `initialize`, `verify`,
  `verify_stages` and `verify_sequence` are methods, and so is each loop and
  loop block. `stage_exists?` is not a method: it is the field
  `stageExists`, a function the constructor sets, so that a subclass's
  override can be given as a resolver. Each method is proved to append
  exactly what the specification functions say.
- `lint_properties.dfy` (module `LintProperties`): the properties of the
  linter, stated on those functions.

Three behaviours of the code are easy to misread:

- A document that is not a mapping raises in `deep_symbolize_keys` (line 64).
  So "Job is not a hash?" is never logged; the log gets the single
  "An unexpected error occured …" error instead.
- `{}` draws five findings: three errors ("Job is empty?", no name, no
  sequence) and two warnings (no version, no environment).
- `@ad_hoc_stages` belongs to the Verifier instance. It is not set in
  `initialize`, it is reset only when a job has `stages`, and it survives from
  one `verify` call to the next.

Declared names keep their case, but dependencies are lower-cased before the
exact comparison. So a stage declared as 'Build' and run as 'Build' is still
reported as not defined in the job.

## Model

| member | source | states |
|---|---|---|
| StatusLog.StatusLogger.constructor | lib/cyclid/linter.rb:32-36 | A new logger has no records and both counters are zero, so the counter invariant holds. |
| StatusLog.StatusLogger.Warning | lib/cyclid/linter.rb:38-41 | Appends exactly one WARNING record with the given text at the end and leaves earlier records unchanged. The warning counter goes up by one and the error counter is unchanged, so the invariant is kept. |
| StatusLog.StatusLogger.Error | lib/cyclid/linter.rb:43-46 | Appends exactly one ERROR record with the given text at the end and leaves earlier records unchanged. The error counter goes up by one and the warning counter is unchanged, so the invariant is kept. |
| StatusLog.Count | lib/cyclid/linter.rb:25 | The number of records of one type never exceeds the number of records; the class invariant ties each counter to it. |
| StatusLog.CountsPartition | lib/cyclid/linter.rb:27-30 | Every record is a WARNING or an ERROR, so the two counters add up to the number of records. |
| StatusLog.CountConcat | lib/cyclid/linter.rb:38-46 | The number of records of a type in two logs laid end to end is the sum of the two counts. Appending a call's findings therefore raises each counter by that call's count. |
| StatusLog.CountersFollow | lib/cyclid/linter.rb:38-46 | Counters that match the log before and after an append grow by exactly the number of appended records of each type. |
| JobDocument.IsEmpty | lib/cyclid/linter.rb:129-130 | `empty?` answers for a String, Array or Hash and raises for a number, boolean or nil. A String answers whether it has no characters, an Array whether it has no elements, a Hash whether it has no entries. |
| JobDocument.Members | lib/cyclid/linter.rb:106-107 | `each` yields an Array's elements in order. A Hash yields one pair per entry, none of which is a Hash. A String raises. |
| JobDocument.Downcase | lib/cyclid/linter.rb:162 | Lower-casing keeps the length, maps each character to its lower case at the same position, and leaves no upper-case letter. |
| JobDocument.DowncaseIdempotent | lib/cyclid/linter.rb:162-164 | Lower-casing twice gives the same as lower-casing once. |
| JobDocument.DowncaseOf | lib/cyclid/linter.rb:162-164 | `downcase` succeeds exactly on Strings and raises on any other value. |
| JobDocument.Render | lib/cyclid/linter.rb:121 | Interpolating a String name gives the name itself. |
| JobDocument.Uniq | lib/cyclid/linter.rb:166 | `uniq!` leaves a list without repetitions and with the same elements as before. |
| JobDocument.Dedup | lib/cyclid/linter.rb:166 | `uniq!` never makes a list longer; the Dedup lemmas below fix its result exactly. |
| JobDocument.DedupElements | lib/cyclid/linter.rb:166 | A value survives de-duplication exactly when it occurred in the list. |
| JobDocument.DedupNoDuplicates | lib/cyclid/linter.rb:166 | The de-duplicated list has no repeated element. |
| JobDocument.DedupOfDistinct | lib/cyclid/linter.rb:166 | A list without repetitions is left unchanged. |
| JobDocument.DedupKeepsFirstOccurrenceOrder | lib/cyclid/linter.rb:166 | Survivors appear in the order of their first occurrences. |
| LintSpec.DefaultStageExists | lib/cyclid/linter.rb:184-188 | The base `stage_exists?` answers UNKNOWN for every name. |
| LintSpec.FaultMessage | lib/cyclid/linter.rb:91-92 | The rescue error is "An unexpected error occured during the verification: " followed by exactly the exception's text. |
| LintSpec.TopLevel | lib/cyclid/linter.rb:70-84 | The top-level checks draw at most five findings, and all five exactly for an empty job. Which finding fires when is stated by `TopLevelFires`. |
| LintSpec.CheckStage | lib/cyclid/linter.rb:107-134 | One stage item declares its name exactly when it is a mapping with `name`. It raises exactly when its `steps` is a number, boolean or nil, and then it has logged nothing. It draws at most two findings. |
| LintSpec.Catalogue | lib/cyclid/linter.rb:106-135 | The loop over the stage items declares at most one name per item and draws at most two findings per item. |
| LintSpec.StagesPass | lib/cyclid/linter.rb:97-136 | The ad-hoc list is left unset exactly when `stages` has no `empty?`; then only the "not an Array" error is logged before the raise. A `stages` that is not an Array always draws that error first, and a String raises in `each`. |
| LintSpec.OptionalDependency | lib/cyclid/linter.rb:163-164 | An absent `on_success`/`on_failure` contributes nothing. A present one contributes its lower case when it is a String and raises otherwise. |
| LintSpec.EntryDependencies | lib/cyclid/linter.rb:162-164 | An entry's dependencies are gathered exactly when `stage` and every present `on_success`/`on_failure` are Strings. They are one to three names, the lower-cased `stage` first. |
| LintSpec.CheckEntry | lib/cyclid/linter.rb:148-164 | Every entry draws exactly one finding, a warning exactly when it is a mapping with `stage`. Only such an entry can raise, and then it contributes no dependency. |
| LintSpec.Entries | lib/cyclid/linter.rb:146-165 | The loop over the entries draws at most one finding per entry, and exactly one per entry when it runs to its end. |
| LintSpec.CheckDependency | lib/cyclid/linter.rb:170-180 | One dependency raises exactly when there is no stage list. It draws at most one finding, and only when it is not a declared name. |
| LintSpec.CrossReference | lib/cyclid/linter.rb:169-181 | The loop raises exactly when there is no stage list and at least one dependency. It draws at most one finding per dependency. |
| LintSpec.SequencePass | lib/cyclid/linter.rb:138-182 | A `sequence` without `empty?` draws only the "not an Array" error and raises. Any non-Array draws that error first, and a String raises in `each`. |
| LintSpec.Body | lib/cyclid/linter.rb:63-90 | A non-mapping document logs nothing and raises. A mapping's findings start with its top-level findings. Without `stages` the ad-hoc list is kept. A raise in `stages` ends the body there: the findings are the top-level and `stages` findings only, and the `sequence` is never examined. |
| LintSpec.Verification | lib/cyclid/linter.rb:63-93 | One `verify` call logs the body's findings and leaves the body's list. Exactly when the body raised, one more finding follows: the rescue error for that exception. A non-mapping document logs only that error and keeps the list. |
| LintSpec.CatalogueStops | lib/cyclid/linter.rb:106-135 | Once a stage item raises, the items after it are never examined. |
| LintSpec.EntriesStop | lib/cyclid/linter.rb:147-165 | Once a sequence entry raises, the entries after it are never examined. |
| LintSpec.CrossReferenceStops | lib/cyclid/linter.rb:169-181 | Once a dependency check raises, the dependencies after it are never examined. |
| Linter.Verifier.constructor | lib/cyclid/linter.rb:59-61 | A new Verifier has a fresh, empty logger and no ad-hoc stage list. Its resolver answers UNKNOWN for every name. |
| Linter.Verifier.WithResolver | lib/cyclid/linter.rb:184-188 | A Verifier whose `stage_exists?` is replaced by the given resolver. It starts with an empty log and no ad-hoc stage list. |
| Linter.Verifier.Verify | lib/cyclid/linter.rb:63-93 | Appends exactly the findings of one verification after the existing records, and leaves the resulting ad-hoc list. A raise adds exactly one final error. Each counter grows by the number of new records of its type. |
| Linter.Verifier.VerifyBody | lib/cyclid/linter.rb:63-90 | In order: the top-level findings, then those of `stages` when present. A raise in `stages` stops everything; otherwise the findings of `sequence` follow when present. |
| Linter.Verifier.VerifyTopLevel | lib/cyclid/linter.rb:70-84 | The five top-level checks each fire independently, in source order. |
| Linter.Verifier.VerifyStages | lib/cyclid/linter.rb:97-136 | Logs the shape and emptiness findings and resets the ad-hoc list. Then checks every item, stopping at a raise. A raise in `empty?` leaves the old list. |
| Linter.Verifier.VerifyCatalogue | lib/cyclid/linter.rb:106-135 | The loop over the items: the log and the ad-hoc list grow by exactly the fold of the per-item checks, up to the first raise. |
| Linter.Verifier.VerifyStage | lib/cyclid/linter.rb:107-134 | One item: a non-mapping or nameless item draws one error. Otherwise the name is recorded first, then the steps findings and the version warning follow. |
| Linter.Verifier.VerifySequence | lib/cyclid/linter.rb:138-182 | Logs the shape and emptiness findings, checks every entry, removes duplicate dependencies, and cross-references each distinct one, stopping at the first raise. |
| Linter.Verifier.VerifyEntries | lib/cyclid/linter.rb:146-165 | The loop over the entries: logs the fold of the per-entry checks and returns the collected dependencies. |
| Linter.Verifier.VerifyEntry | lib/cyclid/linter.rb:148-164 | One entry: an error for a non-mapping or an entry without `stage`. Otherwise the version warning, then the lower-cased `stage`, `on_success` and `on_failure`. |
| Linter.Verifier.VerifyDependencies | lib/cyclid/linter.rb:169-181 | The loop over the distinct dependencies: logs exactly the cross-reference findings. |
| LintProperties.EmptyJob | lib/cyclid/linter.rb:67-90 | `{}` draws exactly 'Job is empty?', no name, no version, no environment and no sequence, in that order: three errors and two warnings. The ad-hoc list is unchanged. |
| LintProperties.TopLevelCounts | lib/cyclid/linter.rb:70-84 | Each top-level check that fires adds one finding of its own type. Errors count an empty job, a missing name and a missing sequence; warnings count a missing version and a missing environment. |
| LintProperties.TopLevelFires | lib/cyclid/linter.rb:70-84 | Each top-level finding is present exactly when its own condition holds: empty job, no name, no version, no environment, no sequence. |
| LintProperties.NonMappingJob | lib/cyclid/linter.rb:63-93 | A document that is not a mapping logs only the single fault error and keeps the ad-hoc list. |
| LintProperties.JobNotHashUnreachable | lib/cyclid/linter.rb:64-68 | 'Job is not a hash?' is never logged, for any document. |
| LintProperties.TopLevelFirst | lib/cyclid/linter.rb:70-90 | The top-level findings are a prefix of the log entries of every mapping job. So a job without a name always draws that error. |
| LintProperties.StageItemCases | lib/cyclid/linter.rb:106-127 | A non-mapping or nameless item draws exactly one error and declares nothing. A named item declares its name even if its steps then raise. A missing `steps` draws one error and no version warning. |
| LintProperties.StageWithSteps | lib/cyclid/linter.rb:112-134 | A named mapping item whose `steps` answers `empty?` declares its name. It draws "defines an empty set of Steps" exactly when the steps are empty, then the version warning exactly when it has no `version`, and completes. |
| LintProperties.StageNeverEmpty | lib/cyclid/linter.rb:112-122 | "The Stage '…' is defined but empty." is never logged for any stage item. |
| LintProperties.CatalogueDeclaresNamedStages | lib/cyclid/linter.rb:105-119 | A catalogue that runs to its end records exactly the names of the named mapping items, in order and in their original case. |
| LintProperties.StagesArray | lib/cyclid/linter.rb:97-136 | An Array `stages` draws "Stages is defined but empty?" exactly when it has no items, then the catalogue's findings. The new ad-hoc list is the names the catalogue declared. |
| LintProperties.AdHocListLifetime | lib/cyclid/linter.rb:86-105 | Without `stages` the ad-hoc list of the previous call is kept. With a `stages` that answers `empty?` the list is replaced. |
| LintProperties.EntriesOneFindingEach | lib/cyclid/linter.rb:147-160 | In an entry loop that runs to its end, each entry draws exactly one finding. Warnings equal the entries that are mappings with `stage`; errors equal all the others. |
| LintProperties.EntryDependencyCases | lib/cyclid/linter.rb:148-164 | A non-mapping entry draws exactly the "not an Object" error, and a stage-less mapping exactly the "does not name a Stage" error; neither contributes a dependency. A mapping with `stage` always logs exactly its version warning. It then contributes its lower-cased `stage`, `on_success` and `on_failure` in that order, or raises on the first of them that is not a String. |
| LintProperties.EntriesRaiseAt | lib/cyclid/linter.rb:146-165 | An entry loop that raised did so at one entry k. Every entry before it completed, and the raising entry still logged its version warning. The loop's findings are one per examined entry, k + 1 in all, and nothing after entry k was looked at. |
| LintProperties.SequenceRaisingEntries | lib/cyclid/linter.rb:138-170 | When an entry of an Array `sequence` raises, the entry findings logged so far are kept, the raise follows, and no dependency is cross-referenced. |
| LintProperties.EmptySequence | lib/cyclid/linter.rb:142-169 | An empty sequence draws its one error and no cross-reference finding. |
| LintProperties.CheckDependencyCounts | lib/cyclid/linter.rb:170-180 | A declared dependency draws nothing. Otherwise UNKNOWN draws one warning, NOT_EXIST draws one error and EXISTS draws nothing. |
| LintProperties.CrossReferenceCounts | lib/cyclid/linter.rb:169-181 | With a stage list the loop completes. Warnings equal the undeclared dependencies answered UNKNOWN; errors equal those answered NOT_EXIST. |
| LintProperties.DefaultResolverOnlyWarns | lib/cyclid/linter.rb:173-188 | The base resolver gives exactly one "may not exist" warning per undeclared dependency, in order, and never an error. |
| LintProperties.CrossReferenceNilFaults | lib/cyclid/linter.rb:170 | Without a stage list, the first dependency raises before any finding; no dependencies means no raise. |
| LintProperties.MissingStagesFaults | lib/cyclid/linter.rb:146-170 | A job with dependencies but without `stages`, verified before any `stages` was seen, logs the top-level and entry findings and then the single fault error. |
| LintProperties.CaseAsymmetry | lib/cyclid/linter.rb:158-176 | A stage declared 'Build' and run as 'Build' draws "The Stage 'build' … may not exist on the server." The full list of findings is given exactly. |
| LintProperties.ResolverDecides | lib/cyclid/linter.rb:169-180 | A declared dependency is skipped. An undeclared one answered NOT_EXIST draws the "does not exist" error. The full list of findings is given exactly. |

## Left out

- YAML/JSON decoding and `deep_symbolize_keys` (lines 15-18, 64) are library calls. The input is an already-keyed `Value`, and string/symbol key collisions are not modelled.
- JobDocument.Render: Arrays and Hashes are shown by a fixed placeholder rather than Ruby's `inspect` text, and Floats are not represented.
- JobDocument.FailureText: the exception text after "An unexpected error occured during the verification: " only approximates Ruby's NoMethodError message.
- JobDocument.Downcase: only ASCII letters are lower-cased, not Ruby's full Unicode mapping.
- JobDocument.Members: the pairs a Hash yields are represented by a placeholder. Their order and contents are not modelled, because the linter only asks whether each is a Hash.
- Linter.Verifier.VerifyEntry: the dependencies gathered before a raise are not stated, because a raise discards the local list.
- Server-side overrides of `stage_exists?` are remote lookups. They appear only as the resolver function given to `Linter.Verifier.WithResolver`.
- A concurrent use of one Verifier is out of scope; the code has none.
- lib/cyclid/errors.rb and lib/cyclid/constants.rb are not part of this model. They hold only enumerations and exception classes.
