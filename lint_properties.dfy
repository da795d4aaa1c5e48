/** Properties of the linter, stated on the specification functions that the
    Verifier class is proved to follow. */
module LintProperties {
  import opened JobDocument
  import opened StatusLog
  import opened LintSpec

  // ---------------------------------------------------------------------
  // Top-level checks

  /** `{}` draws exactly three errors and two warnings, in this order, and
      leaves the ad-hoc stage list as it was. */
  lemma EmptyJob(list: Option<seq<Value>>, stageExists: string -> int)
    ensures var r := Verification(Obj(map[]), list, stageExists);
      r.findings == [Err(JobEmpty), Err(JobNoName), Warn(JobNoVersion), Warn(JobNoEnvironment), Err(JobNoSequence)]
      && r.list == list
      && Count(r.findings, Error) == 3 && Count(r.findings, Warning) == 2
  {
    TopLevelCounts(map[]);
    assert TopLevel(map[]) == [Err(JobEmpty), Err(JobNoName), Warn(JobNoVersion), Warn(JobNoEnvironment), Err(JobNoSequence)];
  }

  /** Each top-level finding is logged exactly when its own check fires. */
  lemma TopLevelFires(job: map<string, Value>)
    ensures var r := TopLevel(job);
      (Err(JobEmpty) in r <==> |job| == 0)
      && (Err(JobNoName) in r <==> "name" !in job)
      && (Warn(JobNoVersion) in r <==> "version" !in job)
      && (Warn(JobNoEnvironment) in r <==> "environment" !in job)
      && (Err(JobNoSequence) in r <==> "sequence" !in job)
  {
    var a := if |job| == 0 then [Err(JobEmpty)] else [];
    var b := if "name" !in job then [Err(JobNoName)] else [];
    var c := if "version" !in job then [Warn(JobNoVersion)] else [];
    var d := if "environment" !in job then [Warn(JobNoEnvironment)] else [];
    var e := if "sequence" !in job then [Err(JobNoSequence)] else [];
    assert TopLevel(job) == a + b + c + d + e;
    // The five texts differ in length, so no finding stands for another.
    assert |JobEmpty| < |JobNoSequence| < |JobNoName|;
    assert |JobNoEnvironment| < |JobNoVersion|;
    forall m | m in [Err(JobEmpty), Err(JobNoName), Warn(JobNoVersion), Warn(JobNoEnvironment), Err(JobNoSequence)]
      ensures m in TopLevel(job) <==> m in a || m in b || m in c || m in d || m in e
    {
    }
  }

  function Flag(b: bool): nat {
    if b then 1 else 0
  }

  /** Appending a finding of the counted type that may or may not fire. */
  lemma CountPiece(log: seq<Message>, fires: bool, m: Message)
    ensures Count(log + (if fires then [m] else []), m.kind) == Count(log, m.kind) + Flag(fires)
  {
    if fires {
      CountSnoc(log, m, m.kind);
    } else {
      AppendNothing(log);
    }
  }

  /** Appending a finding of another type leaves the count alone. */
  lemma CountOtherPiece(log: seq<Message>, fires: bool, m: Message, kind: MessageType)
    requires m.kind != kind
    ensures Count(log + (if fires then [m] else []), kind) == Count(log, kind)
  {
    if fires {
      CountSnoc(log, m, kind);
    } else {
      AppendNothing(log);
    }
  }

  /** Each top-level check contributes one finding of its own type when it
      fires: errors for an empty job, a missing name and a missing sequence,
      warnings for a missing version and a missing environment. */
  lemma TopLevelCounts(job: map<string, Value>)
    ensures Count(TopLevel(job), Error) == Flag(|job| == 0) + Flag("name" !in job) + Flag("sequence" !in job)
    ensures Count(TopLevel(job), Warning) == Flag("version" !in job) + Flag("environment" !in job)
  {
    var a := if |job| == 0 then [Err(JobEmpty)] else [];
    var ab := a + (if "name" !in job then [Err(JobNoName)] else []);
    var abc := ab + (if "version" !in job then [Warn(JobNoVersion)] else []);
    var abcd := abc + (if "environment" !in job then [Warn(JobNoEnvironment)] else []);
    assert TopLevel(job) == abcd + (if "sequence" !in job then [Err(JobNoSequence)] else []);
    assert [] + a == a;
    TopLevelErrors(job, a, ab, abc, abcd);
    TopLevelWarnings(job, a, ab, abc, abcd);
  }

  lemma TopLevelErrors(job: map<string, Value>, a: seq<Message>, ab: seq<Message>, abc: seq<Message>, abcd: seq<Message>)
    requires a == [] + (if |job| == 0 then [Err(JobEmpty)] else [])
    requires ab == a + (if "name" !in job then [Err(JobNoName)] else [])
    requires abc == ab + (if "version" !in job then [Warn(JobNoVersion)] else [])
    requires abcd == abc + (if "environment" !in job then [Warn(JobNoEnvironment)] else [])
    ensures Count(abcd + (if "sequence" !in job then [Err(JobNoSequence)] else []), Error)
      == Flag(|job| == 0) + Flag("name" !in job) + Flag("sequence" !in job)
  {
    CountPiece([], |job| == 0, Err(JobEmpty));
    CountPiece(a, "name" !in job, Err(JobNoName));
    CountOtherPiece(ab, "version" !in job, Warn(JobNoVersion), Error);
    CountOtherPiece(abc, "environment" !in job, Warn(JobNoEnvironment), Error);
    CountPiece(abcd, "sequence" !in job, Err(JobNoSequence));
  }

  lemma TopLevelWarnings(job: map<string, Value>, a: seq<Message>, ab: seq<Message>, abc: seq<Message>, abcd: seq<Message>)
    requires a == [] + (if |job| == 0 then [Err(JobEmpty)] else [])
    requires ab == a + (if "name" !in job then [Err(JobNoName)] else [])
    requires abc == ab + (if "version" !in job then [Warn(JobNoVersion)] else [])
    requires abcd == abc + (if "environment" !in job then [Warn(JobNoEnvironment)] else [])
    ensures Count(abcd + (if "sequence" !in job then [Err(JobNoSequence)] else []), Warning)
      == Flag("version" !in job) + Flag("environment" !in job)
  {
    CountOtherPiece([], |job| == 0, Err(JobEmpty), Warning);
    CountOtherPiece(a, "name" !in job, Err(JobNoName), Warning);
    CountPiece(ab, "version" !in job, Warn(JobNoVersion));
    CountPiece(abc, "environment" !in job, Warn(JobNoEnvironment));
    CountOtherPiece(abcd, "sequence" !in job, Err(JobNoSequence), Warning);
  }

  /** A document that is not a mapping raises in `deep_symbolize_keys`: the
      log gets the single fault error and nothing else. */
  lemma NonMappingJob(doc: Value, list: Option<seq<Value>>, stageExists: string -> int)
    requires !doc.Obj?
    ensures var r := Verification(doc, list, stageExists);
      r.findings == [Err(FaultMessage(NotSymbolizable(doc)))] && r.list == list
  {
  }

  /** The top-level findings come first, whatever the rest of the job does;
      so a job without a name always draws that error. */
  lemma TopLevelFirst(job: map<string, Value>, list: Option<seq<Value>>, stageExists: string -> int)
    ensures var r := Verification(Obj(job), list, stageExists);
      |TopLevel(job)| <= |r.findings| && r.findings[..|TopLevel(job)|] == TopLevel(job)
      && ("name" !in job ==> Err(JobNoName) in r.findings)
  {
    var top := TopLevel(job);
    var b := Body(Obj(job), list, stageExists);
    BodyStartsWithTopLevel(job, list, stageExists);
    var r := Verification(Obj(job), list, stageExists);
    if b.outcome.Raised? {
      assert r.findings[..|b.findings|] == b.findings;
      assert r.findings[..|top|] == b.findings[..|top|];
    }
    TopLevelNoName(job);
  }

  lemma BodyStartsWithTopLevel(job: map<string, Value>, list: Option<seq<Value>>, stageExists: string -> int)
    ensures var b := Body(Obj(job), list, stageExists);
      |TopLevel(job)| <= |b.findings| && b.findings[..|TopLevel(job)|] == TopLevel(job)
  {
    var top := TopLevel(job);
    var s := if "stages" in job then StagesPass(job["stages"]) else StagesRun([], None, Completed);
    var list' := if s.list.Some? then s.list else list;
    if !s.outcome.Raised? && "sequence" in job {
      var q := SequencePass(job["sequence"], list', stageExists);
      assert (top + s.findings + q.findings)[..|top|] == top;
    } else {
      assert (top + s.findings)[..|top|] == top;
    }
  }

  lemma TopLevelNoName(job: map<string, Value>)
    ensures "name" !in job ==> Err(JobNoName) in TopLevel(job)
  {
    if "name" !in job {
      var a := if |job| == 0 then [Err(JobEmpty)] else [];
      assert TopLevel(job)[|a|] == Err(JobNoName);
    }
  }

  // ---------------------------------------------------------------------
  // 'Job is not a hash?' is never logged

  /** A text that does not begin with 'J' is not the 'Job is not a hash?' error. */
  lemma NotJobNotHash(t: string)
    requires |t| > 0 && t[0] != 'J'
    ensures Err(t) != Err(JobNotHash)
  {
    assert JobNotHash[0] == 'J';
  }

  lemma StageAvoidsJobNotHash(stage: Value)
    ensures Err(JobNotHash) !in CheckStage(stage).findings
  {
    if stage.Obj? && "name" in stage.fields {
      var n := Render(stage.fields["name"]);
      NotJobNotHash(StageEmpty(n));
      NotJobNotHash(StageNoSteps(n));
      NotJobNotHash(StageEmptySteps(n));
    }
  }

  lemma {:induction false} CatalogueAvoidsJobNotHash(items: seq<Value>)
    ensures Err(JobNotHash) !in Catalogue(items).findings
    decreases |items|
  {
    if |items| > 0 {
      CatalogueAvoidsJobNotHash(items[..|items| - 1]);
      StageAvoidsJobNotHash(items[|items| - 1]);
    }
  }

  lemma {:induction false} EntriesAvoidJobNotHash(items: seq<Value>)
    ensures Err(JobNotHash) !in Entries(items).findings
    decreases |items|
  {
    if |items| > 0 {
      EntriesAvoidJobNotHash(items[..|items| - 1]);
    }
  }

  lemma {:induction false} CrossReferenceAvoidsJobNotHash(deps: seq<string>, list: Option<seq<Value>>, stageExists: string -> int)
    ensures Err(JobNotHash) !in CrossReference(deps, list, stageExists).findings
    decreases |deps|
  {
    if |deps| > 0 {
      CrossReferenceAvoidsJobNotHash(deps[..|deps| - 1], list, stageExists);
      NotJobNotHash(DoesNotExist(deps[|deps| - 1]));
    }
  }

  lemma StagesAvoidJobNotHash(stages: Value)
    ensures Err(JobNotHash) !in StagesPass(stages).findings
  {
    if IsEmpty(stages).Ok? && Members(stages).Ok? {
      CatalogueAvoidsJobNotHash(Members(stages).value);
    }
  }

  lemma SequenceAvoidsJobNotHash(sequence: Value, list: Option<seq<Value>>, stageExists: string -> int)
    ensures Err(JobNotHash) !in SequencePass(sequence, list, stageExists).findings
  {
    if IsEmpty(sequence).Ok? && Members(sequence).Ok? {
      var items := Members(sequence).value;
      EntriesAvoidJobNotHash(items);
      CrossReferenceAvoidsJobNotHash(Dedup(Entries(items).deps), list, stageExists);
    }
  }

  lemma FaultMessageAvoidsJobNotHash(f: Failure)
    ensures Err(FaultMessage(f)) != Err(JobNotHash)
  {
    assert FaultMessage(f) == FaultPrefix + FailureText(f);
    assert |JobNotHash| < |FaultPrefix|;
  }

  lemma BodyAvoidsJobNotHash(doc: Value, list: Option<seq<Value>>, stageExists: string -> int)
    ensures Err(JobNotHash) !in Body(doc, list, stageExists).findings
  {
    if doc.Obj? {
      var job := doc.fields;
      var top := TopLevel(job);
      assert Err(JobNotHash) !in top;
      var s := if "stages" in job then StagesPass(job["stages"]) else StagesRun([], None, Completed);
      if "stages" in job {
        StagesAvoidJobNotHash(job["stages"]);
      }
      var list' := if s.list.Some? then s.list else list;
      if s.outcome.Completed? && "sequence" in job {
        var q := SequencePass(job["sequence"], list', stageExists);
        SequenceAvoidsJobNotHash(job["sequence"], list', stageExists);
        assert Body(doc, list, stageExists).findings == top + s.findings + q.findings;
      } else {
        assert Body(doc, list, stageExists).findings == top + s.findings;
      }
    }
  }

  /** The check of line 67 can never fire: a non-mapping document raises
      before it, and no other finding has that text. */
  lemma JobNotHashUnreachable(doc: Value, list: Option<seq<Value>>, stageExists: string -> int)
    ensures Err(JobNotHash) !in Verification(doc, list, stageExists).findings
  {
    var b := Body(doc, list, stageExists);
    BodyAvoidsJobNotHash(doc, list, stageExists);
    if b.outcome.Raised? {
      FaultMessageAvoidsJobNotHash(b.outcome.failure);
    }
  }

  // ---------------------------------------------------------------------
  // The stage catalogue

  /** How one item of `stages` is judged: a non-mapping or nameless item
      draws one error and declares nothing; a named item declares its name
      even when its `steps` then raise; a missing `steps` draws one error and
      no version warning. */
  lemma StageItemCases(stage: Value)
    ensures !stage.Obj? ==> CheckStage(stage) == StageCheck([Err(StageNotObject)], [], Completed)
    ensures stage.Obj? && "name" !in stage.fields ==>
      CheckStage(stage) == StageCheck([Err(StageNoName)], [], Completed)
    ensures stage.Obj? && "name" in stage.fields ==> CheckStage(stage).declared == [stage.fields["name"]]
    ensures stage.Obj? && "name" in stage.fields && "steps" !in stage.fields ==>
      CheckStage(stage).findings == [Err(StageNoSteps(Render(stage.fields["name"])))]
  {
  }

  /** A named mapping item whose `steps` answers `empty?`: the "empty set of
      Steps" error when it is empty, then the version warning when there is
      no `version`, and the name is declared. */
  lemma StageWithSteps(stage: Value)
    requires stage.Obj? && "name" in stage.fields && "steps" in stage.fields
    requires IsEmpty(stage.fields["steps"]).Ok?
    ensures var f := stage.fields;
      var n := Render(f["name"]);
      CheckStage(stage) == StageCheck(
        (if IsEmpty(f["steps"]).value then [Err(StageEmptySteps(n))] else [])
        + (if "version" !in f then [Warn(StageNoVersion(n))] else []),
        [f["name"]], Completed)
  {
    var f := stage.fields;
    assert |f| != 0;
    var x := (if IsEmpty(f["steps"]).value then [Err(StageEmptySteps(Render(f["name"])))] else [])
      + (if "version" !in f then [Warn(StageNoVersion(Render(f["name"])))] else []);
    assert [] + x == x;
  }

  /** "The Stage '…' is defined but empty." is dead code: a stage only gets
      that far with a `name` key, so it is never empty. */
  lemma StageNeverEmpty(stage: Value, n: string)
    ensures Err(StageEmpty(n)) !in CheckStage(stage).findings
  {
    var e := StageEmpty(n);
    assert e[0] == 'T';
    assert e[|e| - 2] == 'y';
    if stage.Obj? && "name" in stage.fields {
      var m := Render(stage.fields["name"]);
      var s := StageNoSteps(m);
      var t := StageEmptySteps(m);
      assert s[|s| - 2] == 's';
      assert t[|t| - 2] == 's';
    }
  }

  /** The names a run over `items` records, in order: one per named mapping. */
  function NamedStages(items: seq<Value>): seq<Value>
    decreases |items|
  {
    if |items| == 0 then []
    else
      var s := items[|items| - 1];
      NamedStages(items[..|items| - 1]) + (if s.Obj? && "name" in s.fields then [s.fields["name"]] else [])
  }

  /** A catalogue that runs to its end records exactly the named stages, in
      their original case and with repetitions. */
  lemma {:induction false} CatalogueDeclaresNamedStages(items: seq<Value>)
    ensures Catalogue(items).outcome.Completed? ==> Catalogue(items).declared == NamedStages(items)
    decreases |items|
  {
    if |items| > 0 {
      CatalogueDeclaresNamedStages(items[..|items| - 1]);
    }
  }

  /** An Array `stages`: the "defined but empty?" warning exactly when it
      has no items, then the catalogue's findings; the new list is the names
      the catalogue declared. */
  lemma StagesArray(items: seq<Value>)
    ensures var c := Catalogue(items);
      StagesPass(Arr(items))
        == StagesRun((if items == [] then [Warn(StagesEmpty)] else []) + c.findings, Some(c.declared), c.outcome)
  {
    assert IsEmpty(Arr(items)) == Ok(items == []) && Members(Arr(items)) == Ok(items);
    var h := if items == [] then [Warn(StagesEmpty)] else [];
    assert [] + h == h;
  }

  /** A job without `stages` leaves the ad-hoc list of the previous call in
      place; a job whose `stages` can answer `empty?` replaces it. */
  lemma AdHocListLifetime(job: map<string, Value>, list: Option<seq<Value>>, stageExists: string -> int)
    ensures "stages" !in job ==> Verification(Obj(job), list, stageExists).list == list
    ensures "stages" in job && IsEmpty(job["stages"]).Ok? ==>
      Verification(Obj(job), list, stageExists).list == StagesPass(job["stages"]).list
      && StagesPass(job["stages"]).list.Some?
  {
  }

  // ---------------------------------------------------------------------
  // The sequence

  /** The number of entries that are mappings with a `stage` key. */
  function StagedEntries(items: seq<Value>): nat
    decreases |items|
  {
    if |items| == 0 then 0
    else
      var s := items[|items| - 1];
      StagedEntries(items[..|items| - 1]) + (if s.Obj? && "stage" in s.fields then 1 else 0)
  }

  /** In a loop over the entries that runs to its end, every entry draws
      exactly one finding: a version warning for a mapping with `stage`, an
      error for anything else. (`EntriesRaiseAt` covers a loop that raised.) */
  lemma {:induction false} EntriesOneFindingEach(items: seq<Value>)
    ensures var e := Entries(items);
      e.outcome.Completed? ==>
        |e.findings| == |items|
        && Count(e.findings, Warning) == StagedEntries(items)
        && Count(e.findings, Error) == |items| - StagedEntries(items)
    decreases |items|
  {
    if |items| > 0 {
      var init := items[..|items| - 1];
      EntriesOneFindingEach(init);
      var done := Entries(init);
      var c := CheckEntry(items[|items| - 1]);
      if done.outcome.Completed? {
        CountConcat(done.findings, c.findings, Warning);
        CountConcat(done.findings, c.findings, Error);
      }
    }
  }

  /** The dependencies one entry contributes: its lower-cased `stage`, then
      `on_success`, then `on_failure` when present; nothing for an entry that
      is not a mapping or has no `stage`. */
  lemma EntryDependencyCases(entry: Value)
    ensures !entry.Obj? ==> CheckEntry(entry) == EntryCheck([Err(EntryNotObject)], [], Completed)
    ensures entry.Obj? && "stage" !in entry.fields ==> CheckEntry(entry) == EntryCheck([Err(EntryNoStage)], [], Completed)
    ensures entry.Obj? && "stage" in entry.fields ==>
      CheckEntry(entry).findings == [Warn(EntryNoVersion(Render(entry.fields["stage"])))]
    ensures (entry.Obj? && "stage" in entry.fields && entry.fields["stage"].Str?
             && ("on_success" in entry.fields ==> entry.fields["on_success"].Str?)
             && ("on_failure" in entry.fields ==> entry.fields["on_failure"].Str?)) ==>
      var f := entry.fields;
      CheckEntry(entry) == EntryCheck([Warn(EntryNoVersion(f["stage"].s))],
        [Downcase(f["stage"].s)]
        + (if "on_success" in f then [Downcase(f["on_success"].s)] else [])
        + (if "on_failure" in f then [Downcase(f["on_failure"].s)] else []),
        Completed)
    ensures entry.Obj? && "stage" in entry.fields && !entry.fields["stage"].Str? ==>
      CheckEntry(entry).outcome == Raised(NoDowncase(entry.fields["stage"]))
    ensures (entry.Obj? && "stage" in entry.fields && entry.fields["stage"].Str?
             && "on_success" in entry.fields && !entry.fields["on_success"].Str?) ==>
      CheckEntry(entry).outcome == Raised(NoDowncase(entry.fields["on_success"]))
    ensures (entry.Obj? && "stage" in entry.fields && entry.fields["stage"].Str?
             && ("on_success" in entry.fields ==> entry.fields["on_success"].Str?)
             && "on_failure" in entry.fields && !entry.fields["on_failure"].Str?) ==>
      CheckEntry(entry).outcome == Raised(NoDowncase(entry.fields["on_failure"]))
  {
  }

  /** The entry loop stopped at entry `k`: every entry before it ran to its
      end, entry `k` raised after logging its one finding, and nothing after
      it was looked at. */
  predicate EntryRaisesAt(items: seq<Value>, k: nat)
    requires k < |items|
  {
    Entries(items[..k]).outcome.Completed?
    && CheckEntry(items[k]).outcome.Raised?
    && Entries(items) == Entries(items[..k + 1])
    && Entries(items).findings == Entries(items[..k]).findings + CheckEntry(items[k]).findings
    && |Entries(items).findings| == k + 1
  }

  /** A loop over the entries that raised did so at one entry, and every
      entry it examined, that one included, drew exactly one finding. */
  lemma {:induction false} EntriesRaiseAt(items: seq<Value>)
    ensures Entries(items).outcome.Raised? ==> exists k :: 0 <= k < |items| && EntryRaisesAt(items, k)
    decreases |items|
  {
    if |items| > 0 && Entries(items).outcome.Raised? {
      var n := |items|;
      var init := items[..n - 1];
      assert items[..n] == items;
      if Entries(init).outcome.Raised? {
        EntriesRaiseAt(init);
        var k :| 0 <= k < |init| && EntryRaisesAt(init, k);
        assert init[..k] == items[..k] && init[..k + 1] == items[..k + 1];
        assert EntryRaisesAt(items, k);
      } else {
        EntriesOneFindingEach(init);
        EntryDependencyCases(items[n - 1]);
        assert EntryRaisesAt(items, n - 1);
      }
    }
  }

  /** An Array sequence whose entry loop raised keeps the entry findings
      and then raises; no dependency is cross-referenced. */
  lemma SequenceRaisingEntries(items: seq<Value>, list: Option<seq<Value>>, stageExists: string -> int)
    requires Entries(items).outcome.Raised?
    ensures SequencePass(Arr(items), list, stageExists) == Pass(Entries(items).findings, Entries(items).outcome)
  {
    var e := Entries(items);
    assert items != [];
    assert IsEmpty(Arr(items)) == Ok(false) && Members(Arr(items)) == Ok(items);
    assert [] + [] + e.findings == e.findings;
  }

  /** An empty sequence draws its error and no cross-reference finding. */
  lemma EmptySequence(list: Option<seq<Value>>, stageExists: string -> int)
    ensures SequencePass(Arr([]), list, stageExists) == Pass([Err(SequenceEmpty)], Completed)
  {
    assert Entries([]) == EntryCheck([], [], Completed);
    assert Dedup([]) == [];
  }

  // ---------------------------------------------------------------------
  // Cross-referencing the dependencies

  /** How many of `deps` are not declared in this job and get `answer` from
      the resolver. */
  function Answered(deps: seq<string>, names: seq<Value>, stageExists: string -> int, answer: int): nat
    decreases |deps|
  {
    if |deps| == 0 then 0
    else
      var d := deps[|deps| - 1];
      Answered(deps[..|deps| - 1], names, stageExists, answer)
      + (if Str(d) !in names && stageExists(d) == answer then 1 else 0)
  }

  /** The resolver answer that draws a finding of the given type. */
  function AnswerFor(kind: MessageType): int {
    if kind == Warning then Unknown else NotExist
  }

  /** With a stage list in place the loop runs to its end: one warning per
      undeclared dependency the resolver does not know, one error per
      undeclared dependency it says does not exist. */
  lemma CrossReferenceCounts(deps: seq<string>, names: seq<Value>, stageExists: string -> int)
    ensures var x := CrossReference(deps, Some(names), stageExists);
      x.outcome == Completed
      && Count(x.findings, Warning) == Answered(deps, names, stageExists, Unknown)
      && Count(x.findings, Error) == Answered(deps, names, stageExists, NotExist)
  {
    CrossReferenceCompletes(deps, names, stageExists);
    CrossReferenceCount(deps, names, stageExists, Warning);
    CrossReferenceCount(deps, names, stageExists, Error);
  }

  lemma {:induction false} CrossReferenceCompletes(deps: seq<string>, names: seq<Value>, stageExists: string -> int)
    ensures CrossReference(deps, Some(names), stageExists).outcome == Completed
    decreases |deps|
  {
    if |deps| > 0 {
      CrossReferenceCompletes(deps[..|deps| - 1], names, stageExists);
    }
  }

  lemma {:induction false} CrossReferenceCount(deps: seq<string>, names: seq<Value>, stageExists: string -> int, kind: MessageType)
    ensures Count(CrossReference(deps, Some(names), stageExists).findings, kind) == Answered(deps, names, stageExists, AnswerFor(kind))
    decreases |deps|
  {
    if |deps| > 0 {
      var init := deps[..|deps| - 1];
      CrossReferenceCompletes(init, names, stageExists);
      CrossReferenceCount(init, names, stageExists, kind);
      var done := CrossReference(init, Some(names), stageExists);
      var d := deps[|deps| - 1];
      var c := CheckDependency(d, Some(names), stageExists);
      CheckDependencyCount(d, names, stageExists, kind);
      CountConcat(done.findings, c.findings, kind);
    }
  }

  /** One dependency, given a stage list: nothing when declared, otherwise at
      most one finding whose type follows the resolver's answer. */
  lemma CheckDependencyCounts(dep: string, names: seq<Value>, stageExists: string -> int)
    ensures var c := CheckDependency(dep, Some(names), stageExists);
      c.outcome == Completed
      && Count(c.findings, Warning) == (if Str(dep) !in names && stageExists(dep) == Unknown then 1 else 0)
      && Count(c.findings, Error) == (if Str(dep) !in names && stageExists(dep) == NotExist then 1 else 0)
  {
    CheckDependencyCount(dep, names, stageExists, Warning);
    CheckDependencyCount(dep, names, stageExists, Error);
  }

  lemma CheckDependencyCount(dep: string, names: seq<Value>, stageExists: string -> int, kind: MessageType)
    ensures Count(CheckDependency(dep, Some(names), stageExists).findings, kind)
      == (if Str(dep) !in names && stageExists(dep) == AnswerFor(kind) then 1 else 0)
  {
    if kind == Warning {
      CheckDependencyWarnings(dep, names, stageExists);
    } else {
      CheckDependencyErrors(dep, names, stageExists);
    }
  }

  lemma CheckDependencyWarnings(dep: string, names: seq<Value>, stageExists: string -> int)
    ensures Count(CheckDependency(dep, Some(names), stageExists).findings, Warning)
      == (if Str(dep) !in names && stageExists(dep) == Unknown then 1 else 0)
  {
    var c := CheckDependency(dep, Some(names), stageExists);
    if Str(dep) !in names && stageExists(dep) == Unknown {
      assert c.findings == [Warn(MayNotExist(dep))];
      CountSingle(Warn(MayNotExist(dep)), Warning);
    } else if Str(dep) !in names && stageExists(dep) == NotExist {
      assert c.findings == [Err(DoesNotExist(dep))];
      CountSingle(Err(DoesNotExist(dep)), Warning);
    }
  }

  lemma CheckDependencyErrors(dep: string, names: seq<Value>, stageExists: string -> int)
    ensures Count(CheckDependency(dep, Some(names), stageExists).findings, Error)
      == (if Str(dep) !in names && stageExists(dep) == NotExist then 1 else 0)
  {
    var c := CheckDependency(dep, Some(names), stageExists);
    if Str(dep) !in names && stageExists(dep) == Unknown {
      assert c.findings == [Warn(MayNotExist(dep))];
      CountSingle(Warn(MayNotExist(dep)), Error);
    } else if Str(dep) !in names && stageExists(dep) == NotExist {
      assert c.findings == [Err(DoesNotExist(dep))];
      CountSingle(Err(DoesNotExist(dep)), Error);
    }
  }

  /** The dependencies not declared in this job, by exact equality. */
  function Undeclared(deps: seq<string>, names: seq<Value>): seq<string>
    decreases |deps|
  {
    if |deps| == 0 then []
    else
      var d := deps[|deps| - 1];
      Undeclared(deps[..|deps| - 1], names) + (if Str(d) in names then [] else [d])
  }

  /** One "may not exist" warning per name. */
  function MayNotExistWarnings(names: seq<string>): seq<Message>
    decreases |names|
  {
    if |names| == 0 then []
    else MayNotExistWarnings(names[..|names| - 1]) + [Warn(MayNotExist(names[|names| - 1]))]
  }

  lemma {:induction false} MayNotExistWarningsAreWarnings(names: seq<string>)
    ensures Count(MayNotExistWarnings(names), Error) == 0
    ensures Count(MayNotExistWarnings(names), Warning) == |names|
    decreases |names|
  {
    if |names| > 0 {
      MayNotExistWarningsAreWarnings(names[..|names| - 1]);
    }
  }

  lemma {:induction false} DefaultCrossReference(deps: seq<string>, names: seq<Value>)
    ensures CrossReference(deps, Some(names), DefaultStageExists) == Pass(MayNotExistWarnings(Undeclared(deps, names)), Completed)
    decreases |deps|
  {
    if |deps| > 0 {
      var init := deps[..|deps| - 1];
      DefaultCrossReference(init, names);
      var u := Undeclared(init, names);
      var d := deps[|deps| - 1];
      if Str(d) !in names {
        assert (u + [d])[..|u|] == u;
      } else {
        assert u + [] == u;
        AppendNothing(MayNotExistWarnings(u));
      }
    }
  }

  /** The base Verifier's resolver always answers Unknown, so it warns once
      for every undeclared dependency and never reports an error. */
  lemma DefaultResolverOnlyWarns(deps: seq<string>, names: seq<Value>)
    ensures var x := CrossReference(deps, Some(names), DefaultStageExists);
      x.outcome == Completed && x.findings == MayNotExistWarnings(Undeclared(deps, names))
      && Count(x.findings, Error) == 0 && Count(x.findings, Warning) == |Undeclared(deps, names)|
  {
    DefaultCrossReference(deps, names);
    MayNotExistWarningsAreWarnings(Undeclared(deps, names));
  }

  /** With no stage list (no `stages` was ever verified), the first
      dependency raises in `include?` before any finding. */
  lemma {:induction false} CrossReferenceNilFaults(deps: seq<string>, stageExists: string -> int)
    ensures CrossReference(deps, None, stageExists) == Pass([], if |deps| == 0 then Completed else Raised(NilInclude))
    decreases |deps|
  {
    if |deps| > 0 {
      CrossReferenceNilFaults(deps[..|deps| - 1], stageExists);
    }
  }

  /** A fresh Verifier given a job with a sequence but no `stages` raises at
      the first dependency: the log holds the top-level findings, one finding
      per entry, and the fault error. */
  lemma MissingStagesFaults(job: map<string, Value>, stageExists: string -> int)
    requires "stages" !in job && "sequence" in job && job["sequence"].Arr?
    requires Entries(job["sequence"].items).outcome.Completed? && |Entries(job["sequence"].items).deps| > 0
    ensures var r := Verification(Obj(job), None, stageExists);
      r.list == None
      && r.findings == TopLevel(job) + Entries(job["sequence"].items).findings + [Err(FaultMessage(NilInclude))]
  {
    var items := job["sequence"].items;
    var e := Entries(items);
    NilListSequence(items, stageExists);
    assert Body(Obj(job), None, stageExists) == BodyRun(TopLevel(job) + [] + e.findings, None, Raised(NilInclude));
    assert TopLevel(job) + [] + e.findings == TopLevel(job) + e.findings;
  }

  /** With no stage list, a sequence whose entries completed and named a
      dependency logs the entry findings and then raises. */
  lemma NilListSequence(items: seq<Value>, stageExists: string -> int)
    requires Entries(items).outcome.Completed? && |Entries(items).deps| > 0
    ensures SequencePass(Arr(items), None, stageExists) == Pass(Entries(items).findings, Raised(NilInclude))
  {
    var e := Entries(items);
    assert items != [];
    DedupElements(e.deps);
    assert e.deps[0] in Dedup(e.deps);
    CrossReferenceNilFaults(Dedup(e.deps), stageExists);
    SequenceOfCompletedEntries(items, None, stageExists);
    assert e.findings + [] == e.findings;
  }

  /** A non-empty Array sequence whose entries all ran to their end: the
      entry findings, then the cross-reference findings. */
  lemma SequenceOfCompletedEntries(items: seq<Value>, list: Option<seq<Value>>, stageExists: string -> int)
    requires |items| > 0 && Entries(items).outcome == Completed
    ensures var e := Entries(items);
      var x := CrossReference(Dedup(e.deps), list, stageExists);
      SequencePass(Arr(items), list, stageExists) == Pass(e.findings + x.findings, x.outcome)
  {
    assert IsEmpty(Arr(items)) == Ok(false) && Members(Arr(items)) == Ok(items);
    var e := Entries(items);
    var x := CrossReference(Dedup(e.deps), list, stageExists);
    assert [] + [] + e.findings == e.findings;
  }

  // ---------------------------------------------------------------------
  // Concrete runs

  const BuildStage := Obj(map["name" := Str("Build"), "steps" := Arr([Null])])
  const BuildEntry := Obj(map["stage" := Str("Build")])
  const BuildJob := map["name" := Str("job"), "stages" := Arr([BuildStage]), "sequence" := Arr([BuildEntry])]

  lemma DowncaseBuild()
    ensures Downcase("Build") == "build"
  {
    assert Downcase("d") == "d";
    assert Downcase("ld") == "ld";
    assert Downcase("ild") == "ild";
    assert Downcase("uild") == "uild";
  }

  lemma BuildStages()
    ensures StagesPass(Arr([BuildStage])) == StagesRun([Warn(StageNoVersion("Build"))], Some([Str("Build")]), Completed)
  {
    var c := CheckStage(BuildStage);
    assert c == StageCheck([Warn(StageNoVersion("Build"))], [Str("Build")], Completed);
    assert [BuildStage][..0] == [];
    assert [] + c.findings == c.findings && [] + c.declared == c.declared;
    assert Catalogue([BuildStage]) == c;
  }

  lemma BuildSequence()
    ensures SequencePass(Arr([BuildEntry]), Some([Str("Build")]), DefaultStageExists)
      == Pass([Warn(EntryNoVersion("Build")), Warn(MayNotExist("build"))], Completed)
  {
    BuildEntries();
    BuildCrossReference();
    SequenceOfCompletedEntries([BuildEntry], Some([Str("Build")]), DefaultStageExists);
    TwoGroups(Warn(EntryNoVersion("Build")), Warn(MayNotExist("build")));
  }

  lemma BuildEntries()
    ensures Entries([BuildEntry]) == EntryCheck([Warn(EntryNoVersion("Build"))], ["build"], Completed)
  {
    DowncaseBuild();
    assert CheckEntry(BuildEntry) == EntryCheck([Warn(EntryNoVersion("Build"))], ["build"], Completed);
    SingleEntry(BuildEntry);
  }

  /** A sequence of one entry is judged as that entry. */
  lemma SingleEntry(entry: Value)
    ensures Entries([entry]) == CheckEntry(entry)
  {
    var c := CheckEntry(entry);
    assert [entry][..0] == [];
    assert [] + c.findings == c.findings && [] + c.deps == c.deps;
  }

  lemma BuildCrossReference()
    ensures CrossReference(Dedup(["build"]), Some([Str("Build")]), DefaultStageExists) == Pass([Warn(MayNotExist("build"))], Completed)
  {
    assert Dedup(["build"]) == ["build"];
    assert "build"[0] != "Build"[0];
    assert Str("build") !in [Str("Build")];
    assert ["build"][..0] == [];
  }

  /** A stage declared 'Build' and run as 'Build' is still undeclared: the
      dependency is lower-cased to 'build' and compared with 'Build'. */
  lemma CaseAsymmetry()
    ensures Verification(Obj(BuildJob), None, DefaultStageExists)
      == Report([Warn(JobNoVersion), Warn(JobNoEnvironment), Warn(StageNoVersion("Build")),
                 Warn(EntryNoVersion("Build")), Warn(MayNotExist("build"))],
                Some([Str("Build")]))
  {
    BuildStages();
    BuildSequence();
    BuildTopLevel();
    BodyOfCompletedStages(BuildJob, None, DefaultStageExists);
    ThreeGroups(Warn(JobNoVersion), Warn(JobNoEnvironment), Warn(StageNoVersion("Build")),
                Warn(EntryNoVersion("Build")), Warn(MayNotExist("build")));
  }

  lemma TwoGroups(a: Message, b: Message)
    ensures [a] + [b] == [a, b]
  {
  }

  lemma ThreeGroups(a: Message, b: Message, c: Message, d: Message, e: Message)
    ensures [a, b] + [c] + [d, e] == [a, b, c, d, e]
  {
  }

  lemma BuildTopLevel()
    ensures "stages" in BuildJob && BuildJob["stages"] == Arr([BuildStage])
    ensures "sequence" in BuildJob && BuildJob["sequence"] == Arr([BuildEntry])
    ensures TopLevel(BuildJob) == [Warn(JobNoVersion), Warn(JobNoEnvironment)]
  {
  }

  /** The body of a job whose `stages` ran to the end and which has a
      `sequence`: the three groups of findings in order, and the new list. */
  lemma BodyOfCompletedStages(job: map<string, Value>, list: Option<seq<Value>>, stageExists: string -> int)
    requires "stages" in job && "sequence" in job
    requires StagesPass(job["stages"]).outcome == Completed
    ensures var s := StagesPass(job["stages"]);
      var q := SequencePass(job["sequence"], s.list, stageExists);
      s.list.Some?
      && Body(Obj(job), list, stageExists) == BodyRun(TopLevel(job) + s.findings + q.findings, s.list, q.outcome)
  {
  }

  const DeployStage := Obj(map["name" := Str("test"), "steps" := Arr([Null]), "version" := Str("1")])
  const DeployEntry := Obj(map["stage" := Str("test"), "on_success" := Str("Deploy")])
  const DeployJob := map["name" := Str("j"), "version" := Str("1"), "environment" := Obj(map[]),
                         "stages" := Arr([DeployStage]), "sequence" := Arr([DeployEntry])]

  /** A resolver that knows only that 'deploy' does not exist. */
  function DeployResolver(name: string): int {
    if name == "deploy" then NotExist else Exists
  }

  lemma DowncaseDeploy()
    ensures Downcase("test") == "test" && Downcase("Deploy") == "deploy"
  {
    assert Downcase("t") == "t";
    assert Downcase("st") == "st";
    assert Downcase("est") == "est";
    assert Downcase("y") == "y";
    assert Downcase("oy") == "oy";
    assert Downcase("loy") == "loy";
    assert Downcase("ploy") == "ploy";
    assert Downcase("eploy") == "eploy";
  }

  lemma DeployStages()
    ensures StagesPass(Arr([DeployStage])) == StagesRun([], Some([Str("test")]), Completed)
  {
    var c := CheckStage(DeployStage);
    assert c == StageCheck([], [Str("test")], Completed);
    assert [DeployStage][..0] == [];
    assert [] + c.findings == c.findings && [] + c.declared == c.declared;
    assert Catalogue([DeployStage]) == c;
  }

  lemma DeploySequence()
    ensures SequencePass(Arr([DeployEntry]), Some([Str("test")]), DeployResolver)
      == Pass([Warn(EntryNoVersion("test")), Err(DoesNotExist("deploy"))], Completed)
  {
    DeployEntries();
    DeployCrossReference();
    SequenceOfCompletedEntries([DeployEntry], Some([Str("test")]), DeployResolver);
    TwoGroups(Warn(EntryNoVersion("test")), Err(DoesNotExist("deploy")));
  }

  lemma DeployEntries()
    ensures Entries([DeployEntry]) == EntryCheck([Warn(EntryNoVersion("test"))], ["test", "deploy"], Completed)
  {
    DowncaseDeploy();
    var f := DeployEntry.fields;
    assert EntryDependencies(f) == Ok(["test"] + ["deploy"] + []);
    assert ["test"] + ["deploy"] + [] == ["test", "deploy"];
    SingleEntry(DeployEntry);
  }

  lemma DeployCrossReference()
    ensures CrossReference(Dedup(["test", "deploy"]), Some([Str("test")]), DeployResolver)
      == Pass([Err(DoesNotExist("deploy"))], Completed)
  {
    var deps := ["test", "deploy"];
    assert deps[..1] == ["test"] && ["test"][..0] == [];
    assert "deploy"[0] != "test"[0];
    assert Dedup(deps) == deps;
    assert Str("deploy") !in [Str("test")];
  }

  /** One job referencing the declared 'test' and, on success, 'Deploy':
      'test' is skipped and the resolver's NotExist for 'deploy' becomes an
      error. */
  lemma ResolverDecides()
    ensures Verification(Obj(DeployJob), None, DeployResolver).findings
      == [Warn(EntryNoVersion("test")), Err(DoesNotExist("deploy"))]
  {
    DeployStages();
    DeploySequence();
    DeployTopLevel();
    BodyOfCompletedStages(DeployJob, None, DeployResolver);
  }

  lemma DeployTopLevel()
    ensures "stages" in DeployJob && DeployJob["stages"] == Arr([DeployStage])
    ensures "sequence" in DeployJob && DeployJob["sequence"] == Arr([DeployEntry])
    ensures TopLevel(DeployJob) == []
  {
  }
}
