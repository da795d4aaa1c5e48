/** What one call of `Verifier#verify` appends to the log, as functions of
    the document, the stage list left by earlier calls and the stage
    resolver. The Verifier class is proved to do exactly this. */
module LintSpec {
  import opened JobDocument
  import opened StatusLog

  // The Bertrand tri-state answered by `stage_exists?`.
  const Unknown: int := 0
  const NotExist: int := 1
  const Exists: int := 2

  /** `stage_exists?` of the base Verifier: it never knows. */
  function DefaultStageExists(name: string): (r: int)
    ensures r == Unknown
  {
    Unknown
  }

  // Findings of the top-level checks.
  const JobNotHash := "Job is not a hash?"
  const JobEmpty := "Job is empty?"
  const JobNoName := "The Job does not have a name."
  const JobNoVersion := "No version is defined for the Job. The default of 1.0.0 will be used."
  const JobNoEnvironment := "No environment is defined. Defaults will apply."
  const JobNoSequence := "No sequence is defined."

  // Findings about the stage catalogue.
  const StagesNotArray := "Stages is not defined as an Array."
  const StagesEmpty := "Stages is defined but empty?"
  const StageNotObject := "A Stage is defined but is not an Object?"
  const StageNoName := "A Stage is defined without a name."

  function StageEmpty(name: string): string {
    "The Stage '" + name + "' is defined but empty."
  }

  function StageNoSteps(name: string): string {
    "The Stage '" + name + "' does not define any Steps."
  }

  function StageEmptySteps(name: string): string {
    "The Stage '" + name + "' defines an empty set of Steps."
  }

  function StageNoVersion(name: string): string {
    "No version is given for the Stage '" + name + "'. The default of 1.0.0 will be used."
  }

  // Findings about the sequence.
  const SequenceNotArray := "The Sequence is not defined as an Array."
  const SequenceEmpty := "The Sequence is defined but empty?"
  const EntryNotObject := "A Stage in the Sequence is defined that is not an Object?"
  const EntryNoStage := "A Stage in the Sequence does not name a Stage to run."

  function EntryNoVersion(name: string): string {
    "A Stage in the Sequence does not specify a version for the Stage '" + name + "'. The latest will always be used."
  }

  function MayNotExist(dep: string): string {
    "The Stage '" + dep + "' in the Sequence is not defined in this job and may not exist on the server."
  }

  function DoesNotExist(dep: string): string {
    "The Stage '" + dep + "' in the Sequence is not defined in this job and does not exist on the server."
  }

  const FaultPrefix := "An unexpected error occured during the verification: "

  /** The single error that the `rescue` clause logs. */
  function FaultMessage(f: Failure): (r: string)
    ensures |FaultPrefix| < |r| && r[..|FaultPrefix|] == FaultPrefix
    ensures r[|FaultPrefix|..] == FailureText(f)
  {
    FaultPrefix + FailureText(f)
  }

  function Warn(text: string): Message {
    Message(Warning, text)
  }

  function Err(text: string): Message {
    Message(Error, text)
  }

  /** Whether a stretch of the body ran to its end or raised. */
  datatype Outcome = Completed | Raised(failure: Failure)

  /** The top-level checks on a symbolized job. The `is_a? Hash` check that
      precedes them never fires: a job that is not a Hash has already raised
      in `deep_symbolize_keys`. */
  function TopLevel(job: map<string, Value>): (r: seq<Message>)
    ensures |r| <= 5
    ensures |r| == 5 <==> |job| == 0
  {
    (if |job| == 0 then [Err(JobEmpty)] else [])
    + (if "name" !in job then [Err(JobNoName)] else [])
    + (if "version" !in job then [Warn(JobNoVersion)] else [])
    + (if "environment" !in job then [Warn(JobNoEnvironment)] else [])
    + (if "sequence" !in job then [Err(JobNoSequence)] else [])
  }

  /** Findings, names added to the ad-hoc stage list, and how it ended. */
  datatype StageCheck = StageCheck(findings: seq<Message>, declared: seq<Value>, outcome: Outcome)

  /** One item of `stages`. */
  function CheckStage(stage: Value): (r: StageCheck)
    ensures r.declared == (if stage.Obj? && "name" in stage.fields then [stage.fields["name"]] else [])
    ensures r.outcome.Raised? <==>
      stage.Obj? && "name" in stage.fields && "steps" in stage.fields && IsEmpty(stage.fields["steps"]).Fault?
    ensures r.outcome.Raised? ==> r.findings == []
    ensures |r.findings| <= 2
  {
    if !stage.Obj? then StageCheck([Err(StageNotObject)], [], Completed)
    else if "name" !in stage.fields then StageCheck([Err(StageNoName)], [], Completed)
    else
      var name := stage.fields["name"];
      var empty := if |stage.fields| == 0 then [Err(StageEmpty(Render(name)))] else [];
      if "steps" !in stage.fields then
        StageCheck(empty + [Err(StageNoSteps(Render(name)))], [name], Completed)
      else
        match IsEmpty(stage.fields["steps"])
        case Fault(f) => StageCheck(empty, [name], Raised(f))
        case Ok(noSteps) =>
          StageCheck(empty
                     + (if noSteps then [Err(StageEmptySteps(Render(name)))] else [])
                     + (if "version" !in stage.fields then [Warn(StageNoVersion(Render(name)))] else []),
                     [name], Completed)
  }

  /** The loop over the items of `stages`, which stops at the first raise. */
  function Catalogue(items: seq<Value>): (r: StageCheck)
    ensures |r.declared| <= |items|
    ensures |r.findings| <= 2 * |items|
    decreases |items|
  {
    if |items| == 0 then StageCheck([], [], Completed)
    else
      var done := Catalogue(items[..|items| - 1]);
      if done.outcome.Raised? then done
      else
        var c := CheckStage(items[|items| - 1]);
        StageCheck(done.findings + c.findings, done.declared + c.declared, c.outcome)
  }

  /** One more item, after a prefix that ran to its end. */
  lemma CatalogueStep(items: seq<Value>, i: nat)
    requires i < |items| && Catalogue(items[..i]).outcome == Completed
    ensures var done := Catalogue(items[..i]);
      var c := CheckStage(items[i]);
      Catalogue(items[..i + 1]) == StageCheck(done.findings + c.findings, done.declared + c.declared, c.outcome)
  {
    assert items[..i + 1][..i] == items[..i];
  }

  /** Once an item has raised, the later items are never looked at. */
  lemma {:induction false} CatalogueStops(items: seq<Value>, n: nat)
    requires n <= |items| && Catalogue(items[..n]).outcome.Raised?
    ensures Catalogue(items) == Catalogue(items[..n])
    decreases |items| - n
  {
    if n == |items| {
      assert items[..n] == items;
    } else {
      assert items[..n + 1][..n] == items[..n];
      CatalogueStops(items, n + 1);
    }
  }

  /** `verify_stages`: `list` is the new ad-hoc stage list, or None when the
      method raised before resetting it. */
  datatype StagesRun = StagesRun(findings: seq<Message>, list: Option<seq<Value>>, outcome: Outcome)

  function StagesPass(stages: Value): (r: StagesRun)
    ensures r.list.None? <==> !(stages.Str? || stages.Arr? || stages.Obj?)
    ensures r.list.None? ==> r == StagesRun([Err(StagesNotArray)], None, Raised(NoEmpty(stages)))
    ensures !stages.Arr? ==> |r.findings| > 0 && r.findings[0] == Err(StagesNotArray)
    ensures stages.Str? ==> r.outcome == Raised(NoEach(stages))
  {
    var shape := if stages.Arr? then [] else [Err(StagesNotArray)];
    match IsEmpty(stages)
    case Fault(f) => StagesRun(shape, None, Raised(f))
    case Ok(none) =>
      var head := shape + (if none then [Warn(StagesEmpty)] else []);
      match Members(stages)
      case Fault(f) => StagesRun(head, Some([]), Raised(f))
      case Ok(items) =>
        var c := Catalogue(items);
        StagesRun(head + c.findings, Some(c.declared), c.outcome)
  }

  /** Findings, dependency names collected, and how it ended. */
  datatype EntryCheck = EntryCheck(findings: seq<Message>, deps: seq<string>, outcome: Outcome)

  /** The lower-cased value under `key`, if the entry has that key. */
  function OptionalDependency(fields: map<string, Value>, key: string): (r: Attempt<seq<string>>)
    ensures key !in fields ==> r == Ok([])
    ensures key in fields ==> (r.Ok? <==> fields[key].Str?)
    ensures key in fields && r.Ok? ==> r.value == [Downcase(fields[key].s)]
  {
    if key !in fields then Ok([])
    else
      match DowncaseOf(fields[key])
      case Fault(f) => Fault(f)
      case Ok(d) => Ok([d])
  }

  /** The lower-cased `stage`, `on_success` and `on_failure` of an entry. */
  function EntryDependencies(fields: map<string, Value>): (r: Attempt<seq<string>>)
    requires "stage" in fields
    ensures r.Ok? <==> (fields["stage"].Str?
                        && ("on_success" in fields ==> fields["on_success"].Str?)
                        && ("on_failure" in fields ==> fields["on_failure"].Str?))
    ensures r.Ok? ==> 1 <= |r.value| <= 3 && r.value[0] == Downcase(fields["stage"].s)
  {
    match DowncaseOf(fields["stage"])
    case Fault(f) => Fault(f)
    case Ok(d) =>
      match OptionalDependency(fields, "on_success")
      case Fault(f) => Fault(f)
      case Ok(s) =>
        match OptionalDependency(fields, "on_failure")
        case Fault(f) => Fault(f)
        case Ok(t) => Ok([d] + s + t)
  }

  /** One entry of `sequence`. */
  function CheckEntry(entry: Value): (r: EntryCheck)
    ensures |r.findings| == 1
    ensures r.findings[0].kind == Warning <==> entry.Obj? && "stage" in entry.fields
    ensures r.outcome.Raised? ==> r.deps == [] && entry.Obj? && "stage" in entry.fields
    ensures |r.deps| <= 3
  {
    if !entry.Obj? then EntryCheck([Err(EntryNotObject)], [], Completed)
    else if "stage" !in entry.fields then EntryCheck([Err(EntryNoStage)], [], Completed)
    else
      var found := [Warn(EntryNoVersion(Render(entry.fields["stage"])))];
      match EntryDependencies(entry.fields)
      case Fault(f) => EntryCheck(found, [], Raised(f))
      case Ok(deps) => EntryCheck(found, deps, Completed)
  }

  /** The loop over the entries of `sequence`, which stops at the first raise. */
  function Entries(items: seq<Value>): (r: EntryCheck)
    ensures |r.findings| <= |items|
    ensures r.outcome.Completed? ==> |r.findings| == |items|
    ensures |r.deps| <= 3 * |items|
    decreases |items|
  {
    if |items| == 0 then EntryCheck([], [], Completed)
    else
      var done := Entries(items[..|items| - 1]);
      if done.outcome.Raised? then done
      else
        var c := CheckEntry(items[|items| - 1]);
        EntryCheck(done.findings + c.findings, done.deps + c.deps, c.outcome)
  }

  /** One more entry, after a prefix that ran to its end. */
  lemma EntriesStep(items: seq<Value>, i: nat)
    requires i < |items| && Entries(items[..i]).outcome == Completed
    ensures var done := Entries(items[..i]);
      var c := CheckEntry(items[i]);
      Entries(items[..i + 1]) == EntryCheck(done.findings + c.findings, done.deps + c.deps, c.outcome)
  {
    assert items[..i + 1][..i] == items[..i];
  }

  /** Once an entry has raised, the later entries are never looked at. */
  lemma {:induction false} EntriesStop(items: seq<Value>, n: nat)
    requires n <= |items| && Entries(items[..n]).outcome.Raised?
    ensures Entries(items) == Entries(items[..n])
    decreases |items| - n
  {
    if n == |items| {
      assert items[..n] == items;
    } else {
      assert items[..n + 1][..n] == items[..n];
      EntriesStop(items, n + 1);
    }
  }

  /** Findings of a stretch of the body and how it ended. */
  datatype Pass = Pass(findings: seq<Message>, outcome: Outcome)

  /** One distinct dependency: skipped when declared in this job (by exact
      equality with a recorded name), otherwise judged by the resolver. */
  function CheckDependency(dep: string, list: Option<seq<Value>>, stageExists: string -> int): (r: Pass)
    ensures r.outcome.Raised? <==> list.None?
    ensures |r.findings| <= 1
    ensures r.findings != [] ==> list.Some? && Str(dep) !in list.value
  {
    if list.None? then Pass([], Raised(NilInclude))
    else if Str(dep) in list.value then Pass([], Completed)
    else
      var known := stageExists(dep);
      if known == Unknown then Pass([Warn(MayNotExist(dep))], Completed)
      else if known == NotExist then Pass([Err(DoesNotExist(dep))], Completed)
      else Pass([], Completed)
  }

  /** The loop over the distinct dependencies. */
  function CrossReference(deps: seq<string>, list: Option<seq<Value>>, stageExists: string -> int): (r: Pass)
    ensures r.outcome.Raised? <==> list.None? && |deps| > 0
    ensures |r.findings| <= |deps|
    decreases |deps|
  {
    if |deps| == 0 then Pass([], Completed)
    else
      var done := CrossReference(deps[..|deps| - 1], list, stageExists);
      if done.outcome.Raised? then done
      else
        var c := CheckDependency(deps[|deps| - 1], list, stageExists);
        Pass(done.findings + c.findings, c.outcome)
  }

  /** One more dependency, after a prefix that ran to its end. */
  lemma CrossReferenceStep(deps: seq<string>, k: nat, list: Option<seq<Value>>, stageExists: string -> int)
    requires k < |deps| && CrossReference(deps[..k], list, stageExists).outcome == Completed
    ensures var done := CrossReference(deps[..k], list, stageExists);
      var c := CheckDependency(deps[k], list, stageExists);
      CrossReference(deps[..k + 1], list, stageExists) == Pass(done.findings + c.findings, c.outcome)
  {
    assert deps[..k + 1][..k] == deps[..k];
  }

  /** Once a dependency has raised, the later ones are never looked at. */
  lemma {:induction false} CrossReferenceStops(deps: seq<string>, n: nat, list: Option<seq<Value>>, stageExists: string -> int)
    requires n <= |deps| && CrossReference(deps[..n], list, stageExists).outcome.Raised?
    ensures CrossReference(deps, list, stageExists) == CrossReference(deps[..n], list, stageExists)
    decreases |deps| - n
  {
    if n == |deps| {
      assert deps[..n] == deps;
    } else {
      assert deps[..n + 1][..n] == deps[..n];
      CrossReferenceStops(deps, n + 1, list, stageExists);
    }
  }

  /** `verify_sequence`, given the ad-hoc stage list at that point. */
  function SequencePass(sequence: Value, list: Option<seq<Value>>, stageExists: string -> int): (r: Pass)
    ensures !(sequence.Str? || sequence.Arr? || sequence.Obj?) ==>
      r == Pass([Err(SequenceNotArray)], Raised(NoEmpty(sequence)))
    ensures !sequence.Arr? ==> |r.findings| > 0 && r.findings[0] == Err(SequenceNotArray)
    ensures sequence.Str? ==> r.outcome == Raised(NoEach(sequence))
  {
    var shape := if sequence.Arr? then [] else [Err(SequenceNotArray)];
    match IsEmpty(sequence)
    case Fault(f) => Pass(shape, Raised(f))
    case Ok(none) =>
      var head := shape + (if none then [Err(SequenceEmpty)] else []);
      match Members(sequence)
      case Fault(f) => Pass(head, Raised(f))
      case Ok(items) =>
        var e := Entries(items);
        if e.outcome.Raised? then Pass(head + e.findings, e.outcome)
        else
          var x := CrossReference(Dedup(e.deps), list, stageExists);
          Pass(head + e.findings + x.findings, x.outcome)
  }

  /** The body of `verify` up to the `rescue`: its findings, the ad-hoc stage
      list afterwards, and how it ended. */
  datatype BodyRun = BodyRun(findings: seq<Message>, list: Option<seq<Value>>, outcome: Outcome)

  function Body(doc: Value, list: Option<seq<Value>>, stageExists: string -> int): (r: BodyRun)
    ensures !doc.Obj? ==> r.findings == [] && r.list == list && r.outcome.Raised?
    ensures doc.Obj? ==> |TopLevel(doc.fields)| <= |r.findings|
                         && r.findings[..|TopLevel(doc.fields)|] == TopLevel(doc.fields)
    ensures !(doc.Obj? && "stages" in doc.fields) ==> r.list == list
    ensures doc.Obj? && "stages" in doc.fields && StagesPass(doc.fields["stages"]).outcome.Raised? ==>
      r.findings == TopLevel(doc.fields) + StagesPass(doc.fields["stages"]).findings
      && r.outcome == StagesPass(doc.fields["stages"]).outcome
  {
    if !doc.Obj? then BodyRun([], list, Raised(NotSymbolizable(doc)))
    else
      var job := doc.fields;
      var top := TopLevel(job);
      var s := if "stages" in job then StagesPass(job["stages"]) else StagesRun([], None, Completed);
      var list' := if s.list.Some? then s.list else list;
      if s.outcome.Raised? then BodyRun(top + s.findings, list', s.outcome)
      else if "sequence" !in job then BodyRun(top + s.findings, list', Completed)
      else
        var q := SequencePass(job["sequence"], list', stageExists);
        BodyRun(top + s.findings + q.findings, list', q.outcome)
  }

  /** What one call of `verify` appends to the log, and the ad-hoc stage list
      it leaves for the next call. */
  datatype Report = Report(findings: seq<Message>, list: Option<seq<Value>>)

  function Verification(doc: Value, list: Option<seq<Value>>, stageExists: string -> int): (r: Report)
    ensures var b := Body(doc, list, stageExists);
      r.list == b.list && |b.findings| <= |r.findings| <= |b.findings| + 1 && r.findings[..|b.findings|] == b.findings
    ensures var b := Body(doc, list, stageExists);
      (b.outcome.Raised? <==> |r.findings| == |b.findings| + 1)
      && (b.outcome.Raised? ==> r.findings[|b.findings|] == Err(FaultMessage(b.outcome.failure)))
    ensures !doc.Obj? ==> r.findings == [Err(FaultMessage(NotSymbolizable(doc)))] && r.list == list
  {
    var b := Body(doc, list, stageExists);
    match b.outcome
    case Completed => Report(b.findings, b.list)
    case Raised(f) => Report(b.findings + [Err(FaultMessage(f))], b.list)
  }
}
