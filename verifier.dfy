/** The job linter: a Verifier owns one StatusLogger and writes the findings
    of every `verify` call into it, in the order the checks run. */
module Linter {
  import opened JobDocument
  import opened StatusLog
  import opened LintSpec

  class Verifier {
    /** `@status`, created once, kept across `verify` calls. */
    const status: StatusLogger
    /** `@ad_hoc_stages`: nil until a job with `stages` is verified, then the
        names declared by the last such job. */
    var adHocStages: Option<seq<Value>>
    /** `stage_exists?`: the resolver of stages the job does not declare. */
    const stageExists: string -> int

    ghost predicate Valid()
      reads this, status
    {
      status.Valid()
    }

    /** The base Verifier, whose resolver always answers Unknown. */
    constructor ()
      ensures Valid() && fresh(status)
      ensures status.messages == [] && status.warnings == 0 && status.errors == 0
      ensures adHocStages == None
      ensures forall name :: stageExists(name) == Unknown
    {
      status := new StatusLogger();
      adHocStages := None;
      stageExists := DefaultStageExists;
    }

    /** A Verifier whose `stage_exists?` is overridden by `resolver`. */
    constructor WithResolver(resolver: string -> int)
      ensures Valid() && fresh(status)
      ensures status.messages == [] && status.warnings == 0 && status.errors == 0
      ensures adHocStages == None
      ensures forall name :: stageExists(name) == resolver(name)
    {
      status := new StatusLogger();
      adHocStages := None;
      stageExists := resolver;
    }

    /** `verify`: runs the body and turns a raise into one final error. The
        log keeps whatever it held before the call. */
    method Verify(definition: Value)
      requires Valid()
      modifies this, status
      ensures Valid()
      ensures status.messages == old(status.messages) + Verification(definition, old(adHocStages), stageExists).findings
      ensures adHocStages == Verification(definition, old(adHocStages), stageExists).list
      ensures var r := Verification(definition, old(adHocStages), stageExists);
        status.warnings == old(status.warnings) + Count(r.findings, Warning)
        && status.errors == old(status.errors) + Count(r.findings, Error)
    {
      ghost var s0 := status.messages;
      ghost var b := Body(definition, adHocStages, stageExists);
      var outcome := VerifyBody(definition);
      if outcome.Raised? {
        status.Error(FaultMessage(outcome.failure));
        AppendAssoc(s0, b.findings, [Err(FaultMessage(outcome.failure))]);
      }
      ghost var r := Verification(definition, old(adHocStages), stageExists);
      CountersFollow(s0, r.findings, old(status.warnings), old(status.errors), status.warnings, status.errors);
    }

    /** The body of `verify`, up to its `rescue` clause. */
    method VerifyBody(definition: Value) returns (outcome: Outcome)
      requires Valid()
      modifies this, status
      ensures Valid()
      ensures var b := Body(definition, old(adHocStages), stageExists);
        status.messages == old(status.messages) + b.findings && adHocStages == b.list && outcome == b.outcome
    {
      if !definition.Obj? {
        return Raised(NotSymbolizable(definition));
      }
      var job := definition.fields;
      ghost var s0 := status.messages;
      VerifyTopLevel(job);
      ghost var top := TopLevel(job);
      ghost var s := if "stages" in job then StagesPass(job["stages"]) else StagesRun([], None, Completed);
      if "stages" in job {
        outcome := VerifyStages(job["stages"]);
      } else {
        AppendNothing(s0 + top);
        outcome := Completed;
      }
      assert status.messages == s0 + top + s.findings;
      AppendAssoc(s0, top, s.findings);
      if outcome.Raised? {
        return;
      }
      if "sequence" in job {
        outcome := VerifySequence(job["sequence"]);
        ghost var q := SequencePass(job["sequence"], adHocStages, stageExists);
        AppendAssoc(s0, top + s.findings, q.findings);
      }
    }

    /** The top-level checks of `verify`, each independent of the others. */
    method VerifyTopLevel(job: map<string, Value>)
      requires Valid()
      modifies status
      ensures Valid()
      ensures status.messages == old(status.messages) + TopLevel(job)
    {
      ghost var s0 := status.messages;
      if |job| == 0 {
        status.Error(JobEmpty);
      }
      ghost var a := if |job| == 0 then [Err(JobEmpty)] else [];
      AppendNothing(s0);
      assert status.messages == s0 + a;
      ghost var s1 := status.messages;
      if "name" !in job {
        status.Error(JobNoName);
      }
      ghost var b := if "name" !in job then [Err(JobNoName)] else [];
      AppendNothing(s1);
      assert status.messages == s1 + b;
      ghost var s2 := status.messages;
      if "version" !in job {
        status.Warning(JobNoVersion);
      }
      ghost var c := if "version" !in job then [Warn(JobNoVersion)] else [];
      AppendNothing(s2);
      assert status.messages == s2 + c;
      ghost var s3 := status.messages;
      if "environment" !in job {
        status.Warning(JobNoEnvironment);
      }
      ghost var d := if "environment" !in job then [Warn(JobNoEnvironment)] else [];
      AppendNothing(s3);
      assert status.messages == s3 + d;
      ghost var s4 := status.messages;
      if "sequence" !in job {
        status.Error(JobNoSequence);
      }
      ghost var e := if "sequence" !in job then [Err(JobNoSequence)] else [];
      AppendNothing(s4);
      assert status.messages == s4 + e;
      assert TopLevel(job) == a + b + c + d + e;
      AppendAssoc(s0, a, b);
      AppendAssoc(s0, a + b, c);
      AppendAssoc(s0, a + b + c, d);
      AppendAssoc(s0, a + b + c + d, e);
    }

    /** `verify_stages`: checks the catalogue and rebuilds the ad-hoc list. */
    method VerifyStages(stages: Value) returns (outcome: Outcome)
      requires Valid()
      modifies this, status
      ensures Valid()
      ensures var s := StagesPass(stages);
        status.messages == old(status.messages) + s.findings && outcome == s.outcome
        && adHocStages == (if s.list.Some? then s.list else old(adHocStages))
    {
      ghost var s0 := status.messages;
      if !stages.Arr? {
        status.Error(StagesNotArray);
      }
      ghost var shape := if stages.Arr? then [] else [Err(StagesNotArray)];
      AppendNothing(s0);
      assert status.messages == s0 + shape;
      var empty := IsEmpty(stages);
      if empty.Fault? {
        assert StagesPass(stages) == StagesRun(shape, None, Raised(empty.failure));
        return Raised(empty.failure);
      }
      ghost var s1 := status.messages;
      if empty.value {
        status.Warning(StagesEmpty);
      }
      ghost var warn := if empty.value then [Warn(StagesEmpty)] else [];
      AppendNothing(s1);
      assert status.messages == s1 + warn;
      AppendAssoc(s0, shape, warn);
      ghost var head := status.messages;
      adHocStages := Some([]);
      var each := Members(stages);
      if each.Fault? {
        assert StagesPass(stages) == StagesRun(shape + warn, Some([]), Raised(each.failure));
        return Raised(each.failure);
      }
      outcome := VerifyCatalogue(each.value);
      ghost var c := Catalogue(each.value);
      assert StagesPass(stages) == StagesRun(shape + warn + c.findings, Some(c.declared), c.outcome);
      assert [] + c.declared == c.declared;
      AppendAssoc(s0, shape + warn, Catalogue(each.value).findings);
    }

    /** The loop of `verify_stages` over the items, stopping at a raise. */
    method VerifyCatalogue(items: seq<Value>) returns (outcome: Outcome)
      requires Valid() && adHocStages.Some?
      modifies this, status
      ensures Valid()
      ensures var c := Catalogue(items);
        status.messages == old(status.messages) + c.findings && outcome == c.outcome
        && adHocStages == Some(old(adHocStages).value + c.declared)
    {
      ghost var head := status.messages;
      ghost var list := adHocStages.value;
      assert head + [] == head && list + [] == list;
      for i := 0 to |items|
        invariant Valid()
        invariant Catalogue(items[..i]).outcome == Completed
        invariant status.messages == head + Catalogue(items[..i]).findings
        invariant adHocStages == Some(list + Catalogue(items[..i]).declared)
      {
        ghost var done := Catalogue(items[..i]);
        outcome := VerifyStage(items[i]);
        ghost var c := CheckStage(items[i]);
        CatalogueStep(items, i);
        AppendAssoc(head, done.findings, c.findings);
        ValuesAssoc(list, done.declared, c.declared);
        if outcome.Raised? {
          CatalogueStops(items, i + 1);
          return;
        }
      }
      assert items[..|items|] == items;
      outcome := Completed;
    }

    /** The block run for one item of `stages`; `next` leaves the block. */
    method VerifyStage(stage: Value) returns (outcome: Outcome)
      requires Valid() && adHocStages.Some?
      modifies this, status
      ensures Valid()
      ensures var c := CheckStage(stage);
        status.messages == old(status.messages) + c.findings && outcome == c.outcome
        && adHocStages == Some(old(adHocStages).value + c.declared)
    {
      outcome := Completed;
      ghost var s0 := status.messages;
      assert adHocStages.value + [] == adHocStages.value;
      if !stage.Obj? {
        status.Error(StageNotObject);
        return;
      }
      if "name" !in stage.fields {
        status.Error(StageNoName);
        return;
      }
      var name := stage.fields["name"];
      adHocStages := Some(adHocStages.value + [name]);
      if |stage.fields| == 0 {
        // `stage.empty?` cannot hold: the stage has a `name` key.
        assert false;
      }
      if "steps" !in stage.fields {
        status.Error(StageNoSteps(Render(name)));
        assert CheckStage(stage).findings == [Err(StageNoSteps(Render(name)))];
        return;
      }
      var noSteps := IsEmpty(stage.fields["steps"]);
      AppendNothing(s0);
      if noSteps.Fault? {
        return Raised(noSteps.failure);
      }
      if noSteps.value {
        status.Error(StageEmptySteps(Render(name)));
      }
      ghost var x := if noSteps.value then [Err(StageEmptySteps(Render(name)))] else [];
      assert status.messages == s0 + x;
      ghost var s1 := status.messages;
      if "version" !in stage.fields {
        status.Warning(StageNoVersion(Render(name)));
      }
      ghost var y := if "version" !in stage.fields then [Warn(StageNoVersion(Render(name)))] else [];
      AppendNothing(s1);
      assert status.messages == s1 + y;
      AppendAssoc(s0, x, y);
      assert CheckStage(stage).findings == x + y;
    }

    /** `verify_sequence`: checks each entry, collects the distinct lower-cased
        dependencies, then looks each one up. */
    method VerifySequence(sequence: Value) returns (outcome: Outcome)
      requires Valid()
      modifies status
      ensures Valid()
      ensures var q := SequencePass(sequence, adHocStages, stageExists);
        status.messages == old(status.messages) + q.findings && outcome == q.outcome
    {
      ghost var s0 := status.messages;
      if !sequence.Arr? {
        status.Error(SequenceNotArray);
      }
      ghost var shape := if sequence.Arr? then [] else [Err(SequenceNotArray)];
      AppendNothing(s0);
      assert status.messages == s0 + shape;
      var empty := IsEmpty(sequence);
      if empty.Fault? {
        assert SequencePass(sequence, adHocStages, stageExists) == Pass(shape, Raised(empty.failure));
        return Raised(empty.failure);
      }
      ghost var s1 := status.messages;
      if empty.value {
        status.Error(SequenceEmpty);
      }
      ghost var none := if empty.value then [Err(SequenceEmpty)] else [];
      AppendNothing(s1);
      assert status.messages == s1 + none;
      AppendAssoc(s0, shape, none);
      var each := Members(sequence);
      if each.Fault? {
        assert SequencePass(sequence, adHocStages, stageExists) == Pass(shape + none, Raised(each.failure));
        return Raised(each.failure);
      }
      var dependencies;
      dependencies, outcome := VerifyEntries(each.value);
      ghost var e := Entries(each.value);
      AppendAssoc(s0, shape + none, e.findings);
      if outcome.Raised? {
        assert SequencePass(sequence, adHocStages, stageExists) == Pass(shape + none + e.findings, e.outcome);
        return;
      }
      dependencies := Uniq(dependencies);
      outcome := VerifyDependencies(dependencies);
      ghost var x := CrossReference(dependencies, adHocStages, stageExists);
      assert SequencePass(sequence, adHocStages, stageExists) == Pass(shape + none + e.findings + x.findings, x.outcome);
      AppendAssoc(s0, shape + none + e.findings, x.findings);
    }

    /** The loop of `verify_sequence` over the entries, which collects the
        dependencies and stops at a raise. */
    method VerifyEntries(items: seq<Value>) returns (dependencies: seq<string>, outcome: Outcome)
      requires Valid()
      modifies status
      ensures Valid()
      ensures var e := Entries(items);
        status.messages == old(status.messages) + e.findings && outcome == e.outcome
        && (outcome.Completed? ==> dependencies == e.deps)
    {
      dependencies := [];
      ghost var head := status.messages;
      assert head + [] == head;
      for i := 0 to |items|
        invariant Valid()
        invariant Entries(items[..i]).outcome == Completed
        invariant status.messages == head + Entries(items[..i]).findings
        invariant dependencies == Entries(items[..i]).deps
      {
        ghost var done := Entries(items[..i]);
        var deps;
        deps, outcome := VerifyEntry(items[i]);
        ghost var c := CheckEntry(items[i]);
        EntriesStep(items, i);
        AppendAssoc(head, done.findings, c.findings);
        if outcome.Raised? {
          EntriesStop(items, i + 1);
          return;
        }
        dependencies := dependencies + deps;
      }
      assert items[..|items|] == items;
      outcome := Completed;
    }

    /** The block run for one entry of `sequence`: logs its findings and
        returns the dependencies it adds. */
    method VerifyEntry(entry: Value) returns (deps: seq<string>, outcome: Outcome)
      requires Valid()
      modifies status
      ensures Valid()
      ensures var c := CheckEntry(entry);
        status.messages == old(status.messages) + c.findings && outcome == c.outcome
        && (outcome.Completed? ==> deps == c.deps)
    {
      deps, outcome := [], Completed;
      if !entry.Obj? {
        status.Error(EntryNotObject);
        return;
      }
      if "stage" !in entry.fields {
        status.Error(EntryNoStage);
        return;
      }
      var name := entry.fields["stage"];
      status.Warning(EntryNoVersion(Render(name)));
      var lower := DowncaseOf(name);
      if lower.Fault? {
        return deps, Raised(lower.failure);
      }
      deps := deps + [lower.value];
      if "on_success" in entry.fields {
        var next := DowncaseOf(entry.fields["on_success"]);
        if next.Fault? {
          return deps, Raised(next.failure);
        }
        deps := deps + [next.value];
      }
      if "on_failure" in entry.fields {
        var next := DowncaseOf(entry.fields["on_failure"]);
        if next.Fault? {
          return deps, Raised(next.failure);
        }
        deps := deps + [next.value];
      }
    }

    /** The loop over the distinct dependencies of `verify_sequence`. */
    method VerifyDependencies(dependencies: seq<string>) returns (outcome: Outcome)
      requires Valid()
      modifies status
      ensures Valid()
      ensures var x := CrossReference(dependencies, adHocStages, stageExists);
        status.messages == old(status.messages) + x.findings && outcome == x.outcome
    {
      ghost var start := status.messages;
      for k := 0 to |dependencies|
        invariant Valid()
        invariant CrossReference(dependencies[..k], adHocStages, stageExists).outcome == Completed
        invariant status.messages == start + CrossReference(dependencies[..k], adHocStages, stageExists).findings
      {
        ghost var done := CrossReference(dependencies[..k], adHocStages, stageExists);
        var dep := dependencies[k];
        ghost var c := CheckDependency(dep, adHocStages, stageExists);
        CrossReferenceStep(dependencies, k, adHocStages, stageExists);
        AppendAssoc(start, done.findings, c.findings);
        AppendNothing(start + done.findings);
        if adHocStages.None? {
          CrossReferenceStops(dependencies, k + 1, adHocStages, stageExists);
          return Raised(NilInclude);
        }
        if Str(dep) in adHocStages.value {
          continue;
        }
        var known := stageExists(dep);
        if known == Unknown {
          status.Warning(MayNotExist(dep));
        } else if known == NotExist {
          status.Error(DoesNotExist(dep));
        }
      }
      assert dependencies[..|dependencies|] == dependencies;
      outcome := Completed;
    }
  }
}
