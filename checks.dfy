/**
 * The check pipeline of the fzp validator (`checkData` in main.go).
 *
 * The rules of the individual checks belong to the fzp library and are not
 * modelled: a loaded record is seen only through which of its `Check*`
 * methods report an error.
 */
module Checks {

  /** Every check that has a `no-check-*` flag on the `validate` command. */
  datatype CheckName =
    | FritzingVersion | ModuleId | ReferenceFile | Version | Title | Description
    | Family | Tags | Properties | Views | Connectors | Buses

  /** The check settings of one run: the checks whose `no-check-*` flag is set. */
  datatype Flags = Flags(noCheck: set<CheckName>)
  {
    /** A check runs only while its `no-check-*` flag is unset. */
    predicate Enabled(c: CheckName) {
      c !in noCheck
    }
  }

  /** No `no-check-*` flag given: every check is enabled. */
  const Defaults: Flags := Flags({})

  /**
   * A loaded fzp record as far as the pipeline can observe it: `failing`
   * holds the checks whose library method returns a non-nil error.
   */
  datatype Fzp = Fzp(failing: set<CheckName>)

  /** The checks checkData actually runs, in the order it runs them. */
  const Pipeline: seq<CheckName> := [ModuleId, Title, Properties]

  /** The checks whose code in checkData is commented out. */
  const CommentedOut: set<CheckName> := {FritzingVersion, Version, Family, Tags}

  /** No check occurs twice in `cs`. */
  predicate Distinct(cs: seq<CheckName>) {
    forall i, j :: 0 <= i < j < |cs| ==> cs[i] != cs[j]
  }

  /** What running check `c` contributes: `[c]` when it is enabled and fails. */
  function Run(flags: Flags, rec: Fzp, c: CheckName): seq<CheckName> {
    if flags.Enabled(c) && c in rec.failing then [c] else []
  }

  /**
   * The checks among `cs` that run under `flags` and fail on `rec`, in the
   * order of `cs`: the checks whose failure is reported and counted.
   */
  function Reported(flags: Flags, rec: Fzp, cs: seq<CheckName>): (r: seq<CheckName>)
    ensures |r| <= |cs|
    ensures forall c :: c in r <==> c in cs && flags.Enabled(c) && c in rec.failing
    ensures Distinct(cs) ==> Distinct(r)
  {
    if cs == [] then []
    else
      var rest := Reported(flags, rec, cs[1..]);
      assert forall c :: c in rest ==> c in cs[1..];
      Run(flags, rec, cs[0]) + rest
  }

  /** The pipeline reports the module-id, title and properties outcomes in that order. */
  lemma ReportedPipeline(flags: Flags, rec: Fzp)
    ensures Reported(flags, rec, Pipeline)
            == Run(flags, rec, ModuleId) + Run(flags, rec, Title) + Run(flags, rec, Properties)
  {
    assert Pipeline[1..] == [Title, Properties];
    assert [Title, Properties][1..] == [Properties];
    assert [Properties][1..] == [];
    assert Reported(flags, rec, [Properties]) == Run(flags, rec, Properties);
    assert Reported(flags, rec, [Title, Properties])
           == Run(flags, rec, Title) + Run(flags, rec, Properties);
  }

  /**
   * checkData: runs the module-id, title and properties checks in that order,
   * each only when its flag is unset, and counts the ones that fail.
   * `reported` lists, in order, the checks whose error is printed.
   */
  method CheckData(flags: Flags, rec: Fzp) returns (count: nat, reported: seq<CheckName>)
    ensures reported == Reported(flags, rec, Pipeline)
    ensures count == |reported| <= 3
  {
    count := 0;
    reported := [];
    if flags.Enabled(ModuleId) {
      if ModuleId in rec.failing {
        reported := reported + [ModuleId];
        count := count + 1;
      }
    }
    assert reported == Run(flags, rec, ModuleId);
    if flags.Enabled(Title) {
      if Title in rec.failing {
        reported := reported + [Title];
        count := count + 1;
      }
    }
    assert reported == Run(flags, rec, ModuleId) + Run(flags, rec, Title);
    if flags.Enabled(Properties) {
      if Properties in rec.failing {
        reported := reported + [Properties];
        count := count + 1;
      }
    }
    ReportedPipeline(flags, rec);
  }

  /** The elements of a duplicate-free sequence are as many as its length. */
  lemma {:induction false} DistinctElements(cs: seq<CheckName>)
    requires Distinct(cs)
    ensures |set c | c in cs| == |cs|
  {
    if cs != [] {
      DistinctElements(cs[1..]);
      assert (set c | c in cs) == {cs[0]} + (set c | c in cs[1..]);
      assert cs[0] !in cs[1..];
    }
  }

  /**
   * The count is the number of wired checks that are enabled and fail;
   * hence it is at most three.
   */
  lemma CountIsEnabledFailingChecks(flags: Flags, rec: Fzp)
    ensures |Reported(flags, rec, Pipeline)|
            == |({ModuleId, Title, Properties} * rec.failing) - flags.noCheck|
    ensures |Reported(flags, rec, Pipeline)| <= 3
  {
    var r := Reported(flags, rec, Pipeline);
    assert Distinct(Pipeline);
    DistinctElements(r);
    assert (set c | c in r) == ({ModuleId, Title, Properties} * rec.failing) - flags.noCheck;
  }

  /** The pipeline reports nothing exactly when every enabled wired check passes. */
  lemma NoFailuresIffEnabledChecksPass(flags: Flags, rec: Fzp)
    ensures Reported(flags, rec, Pipeline) == []
            <==> forall c :: c in Pipeline && flags.Enabled(c) ==> c !in rec.failing
  {
    var r := Reported(flags, rec, Pipeline);
    if r != [] {
      assert r[0] in r;
    }
  }

  /**
   * The pipeline's outcome depends only on the flags and outcomes of the
   * checks it runs.
   */
  lemma {:induction false} ReportedDependsOnlyOnChecksRun(
    f1: Flags, f2: Flags, r1: Fzp, r2: Fzp, cs: seq<CheckName>)
    requires forall c :: c in cs ==> (f1.Enabled(c) <==> f2.Enabled(c))
    requires forall c :: c in cs && f1.Enabled(c) ==> (c in r1.failing <==> c in r2.failing)
    ensures Reported(f1, r1, cs) == Reported(f2, r2, cs)
  {
    if cs != [] {
      assert forall c :: c in cs[1..] ==> c in cs;
      ReportedDependsOnlyOnChecksRun(f1, f2, r1, r2, cs[1..]);
    }
  }

  /**
   * A check whose `no-check-*` flag is set is never reported or counted, and
   * whether the record passes it changes nothing.
   */
  lemma DisabledCheckNeverCounted(flags: Flags, rec: Fzp, c: CheckName)
    requires c in flags.noCheck
    ensures c !in Reported(flags, rec, Pipeline)
    ensures Reported(flags, Fzp(rec.failing + {c}), Pipeline) == Reported(flags, rec, Pipeline)
    ensures Reported(flags, Fzp(rec.failing - {c}), Pipeline) == Reported(flags, rec, Pipeline)
  {
    ReportedDependsOnlyOnChecksRun(flags, flags, Fzp(rec.failing + {c}), rec, Pipeline);
    ReportedDependsOnlyOnChecksRun(flags, flags, Fzp(rec.failing - {c}), rec, Pipeline);
  }

  /**
   * The commented-out checks (fritzing version, version, family, tags) never
   * affect the pipeline, whatever their flags and outcomes.
   */
  lemma CommentedOutChecksInert(f1: Flags, f2: Flags, r1: Fzp, r2: Fzp)
    requires f1.noCheck - CommentedOut == f2.noCheck - CommentedOut
    requires r1.failing - CommentedOut == r2.failing - CommentedOut
    ensures Reported(f1, r1, Pipeline) == Reported(f2, r2, Pipeline)
  {
    forall c | c in Pipeline
      ensures (f1.Enabled(c) <==> f2.Enabled(c)) && (c in r1.failing <==> c in r2.failing)
    {
      assert c !in CommentedOut;
      assert c in f1.noCheck <==> c in f1.noCheck - CommentedOut;
      assert c in f2.noCheck <==> c in f2.noCheck - CommentedOut;
      assert c in r1.failing <==> c in r1.failing - CommentedOut;
      assert c in r2.failing <==> c in r2.failing - CommentedOut;
    }
    ReportedDependsOnlyOnChecksRun(f1, f2, r1, r2, Pipeline);
  }

  /** Setting more `no-check-*` flags never raises the count. */
  lemma {:induction false} MoreFlagsFewerFailures(
    f1: Flags, f2: Flags, rec: Fzp, cs: seq<CheckName>)
    requires f1.noCheck <= f2.noCheck
    ensures |Reported(f2, rec, cs)| <= |Reported(f1, rec, cs)|
  {
    if cs != [] {
      MoreFlagsFewerFailures(f1, f2, rec, cs[1..]);
    }
  }
}
