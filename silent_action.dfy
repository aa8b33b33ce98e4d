/**
 * A silent action: a grammar step that runs a body taking no arguments at one stage
 * (setup, execution or teardown) of a section. Running it against a specification
 * context either just runs the body or, when the body raises an exception, records one
 * error result for the section at that stage. A critical silent action that faults
 * also stops the rest of the execution: the context can no longer continue.
 */
module SilentActions {
  import opened Wrappers

  datatype Stage = Setup | Execution | Teardown

  /** The stage's name, which an error result carries as its position. */
  function StageName(stage: Stage): string
  {
    match stage
    case Setup => "setup"
    case Execution => "execution"
    case Teardown => "teardown"
  }

  datatype ResultStatus = Success | Failed | Error

  /** The outcome of one executed step. */
  datatype StepResult = StepResult(id: string, position: string, status: ResultStatus, error: string)

  /** An exception raised by an action's body: its type's full name and its message. */
  datatype Fault = Fault(typeName: string, message: string)

  /** The section a silent action belongs to. */
  datatype Section = Section(fixture: string, id: string)

  /** Whether `part` occurs somewhere inside `text`. */
  predicate Contains(text: string, part: string)
  {
    part <= text || (|text| > 0 && Contains(text[1..], part))
  }

  /** A text contains whatever is written inside it, after any prefix. */
  lemma {:induction false} ContainsInside(before: string, part: string, after: string)
    ensures Contains(before + part + after, part)
  {
    if before == [] {
      assert before + part + after == part + after;
    } else {
      assert (before + part + after)[1..] == before[1..] + part + after;
      ContainsInside(before[1..], part, after);
    }
  }

  /** The text a result keeps for a fault: the exception's type name, then its message. */
  function ErrorText(f: Fault): string
  {
    f.typeName + ": " + f.message
  }

  /** The error result recorded when the body faults: it is for the section, positioned
      at the stage's name, has status error, and names the exception's type. */
  function FaultResult(section: Section, stage: Stage, f: Fault): (r: StepResult)
    ensures r.id == section.id
    ensures r.position == StageName(stage)
    ensures r.status == Error
    ensures Contains(r.error, f.typeName)
  {
    var text := ErrorText(f);
    ContainsInside("", f.typeName, ": " + f.message);
    assert "" + f.typeName + (": " + f.message) == text;
    StepResult(section.id, StageName(stage), Error, text)
  }

  /** The state of one specification run: the results recorded so far, and whether a
      critical fault has stopped it. */
  class SpecContext {
    var results: seq<StepResult>
    var stopped: bool

    constructor ForTesting()
      ensures results == [] && !stopped
    {
      results := [];
      stopped := false;
    }

    /** False once a critical fault has been recorded. */
    predicate CanContinue()
      reads this
    {
      !stopped
    }

    method LogResult(r: StepResult)
      modifies this
      ensures results == old(results) + [r]
      ensures stopped == old(stopped)
    {
      results := results + [r];
    }

    /** Signals that the rest of this execution must be skipped. */
    method StopForCriticalFault()
      modifies this
      ensures results == old(results)
      ensures stopped
    {
      stopped := true;
    }
  }

  /** The body of an action: what invoking it does (finish, or raise `fault`), and how
      often it has been invoked. */
  class ActionBody {
    const fault: Option<Fault>
    var invocations: nat

    constructor (fault: Option<Fault>)
      ensures this.fault == fault && invocations == 0
    {
      this.fault := fault;
      invocations := 0;
    }

    method Invoke(context: SpecContext) returns (raised: Option<Fault>)
      modifies this
      ensures invocations == old(invocations) + 1
      ensures raised == fault
    {
      invocations := invocations + 1;
      raised := fault;
    }
  }

  /** A visitor over steps; it keeps, in order, the silent actions it was shown as lines. */
  class StepExecutor {
    var lines: seq<SilentAction>

    constructor ()
      ensures lines == []
    {
      lines := [];
    }

    method Line(action: SilentAction)
      modifies this
      ensures lines == old(lines) + [action]
    {
      lines := lines + [action];
    }
  }

  class SilentAction {
    const fixtureName: string
    const stage: Stage
    const body: ActionBody
    const section: Section
    const critical: bool

    constructor (fixtureName: string, stage: Stage, body: ActionBody, section: Section)
      ensures this.fixtureName == fixtureName && this.stage == stage
      ensures this.body == body && this.section == section
      ensures !critical
    {
      this.fixtureName := fixtureName;
      this.stage := stage;
      this.body := body;
      this.section := section;
      critical := false;
    }

    constructor AsCritical(fixtureName: string, stage: Stage, body: ActionBody, section: Section)
      ensures this.fixtureName == fixtureName && this.stage == stage
      ensures this.body == body && this.section == section
      ensures critical
    {
      this.fixtureName := fixtureName;
      this.stage := stage;
      this.body := body;
      this.section := section;
      critical := true;
    }

    /** Runs the body once. A fault is recorded as exactly one more result, the error result
        for this action's section and stage; a critical action's fault also stops the run. */
    method Execute(context: SpecContext)
      modifies context, body
      ensures body.invocations == old(body.invocations) + 1
      ensures body.fault.Some? ==>
                context.results == old(context.results) + [FaultResult(section, stage, body.fault.value)]
      ensures body.fault.Some? && critical ==> !context.CanContinue()
    {
      var raised := body.Invoke(context);
      if raised.Some? {
        context.LogResult(FaultResult(section, stage, raised.value));
        if critical {
          context.StopForCriticalFault();
        }
      }
    }

    /** A visitor sees a silent action as one line: the action itself. */
    method AcceptVisitor(executor: StepExecutor)
      modifies executor
      ensures executor.lines == old(executor.lines) + [this]
    {
      executor.Line(this);
    }
  }

  // ---------------------------------------------------------------------------
  // The scenarios of the silent action's tests

  /** An action whose body finishes runs that body. */
  method HappyPath() returns (wasCalled: bool)
    ensures wasCalled
  {
    var body := new ActionBody(None);
    var action := new SilentAction("Fixture", Setup, body, Section("Math", "4"));
    var context := new SpecContext.ForTesting();
    action.Execute(context);
    wasCalled := body.invocations > 0;
  }

  /** A teardown action whose body divides by zero leaves a single result: an error for
      section 5 at position "teardown" that names DivideByZeroException. */
  method SadPath() returns (results: seq<StepResult>)
    ensures |results| == 1
    ensures results[0].id == "5" && results[0].position == "teardown"
    ensures results[0].status == Error
    ensures Contains(results[0].error, "DivideByZeroException")
  {
    var fault := Fault("System." + "DivideByZeroException", "Attempted to divide by zero.");
    var body := new ActionBody(Some(fault));
    var action := new SilentAction("Fixture", Teardown, body, Section("Math", "5"));
    var context := new SpecContext.ForTesting();
    action.Execute(context);
    results := context.results;
    ErrorTextNamesShortName("System.", "DivideByZeroException", "Attempted to divide by zero.");
  }

  /** The error text of a fault names the type's short name, whatever its namespace. */
  lemma {:induction false} ErrorTextNamesShortName(namespace: string, short: string, message: string)
    ensures Contains(ErrorText(Fault(namespace + short, message)), short)
  {
    ContainsInside(namespace, short, ": " + message);
    assert namespace + short + (": " + message) == ErrorText(Fault(namespace + short, message));
  }

  /** The same fault in a critical action stops the run. */
  method CriticalPath() returns (canContinue: bool)
    ensures !canContinue
  {
    var body := new ActionBody(Some(Fault("System.DivideByZeroException", "Attempted to divide by zero.")));
    var action := new SilentAction.AsCritical("Fixture", Teardown, body, Section("Math", "5"));
    var context := new SpecContext.ForTesting();
    action.Execute(context);
    canContinue := context.CanContinue();
  }

  /** Visiting an action shows the visitor that very action as a line. */
  method VisitPath() returns (shown: seq<SilentAction>, action: SilentAction)
    ensures shown == [action]
  {
    var body := new ActionBody(None);
    action := new SilentAction("Fixture", Setup, body, Section("Math", ""));
    var executor := new StepExecutor();
    action.AcceptVisitor(executor);
    shown := executor.lines;
  }
}
