/** The failure message of the typed-context build: the compiler's error
    diagnostics, in emission order, after a fixed marker. */
module CompileErrors {
  import opened Wrappers
  import opened Seqs

  datatype Severity = Hidden | Info | Warning | Error

  datatype Diagnostic = Diagnostic(severity: Severity, message: string)

  const Marker := "Can't compile typed context:"

  /** The error-severity diagnostics, in emission order. */
  function Errors(diagnostics: seq<Diagnostic>): (r: seq<Diagnostic>)
    ensures forall d :: d in r <==> d in diagnostics && d.severity == Error
    ensures |r| <= |diagnostics|
  {
    if |diagnostics| == 0 then []
    else (if diagnostics[0].severity == Error then [diagnostics[0]] else []) + Errors(diagnostics[1..])
  }

  lemma {:induction false} ErrorsAppend(a: seq<Diagnostic>, b: seq<Diagnostic>)
    ensures Errors(a + b) == Errors(a) + Errors(b)
    decreases |a|
  {
    if |a| > 0 {
      assert (a + b)[1..] == a[1..] + b;
      ErrorsAppend(a[1..], b);
    } else {
      assert a + b == b;
    }
  }

  /** The left fold of `Aggregate`: each diagnostic appends a line break and its message. */
  function Aggregate(acc: string, diagnostics: seq<Diagnostic>, newline: string): string
    decreases |diagnostics|
  {
    if |diagnostics| == 0 then acc
    else Aggregate(acc + newline + diagnostics[0].message, diagnostics[1..], newline)
  }

  /** One line per diagnostic: a line break followed by its message. */
  function Lines(diagnostics: seq<Diagnostic>, newline: string): (r: seq<string>)
    ensures |r| == |diagnostics|
  {
    seq(|diagnostics|, i requires 0 <= i < |diagnostics| => newline + diagnostics[i].message)
  }

  /** The fold is the accumulator followed by all the lines. */
  lemma {:induction false} AggregateIsConcat(acc: string, diagnostics: seq<Diagnostic>, newline: string)
    ensures Aggregate(acc, diagnostics, newline) == acc + Concat(Lines(diagnostics, newline))
    decreases |diagnostics|
  {
    if |diagnostics| > 0 {
      var lines := Lines(diagnostics, newline);
      assert lines[1..] == Lines(diagnostics[1..], newline);
      AggregateIsConcat(acc + newline + diagnostics[0].message, diagnostics[1..], newline);
      assert Concat(lines) == lines[0] + Concat(lines[1..]);
    }
  }

  /** The message of the exception thrown when emitting fails. */
  function FailureMessage(diagnostics: seq<Diagnostic>, newline: string): (r: string)
    ensures r == Marker + Concat(Lines(Errors(diagnostics), newline))
  {
    AggregateIsConcat(Marker, Errors(diagnostics), newline);
    Aggregate(Marker, Errors(diagnostics), newline)
  }

  /** `BuildAssembly` after emitting: `None` when emitting succeeded, otherwise
      the message of the exception it throws. A failed emit throws even when no
      diagnostic has error severity (the message is then the marker alone). */
  function BuildOutcome(success: bool, diagnostics: seq<Diagnostic>, newline: string): (r: Option<string>)
    ensures r.None? <==> success
    ensures !success ==> r == Some(FailureMessage(diagnostics, newline))
    ensures r.Some? ==> |r.value| >= |Marker| && r.value[..|Marker|] == Marker
    ensures r.Some? && (forall d :: d in diagnostics ==> d.severity != Error) ==> r.value == Marker
  {
    if success then None
    else
      var msg := FailureMessage(diagnostics, newline);
      assert (Marker + Concat(Lines(Errors(diagnostics), newline)))[..|Marker|] == Marker;
      assert (forall d :: d in diagnostics ==> d.severity != Error) ==> Errors(diagnostics) == [];
      Some(msg)
  }

  /** Every error diagnostic's message appears in the failure message, on a
      line of its own. */
  lemma FailureMessageMentionsEveryError(diagnostics: seq<Diagnostic>, newline: string, j: nat)
    requires j < |diagnostics| && diagnostics[j].severity == Error
    ensures OccursIn(newline + diagnostics[j].message, FailureMessage(diagnostics, newline))
  {
    var errors := Errors(diagnostics);
    assert diagnostics[j] in errors;
    var k :| 0 <= k < |errors| && errors[k] == diagnostics[j];
    var lines := Lines(errors, newline);
    ConcatContains(lines, k);
    OccursInAfterPrefix(lines[k], Marker, Concat(lines));
  }

  /** Diagnostics below error severity never change the message. */
  lemma NonErrorsIgnored(diagnostics: seq<Diagnostic>, k: nat, d: Diagnostic, newline: string)
    requires k <= |diagnostics| && d.severity != Error
    ensures FailureMessage(diagnostics[..k] + [d] + diagnostics[k..], newline) == FailureMessage(diagnostics, newline)
  {
    var a, b := diagnostics[..k], diagnostics[k..];
    assert Errors([d]) == [] by {
      assert [d][1..] == [];
    }
    calc {
      Errors(a + [d] + b);
      { ErrorsAppend(a + [d], b); }
      Errors(a + [d]) + Errors(b);
      { ErrorsAppend(a, [d]); }
      Errors(a) + Errors([d]) + Errors(b);
      Errors(a) + Errors(b);
      { ErrorsAppend(a, b); }
      Errors(a + b);
      { assert a + b == diagnostics; }
      Errors(diagnostics);
    }
  }
}
