/** The shape shared by the four "best effort" validators: every field of a
    fixed list is checked in declaration order, each failing check pushes
    one message onto an error list, and a non-empty list is thrown as one
    aggregated error whose lines are the messages. */
module Validation {
  import opened Wrappers
  import opened Text

  /** What a validator does: return normally, or throw one error. */
  datatype Outcome = Valid | Invalid(message: string)

  /** The separator between the lines of an aggregated error. */
  const Bullet: string := "\n - "

  /** The error list of a validation: the message of every failing field,
      in the order the fields are listed. */
  function Errors(fields: seq<string>, check: string -> Option<string>): (errs: seq<string>)
    ensures |errs| <= |fields|
  {
    if fields == [] then []
    else
      var last := check(fields[|fields| - 1]);
      Errors(fields[..|fields| - 1], check) + (if last.Some? then [last.value] else [])
  }

  /** The error list is empty exactly when every field passes its check. */
  lemma {:induction false} ErrorsEmptyIff(fields: seq<string>, check: string -> Option<string>)
    ensures Errors(fields, check) == [] <==> forall i :: 0 <= i < |fields| ==> check(fields[i]).None?
  {
    if fields != [] {
      var init := fields[..|fields| - 1];
      ErrorsEmptyIff(init, check);
      assert forall i :: 0 <= i < |init| ==> init[i] == fields[i];
    }
  }

  /** The error list is empty exactly when every listed field satisfies
      `passes`, the condition under which its check reports nothing. */
  lemma ErrorsEmptyIffPasses(fields: seq<string>, check: string -> Option<string>, passes: string -> bool)
    requires forall f :: check(f).None? <==> passes(f)
    ensures Errors(fields, check) == [] <==> forall f :: f in fields ==> passes(f)
  {
    ErrorsEmptyIff(fields, check);
  }

  /** Checking two lists one after the other gives the two error lists in turn. */
  lemma {:induction false} ErrorsAppend(a: seq<string>, b: seq<string>, check: string -> Option<string>)
    ensures Errors(a + b, check) == Errors(a, check) + Errors(b, check)
    decreases |b|
  {
    if b == [] {
      assert a + b == a;
    } else {
      var init := b[..|b| - 1];
      ErrorsAppend(a, init, check);
      assert (a + b)[..|a + b| - 1] == a + init;
    }
  }

  /** The message of every failing field is on the error list. */
  lemma {:induction false} ErrorsContain(fields: seq<string>, check: string -> Option<string>, i: nat)
    requires i < |fields| && check(fields[i]).Some?
    ensures check(fields[i]).value in Errors(fields, check)
  {
    var init := fields[..|fields| - 1];
    if i < |fields| - 1 {
      assert init[i] == fields[i];
      ErrorsContain(init, check, i);
    }
  }

  /** Every message on the error list comes from a failing field. */
  lemma {:induction false} ErrorsFromFields(fields: seq<string>, check: string -> Option<string>, e: string)
    requires e in Errors(fields, check)
    ensures exists i :: 0 <= i < |fields| && check(fields[i]) == Some(e)
  {
    var init := fields[..|fields| - 1];
    var last := check(fields[|fields| - 1]);
    if e in Errors(init, check) {
      ErrorsFromFields(init, check, e);
      var i :| 0 <= i < |init| && check(init[i]) == Some(e);
      assert fields[i] == init[i];
    } else {
      assert last == Some(e);
    }
  }

  /** The loop of a validator: push the message of every failing field. */
  method CollectErrors(fields: seq<string>, check: string -> Option<string>) returns (errors: seq<string>)
    ensures errors == Errors(fields, check)
  {
    errors := [];
    var i := 0;
    while i < |fields|
      invariant 0 <= i <= |fields|
      invariant errors == Errors(fields[..i], check)
    {
      assert fields[..i + 1][..i] == fields[..i];
      var e := check(fields[i]);
      if e.Some? {
        errors := errors + [e.value];
      }
      i := i + 1;
    }
    assert fields[..|fields|] == fields;
  }

  /** `throw new Error(`${header}\n - ${errors.join("\n - ")}`)`. */
  function Report(header: string, errors: seq<string>): (msg: string)
    ensures StartsWith(msg, header)
  {
    header + Bullet + Join(errors, Bullet)
  }

  /** The thrown message names every error of the list. */
  lemma ReportContains(header: string, errors: seq<string>, k: nat)
    requires k < |errors|
    ensures Contains(Report(header, errors), errors[k])
  {
    var body := Join(errors, Bullet);
    JoinContainsElement(errors, Bullet, k);
    var i := IndexOf(body, errors[k]).value;
    assert OccursAt(Report(header, errors), errors[k], |header + Bullet| + i) by {
      assert Report(header, errors) == (header + Bullet) + body;
    }
    ContainsAt(Report(header, errors), errors[k], |header + Bullet| + i);
  }

  /** The end of every validator: throw when the list is not empty. */
  function Verdict(header: string, errors: seq<string>): (out: Outcome)
    ensures out.Valid? <==> errors == []
    ensures out.Invalid? ==> forall k :: 0 <= k < |errors| ==> Contains(out.message, errors[k])
  {
    if errors == [] then Valid
    else
      assert forall k :: 0 <= k < |errors| ==> Contains(Report(header, errors), errors[k]) by {
        forall k | 0 <= k < |errors| ensures Contains(Report(header, errors), errors[k]) {
          ReportContains(header, errors, k);
        }
      }
      Invalid(Report(header, errors))
  }

  // ---------------------------------------------------------------------
  // Messages shared by several validators
  // ---------------------------------------------------------------------

  /** `"${s}"` inside a message. */
  function Quoted(s: string): string { "\"" + s + "\"" }

  /** `Falta el campo "${field}".` */
  function MissingField(field: string): string {
    "Falta el campo " + Quoted(field) + "."
  }

  /** `Campo "${field}" con valor "${value}" no coincide con el formato esperado.` */
  function Mismatch(field: string, value: string): string {
    "Campo " + Quoted(field) + " con valor " + Quoted(value) + " no coincide con el formato esperado."
  }

  /** `El archivo ${fileName} presenta problemas en los datos:` */
  function DataHeader(fileName: string): string {
    "El archivo " + fileName + " presenta problemas en los datos:"
  }
}
