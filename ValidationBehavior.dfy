/** The validation stage that wraps every command: it runs the command's
    validators, groups their failures by property name, and either lets the
    handler run or answers with a single validation error without running
    it. */
module ValidationBehavior {

  /** One failure reported by a validator. */
  datatype ValidationFailure = ValidationFailure(propertyName: string, errorMessage: string)

  const ValidationErrorMessage: string := "The request could not be processed due to validation errors."

  /** The error returned in place of the handler's result: every failing
      property with all of its messages. */
  datatype ValidationError = ValidationError(message: string, errors: map<string, seq<string>>)

  /** What the stage decides for one request. */
  datatype Decision = Proceed | Reject(error: ValidationError)

  /** The response of a command sent through the stage: the handler's own
      result, or the validation error when the handler was not run. */
  datatype Response<T> = Handled(result: T) | Rejected(error: ValidationError)

  /** The messages reported for `property`, in the order reported. */
  function MessagesFor(failures: seq<ValidationFailure>, property: string): seq<string>
  {
    if failures == [] then []
    else
      var last := failures[|failures| - 1];
      MessagesFor(failures[..|failures| - 1], property)
        + (if last.propertyName == property then [last.errorMessage] else [])
  }

  /** `property` is the property name of some failure. */
  predicate Reported(failures: seq<ValidationFailure>, property: string)
  {
    exists i :: 0 <= i < |failures| && failures[i].propertyName == property
  }

  /** A property that was never reported has no messages. */
  lemma {:induction false} MessagesForUnreported(failures: seq<ValidationFailure>, property: string)
    requires !Reported(failures, property)
    ensures MessagesFor(failures, property) == []
  {
    if failures != [] {
      var init := failures[..|failures| - 1];
      forall i | 0 <= i < |init| ensures init[i].propertyName != property {
        assert init[i] == failures[i];
      }
      MessagesForUnreported(init, property);
    }
  }

  /** The failures grouped by property name: exactly the reported properties
      are keys, and each maps to all of its messages in order. */
  function GroupByProperty(failures: seq<ValidationFailure>): (g: map<string, seq<string>>)
    ensures forall p :: p in g <==> Reported(failures, p)
    ensures forall p :: p in g ==> g[p] == MessagesFor(failures, p) && g[p] != []
  {
    if failures == [] then map[]
    else
      var init := failures[..|failures| - 1];
      var last := failures[|failures| - 1];
      var g := GroupByProperty(init);
      var previous := if last.propertyName in g then g[last.propertyName] else [];
      assert last.propertyName !in g ==> MessagesFor(init, last.propertyName) == [] by {
        if last.propertyName !in g {
          MessagesForUnreported(init, last.propertyName);
        }
      }
      assert forall p :: Reported(failures, p) <==> Reported(init, p) || p == last.propertyName by {
        forall p | Reported(failures, p) && p != last.propertyName ensures Reported(init, p) {
          var i :| 0 <= i < |failures| && failures[i].propertyName == p;
          assert init[i] == failures[i];
        }
        forall p | Reported(init, p) ensures Reported(failures, p) {
          var i :| 0 <= i < |init| && init[i].propertyName == p;
          assert failures[i] == init[i];
        }
      }
      g[last.propertyName := previous + [last.errorMessage]]
  }

  /** The failures of all validators, in validator order. */
  function Flatten(results: seq<seq<ValidationFailure>>): seq<ValidationFailure>
  {
    if results == [] then [] else Flatten(results[..|results| - 1]) + results[|results| - 1]
  }

  /** The results of the validators that reported at least one failure. */
  function WithErrors(results: seq<seq<ValidationFailure>>): seq<seq<ValidationFailure>>
  {
    if results == [] then []
    else
      WithErrors(results[..|results| - 1])
        + (if results[|results| - 1] != [] then [results[|results| - 1]] else [])
  }

  /** Validators that report no failure contribute nothing. */
  lemma {:induction false} WithErrorsKeepsFailures(results: seq<seq<ValidationFailure>>)
    ensures Flatten(WithErrors(results)) == Flatten(results)
  {
    if results != [] {
      var init := results[..|results| - 1];
      var last := results[|results| - 1];
      WithErrorsKeepsFailures(init);
      FlattenAppend(WithErrors(init), if last != [] then [last] else []);
    }
  }

  lemma {:induction false} FlattenAppend(a: seq<seq<ValidationFailure>>, b: seq<seq<ValidationFailure>>)
    requires |b| <= 1
    ensures Flatten(a + b) == Flatten(a) + (if b == [] then [] else b[0])
  {
    if b == [] {
      assert a + b == a;
    } else {
      assert (a + b)[..|a + b| - 1] == a;
    }
  }

  /** There are no failures exactly when every validator reported none. */
  lemma {:induction false} FlattenEmpty(results: seq<seq<ValidationFailure>>)
    ensures Flatten(results) == [] <==> forall i :: 0 <= i < |results| ==> results[i] == []
  {
    if results != [] {
      var init := results[..|results| - 1];
      FlattenEmpty(init);
      assert Flatten(results) == Flatten(init) + results[|results| - 1];
      assert forall i :: 0 <= i < |init| ==> init[i] == results[i];
    }
  }

  /** Every validator applied to the request. */
  function RunValidators<R>(validators: seq<R -> seq<ValidationFailure>>, request: R): seq<seq<ValidationFailure>>
  {
    seq(|validators|, i requires 0 <= i < |validators| => validators[i](request))
  }

  /** The grouped failures of all validators; empty when there are none. */
  function Validate<R>(validators: seq<R -> seq<ValidationFailure>>, request: R): (g: map<string, seq<string>>)
    ensures var failures := Flatten(RunValidators(validators, request));
            (forall p :: p in g <==> Reported(failures, p))
            && (forall p :: p in g ==> g[p] == MessagesFor(failures, p))
  {
    var results := RunValidators(validators, request);
    if |results| == 0 then map[]
    else
      WithErrorsKeepsFailures(results);
      GroupByProperty(Flatten(WithErrors(results)))
  }

  /** The stage's decision: the handler runs when there are no validators or
      no failures; otherwise the single validation error is returned. */
  function Gate<R>(validators: seq<R -> seq<ValidationFailure>>, request: R): (d: Decision)
    ensures d.Proceed? <==> forall i :: 0 <= i < |validators| ==> validators[i](request) == []
    ensures d.Reject? ==> d.error.message == ValidationErrorMessage
    ensures d.Reject? ==> d.error.errors == Validate(validators, request) && d.error.errors != map[]
  {
    if |validators| == 0 then Proceed
    else
      var failures := Validate(validators, request);
      var results := RunValidators(validators, request);
      assert |results| == |validators|;
      assert forall i :: 0 <= i < |results| ==> results[i] == validators[i](request);
      FlattenEmpty(results);
      assert Flatten(results) != [] ==> Reported(Flatten(results), Flatten(results)[0].propertyName);
      if |failures.Keys| == 0 then Proceed
      else Reject(ValidationError(ValidationErrorMessage, failures))
  }

  /** With a single validator the failures are exactly that validator's. */
  lemma SingleValidator<R>(validator: R -> seq<ValidationFailure>, request: R)
    ensures Flatten(RunValidators([validator], request)) == validator(request)
  {
    var rs := RunValidators([validator], request);
    assert rs == [validator(request)];
    assert rs[..0] == [];
  }

  /** With a single validator the stage lets the request through exactly when
      the validator reports nothing, and otherwise rejects it with that
      validator's failures grouped by property. */
  lemma SingleValidatorGate<R>(validator: R -> seq<ValidationFailure>, request: R)
    ensures Gate([validator], request)
            == if validator(request) == [] then Proceed
               else Reject(ValidationError(ValidationErrorMessage, GroupByProperty(validator(request))))
  {
    SingleValidator(validator, request);
    var v := Validate([validator], request);
    var g := GroupByProperty(validator(request));
    assert forall p :: p in v <==> p in g;
    assert forall p :: p in v ==> v[p] == g[p];
    assert v == g;
  }
}
