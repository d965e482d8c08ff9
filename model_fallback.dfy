/** `tryModels`, which the translation and infographic routes each define
    (src/app/api/translate/route.ts:19-38,
    src/app/api/infographic/route.ts:17-36): the model names are tried in
    order until one call succeeds; when none does, a single error lists
    every failure in order. A call is an oracle from a model name to its
    outcome; a failure carries the text the error prints as. */
module ModelFallback {
  import opened Wrappers
  import opened JsStrings
  import opened KeyedList

  /** The fallback order both routes use. */
  const MODELS: seq<string> := ["glm-5", "glm-4.7", "glm-4.7-Flash"]

  const ALL_FAILED: string := "All models failed:"

  /** The call with a model name succeeds. */
  function Succeeds<T>(call: string -> Outcome<T>): string -> bool {
    m => call(m).Ok?
  }

  /** `- ${model}: ${error}`. */
  function FailureLine(model: string, error: string): string {
    "- " + model + ": " + error
  }

  /** Every call failed. */
  predicate AllFail<T>(models: seq<string>, call: string -> Outcome<T>) {
    forall i :: 0 <= i < |models| ==> call(models[i]).Fail?
  }

  /** The failure lines of `models`, in order. */
  function FailureLines<T>(models: seq<string>, call: string -> Outcome<T>): (lines: seq<string>)
    requires AllFail(models, call)
    ensures |lines| == |models|
  {
    if models == [] then []
    else FailureLines(models[..|models| - 1], call) + [FailureLine(models[|models| - 1], call(models[|models| - 1]).error)]
  }

  /** The line of the `i`-th model is its own failure. */
  lemma {:induction false} FailureLineAt<T>(models: seq<string>, call: string -> Outcome<T>, i: nat)
    requires AllFail(models, call) && i < |models|
    ensures FailureLines(models, call)[i] == FailureLine(models[i], call(models[i]).error)
    decreases |models|
  {
    if i < |models| - 1 {
      var init := models[..|models| - 1];
      assert init[i] == models[i];
      FailureLineAt(init, call, i);
    }
  }

  /** The message of the aggregated error. */
  function AllFailedMessage<T>(models: seq<string>, call: string -> Outcome<T>): string
    requires AllFail(models, call)
  {
    ALL_FAILED + "\n" + Join(FailureLines(models, call), '\n')
  }

  /** What `tryModels` settles on: the first success, else the aggregated
      failure. */
  function FallbackResult<T>(models: seq<string>, call: string -> Outcome<T>): Outcome<T> {
    var k := FindIndex(models, Succeeds(call));
    if k >= 0 then call(models[k]) else Fail(AllFailedMessage(models, call))
  }

  /** How many models `tryModels` calls: up to and including the first that
      succeeds, else all of them. */
  function FallbackAttempts<T>(models: seq<string>, call: string -> Outcome<T>): nat {
    var k := FindIndex(models, Succeeds(call));
    if k >= 0 then k + 1 else |models|
  }

  /** `tryModels`: the loop over the candidates, with the failures it has
      collected so far. */
  method TryModels<T>(models: seq<string>, call: string -> Outcome<T>) returns (r: Outcome<T>, attempts: nat)
    ensures r == FallbackResult(models, call) && attempts == FallbackAttempts(models, call)
    ensures r.Ok? ==> r == call(models[attempts - 1]) && forall j :: 0 <= j < attempts - 1 ==> call(models[j]).Fail?
    ensures r.Fail? ==> attempts == |models| && AllFail(models, call)
  {
    var errors: seq<string> := [];
    var i := 0;
    while i < |models|
      invariant 0 <= i <= |models|
      invariant AllFail(models[..i], call)
      invariant errors == FailureLines(models[..i], call)
    {
      var outcome := call(models[i]);
      if outcome.Ok? {
        assert forall j :: 0 <= j < i ==> models[..i][j] == models[j];
        FindIndexIsFirst(models, Succeeds(call), i);
        return outcome, i + 1;
      }
      assert models[..i + 1][..i] == models[..i];
      errors := errors + [FailureLine(models[i], outcome.error)];
      i := i + 1;
    }
    assert models[..i] == models;
    r := Fail(ALL_FAILED + "\n" + Join(errors, '\n'));
    attempts := |models|;
  }

  /** Joining a list with more than one part puts the separator after the
      first. */
  lemma JoinCons(first: string, rest: seq<string>, sep: char)
    requires rest != []
    ensures Join([first] + rest, sep) == first + [sep] + Join(rest, sep)
  {
    assert ([first] + rest)[1..] == rest;
  }

  /** A failure line is one line long when the name and the error are. */
  lemma FailureLineOneLine(model: string, error: string)
    requires '\n' !in model && '\n' !in error
    ensures '\n' !in FailureLine(model, error)
  {
    var dash, colon := "- ", ": ";
    assert dash[0] != '\n' && dash[1] != '\n' && colon[0] != '\n' && colon[1] != '\n';
    assert '\n' !in dash && '\n' !in colon;
  }

  /** Each failure line is the model's own, and one line long when the
      name and the error are. */
  lemma FailureLinesAt<T>(models: seq<string>, call: string -> Outcome<T>)
    requires AllFail(models, call)
    requires forall i :: 0 <= i < |models| ==> '\n' !in models[i] && '\n' !in call(models[i]).error
    ensures forall i :: 0 <= i < |models| ==>
      FailureLines(models, call)[i] == FailureLine(models[i], call(models[i]).error) &&
      '\n' !in FailureLines(models, call)[i]
  {
    forall i | 0 <= i < |models|
      ensures FailureLines(models, call)[i] == FailureLine(models[i], call(models[i]).error)
      ensures '\n' !in FailureLines(models, call)[i]
    {
      FailureLineAt(models, call, i);
      FailureLineOneLine(models[i], call(models[i]).error);
    }
  }

  /** A header line above lines joined by line feeds splits back into the
      header followed by those lines. */
  lemma HeaderThenLines(header: string, lines: seq<string>)
    requires lines != [] && '\n' !in header
    requires forall i :: 0 <= i < |lines| ==> '\n' !in lines[i]
    ensures Split(header + "\n" + Join(lines, '\n'), '\n') == [header] + lines
  {
    var parts := [header] + lines;
    assert forall i :: 1 <= i < |parts| ==> parts[i] == lines[i - 1];
    JoinCons(header, lines, '\n');
    SplitJoin(parts, '\n');
  }

  /** The header is one line. */
  lemma HeaderIsOneLine()
    ensures '\n' !in ALL_FAILED
  {
  }

  /** When every model fails, the error's lines are the header followed by
      one line per model, in the order they were tried (when names and
      errors are single lines); `FailureLineAt` says what each says. */
  lemma AllFailedMessageLines<T>(models: seq<string>, call: string -> Outcome<T>)
    requires models != [] && AllFail(models, call)
    requires forall i :: 0 <= i < |models| ==> '\n' !in models[i] && '\n' !in call(models[i]).error
    ensures Split(AllFailedMessage(models, call), '\n') == [ALL_FAILED] + FailureLines(models, call)
  {
    var failures := FailureLines(models, call);
    FailureLinesAt(models, call);
    HeaderIsOneLine();
    HeaderThenLines(ALL_FAILED, failures);
  }
}
