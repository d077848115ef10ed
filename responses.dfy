/** Response selection (`GenerateResponse` in ConsoleApp1/Program.cs): find
    the first intent whose tag is the predicted label and answer with one of
    its responses, picked by `Random.Next`, or with a fixed fallback. */
module Responses {
  import opened Intents

  /** The answer when no intent carries the predicted label. */
  const Fallback: string := "Sorry, I don't understand."

  /** The exception `Responses[index]` throws when the matched intent has no
      responses (`Random.Next(0)` returns 0, which is out of range). */
  datatype Fault = ArgumentOutOfRange

  datatype Result<T> = Ok(value: T) | Err(fault: Fault)

  /** What `Random.Next(maxValue)` promises: a value in `[0, maxValue)`,
      and `maxValue` itself when `maxValue` is 0. */
  ghost predicate IsRandomNext(next: nat -> nat)
  {
    forall n: nat :: if n == 0 then next(n) == 0 else next(n) < n
  }

  /** `GenerateResponse(tag, intents)`, where `next` stands for the fresh
      `Random` instance the call creates. */
  function GenerateResponse(tag: string, intents: Catalog, next: nat -> nat): (r: Result<string>)
    requires IsRandomNext(next)
    ensures (forall j :: 0 <= j < |intents| ==> intents[j].tag != tag) ==> r == Ok(Fallback)
    ensures FirstMatch(tag, intents).Some? ==>
      var responses := intents[FirstMatch(tag, intents).value].responses;
      (r.Ok? <==> |responses| > 0) && (r.Ok? ==> r.value in responses)
  {
    match FirstMatch(tag, intents)
    case None => Ok(Fallback)
    case Some(i) =>
      var responses := intents[i].responses;
      var index := next(|responses|);
      if index < |responses| then Ok(responses[index]) else Err(ArgumentOutOfRange)
  }

  /** The call fails exactly when the first intent with the label has no
      responses; an intent with the label further down never rescues it.
      A corollary: it restates the fault condition of `GenerateResponse`'s
      contract directly over the catalog, without `FirstMatch`. */
  lemma FaultIffNoResponses(tag: string, intents: Catalog, next: nat -> nat)
    requires IsRandomNext(next)
    ensures GenerateResponse(tag, intents, next).Err?
        <==> exists i :: 0 <= i < |intents| && intents[i].tag == tag && |intents[i].responses| == 0
                         && forall j :: 0 <= j < i ==> intents[j].tag != tag
  {
  }

  /** Intents behind the first one with the label are ignored, even when
      they carry the same label. */
  lemma LaterIntentsIgnored(tag: string, intents: Catalog, later: Catalog, next: nat -> nat)
    requires IsRandomNext(next)
    requires exists i :: 0 <= i < |intents| && intents[i].tag == tag
    ensures GenerateResponse(tag, intents + later, next) == GenerateResponse(tag, intents, next)
  {
    FirstMatchIgnoresLater(tag, intents, later);
  }

  /** Only the choice is random, and every response of the first matching
      intent can be chosen: some outcome of `Random.Next` yields it. */
  lemma EveryResponseReachable(tag: string, intents: Catalog, k: nat)
    requires FirstMatch(tag, intents).Some?
    requires k < |intents[FirstMatch(tag, intents).value].responses|
    ensures exists next :: (IsRandomNext(next)
      && GenerateResponse(tag, intents, next) == Ok(intents[FirstMatch(tag, intents).value].responses[k]))
  {
    var count := |intents[FirstMatch(tag, intents).value].responses|;
    var next: nat -> nat := n => if n == count then k else 0;
    assert IsRandomNext(next);
    assert GenerateResponse(tag, intents, next) == Ok(intents[FirstMatch(tag, intents).value].responses[k]);
  }
}
