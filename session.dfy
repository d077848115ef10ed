/** The interactive loop of `Main` in ConsoleApp1/Program.cs: read a line,
    stop at "exit" in any letter case, otherwise predict a label, answer and
    run the label's actions. The classifier, the random source and the
    process launcher are parameters. */
module Session {
  import opened Intents
  import opened Responses
  import opened Actions

  /** `Char.ToLower` restricted to ASCII: upper-case letters map to lower case. */
  function LowerChar(c: char): (d: char)
    ensures 'A' <= c <= 'Z' ==> 'a' <= d <= 'z' && d as int - c as int == 'a' as int - 'A' as int
    ensures !('A' <= c <= 'Z') ==> d == c
  {
    if 'A' <= c <= 'Z' then (c as int - 'A' as int + 'a' as int) as char else c
  }

  /** `String.ToLower` over ASCII, character by character. The last
      ensures is the definition; the first three are its corollaries (no
      upper-case letter is left, and only upper-case letters change). */
  function ToLowerAscii(s: string): (r: string)
    ensures |r| == |s|
    ensures forall k :: 0 <= k < |r| ==> !('A' <= r[k] <= 'Z')
    ensures forall k :: 0 <= k < |r| ==> r[k] == s[k] || 'A' <= s[k] <= 'Z'
    ensures forall k :: 0 <= k < |s| ==> r[k] == LowerChar(s[k])
  {
    seq(|s|, k requires 0 <= k < |s| => LowerChar(s[k]))
  }

  /** The exit test of the loop: `userInput.ToLower() == "exit"`. Its
      ensures are two narrow corollaries; `ExitSpellings` characterises it
      in full. */
  predicate IsExit(input: string)
    ensures IsExit(input) ==> |input| == 4
    ensures ToLowerAscii(input) == input ==> (IsExit(input) <==> input == "exit")
  {
    ToLowerAscii(input) == "exit"
  }

  /** "exit" in any mixture of cases, and nothing else, ends the session. */
  lemma ExitSpellings(input: string)
    ensures IsExit(input) <==>
      |input| == 4 && input[0] in "eE" && input[1] in "xX" && input[2] in "iI" && input[3] in "tT"
  {
  }

  /** The position of the first input that ends the session, or the number of
      inputs when none does. */
  function FirstExit(inputs: seq<string>): (n: nat)
    ensures n <= |inputs|
    ensures forall k :: 0 <= k < n ==> !IsExit(inputs[k])
    ensures n < |inputs| ==> IsExit(inputs[n])
  {
    if |inputs| == 0 then 0
    else if IsExit(inputs[0]) then 0
    else 1 + FirstExit(inputs[1..])
  }

  /** The abstract environment of a session. `predict` is the trained
      classifier; for the turn numbered `k`, `randomAt(k)` is the `Random`
      that `GenerateResponse` creates and `launchAt(k)` is what
      `Process.Start` does for each command. */
  datatype Environment = Environment(
    predict: string -> string,
    randomAt: nat -> (nat -> nat),
    launchAt: nat -> (string -> Launch))

  ghost predicate ValidEnvironment(env: Environment)
  {
    forall k: nat :: IsRandomNext(env.randomAt(k))
  }

  /** One handled input: the predicted label, the bot's answer and the action
      reports. */
  datatype Turn = Turn(input: string, predicted: string, reply: string, log: seq<ActionOutcome>)

  /** How the loop ends: the user typed "exit"; standard input closed, so
      `Console.ReadLine` returned null and `ToLower` threw; or
      `GenerateResponse` threw. Only the first is a normal exit. */
  datatype Ending = ExitTyped | InputClosed | ResponseFailed(fault: Fault)

  /** `t` handled input `k` with one predict, respond, act step. */
  ghost predicate Handles(t: Turn, k: nat, intents: Catalog, inputs: seq<string>, env: Environment)
    requires ValidEnvironment(env)
    requires k < |inputs|
  {
    && t.input == inputs[k]
    && t.predicted == env.predict(inputs[k])
    && GenerateResponse(t.predicted, intents, env.randomAt(k)) == Ok(t.reply)
    && AllAttempted(t.log, PlannedActions(t.predicted, intents), env.launchAt(k))
  }

  /** The `while (true)` loop of `Main` over the lines `inputs`. */
  method Converse(intents: Catalog, inputs: seq<string>, env: Environment) returns (turns: seq<Turn>, ending: Ending)
    requires ValidEnvironment(env)
    ensures |turns| <= FirstExit(inputs)
    ensures forall k :: 0 <= k < |turns| ==> Handles(turns[k], k, intents, inputs, env)
    ensures ending == ExitTyped <==> |turns| == FirstExit(inputs) < |inputs|
    ensures ending == InputClosed <==> |turns| == |inputs|
    ensures ending.ResponseFailed? <==> |turns| < FirstExit(inputs)
    ensures ending.ResponseFailed? ==>
      GenerateResponse(env.predict(inputs[|turns|]), intents, env.randomAt(|turns|)) == Err(ending.fault)
  {
    turns := [];
    var k := 0;
    while true
      invariant k == |turns| <= FirstExit(inputs)
      invariant forall j :: 0 <= j < k ==> Handles(turns[j], j, intents, inputs, env)
      decreases |inputs| - k
    {
      if k == |inputs| {
        ending := InputClosed;
        break;
      }
      var input := inputs[k];
      if IsExit(input) {
        ending := ExitTyped;
        break;
      }
      var predicted := env.predict(input);
      var response := GenerateResponse(predicted, intents, env.randomAt(k));
      if response.Err? {
        ending := ResponseFailed(response.fault);
        break;
      }
      var log := ExecuteAction(predicted, intents, env.launchAt(k));
      turns := turns + [Turn(input, predicted, response.value, log)];
      k := k + 1;
    }
  }
}
