/** Action dispatch (`ExecuteAction` in ConsoleApp1/Program.cs): launch every
    action of the first intent whose tag is the predicted label, each launch
    in its own try/catch, and report each attempt on the console. */
module Actions {
  import opened Intents

  /** What `Process.Start(action)` did: started the process, or threw an
      exception with the given message. */
  datatype Launch = Started | LaunchFailed(message: string)

  /** One console report: "Executing action: …" or
      "Failed to execute action: …, Error: …". */
  datatype ActionOutcome = Executing(action: string) | FailedToExecute(action: string, message: string)

  /** The actions to launch for a label: those of the first intent with that
      tag, and none when no intent has it or its action list is missing. */
  function PlannedActions(tag: string, intents: Catalog): (actions: seq<string>)
    ensures (forall j :: 0 <= j < |intents| ==> intents[j].tag != tag) ==> actions == []
    ensures actions != [] ==>
      exists i :: 0 <= i < |intents| && intents[i].tag == tag && intents[i].actions == Some(actions)
                  && forall j :: 0 <= j < i ==> intents[j].tag != tag
    ensures FirstMatch(tag, intents).Some? && intents[FirstMatch(tag, intents).value].actions.Some? ==>
      actions == intents[FirstMatch(tag, intents).value].actions.value
  {
    match FirstMatch(tag, intents)
    case None => []
    case Some(i) =>
      match intents[i].actions
      case None => []
      case Some(actions) => actions
  }

  /** The report for one launch attempt. */
  function Report(action: string, launch: Launch): (o: ActionOutcome)
    ensures o.action == action
    ensures o.FailedToExecute? <==> launch.LaunchFailed?
    ensures launch.LaunchFailed? ==> o == FailedToExecute(action, launch.message)
  {
    match launch
    case Started => Executing(action)
    case LaunchFailed(message) => FailedToExecute(action, message)
  }

  /** `log` reports one attempt for each of `actions`, in order, with what the
      launcher did for it. */
  ghost predicate AllAttempted(log: seq<ActionOutcome>, actions: seq<string>, launcher: string -> Launch)
  {
    |log| == |actions| && forall k :: 0 <= k < |log| ==> log[k] == Report(actions[k], launcher(actions[k]))
  }

  /** `ExecuteAction(tag, intents)`, with `launcher` standing for
      `Process.Start`. A failed launch is reported and the loop goes on, so
      every planned action is attempted exactly once, in list order. */
  method ExecuteAction(tag: string, intents: Catalog, launcher: string -> Launch) returns (log: seq<ActionOutcome>)
    ensures AllAttempted(log, PlannedActions(tag, intents), launcher)
  {
    log := [];
    var m := FirstMatch(tag, intents);
    if m.Some? && intents[m.value].actions.Some? && |intents[m.value].actions.value| > 0 {
      var actions := intents[m.value].actions.value;
      for k := 0 to |actions|
        invariant AllAttempted(log, actions[..k], launcher)
      {
        var action := actions[k];
        var launch := launcher(action);
        match launch {
          case Started =>
            log := log + [Executing(action)];
          case LaunchFailed(message) =>
            log := log + [FailedToExecute(action, message)];
        }
      }
      assert actions[..|actions|] == actions;
    }
  }
}
