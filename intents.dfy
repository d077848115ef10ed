/** The intent catalog of the chatbot: the records `Intent`, `IntentCollection`
    and `IntentData` of ConsoleApp1/Program.cs, and the first-match lookup
    (`FirstOrDefault(i => i.Tag == tag)`) that both the responder and the
    action dispatcher use. */
module Intents {

  datatype Option<T> = None | Some(value: T)

  /** One intent of the catalog. `actions` may be missing from the catalog
      (a null list), which the dispatcher checks for explicitly. */
  datatype Intent = Intent(
    tag: string,
    patterns: seq<string>,
    responses: seq<string>,
    actions: Option<seq<string>>)

  /** An `IntentCollection`, already deserialised: its intents in file order. */
  type Catalog = seq<Intent>

  /** One training row (`Text`, `Label`): an example utterance and, as its
      label, the tag of the intent it came from. */
  datatype IntentData = IntentData(text: string, tag: string)

  /** The position of the first intent whose tag equals `tag`, or None when
      no intent carries that tag. */
  function FirstMatch(tag: string, intents: Catalog): (r: Option<nat>)
    ensures r.Some? ==> r.value < |intents| && intents[r.value].tag == tag
    ensures r.Some? ==> forall j :: 0 <= j < r.value ==> intents[j].tag != tag
    ensures r.None? <==> forall j :: 0 <= j < |intents| ==> intents[j].tag != tag
  {
    if |intents| == 0 then None
    else if intents[0].tag == tag then Some(0)
    else
      match FirstMatch(tag, intents[1..])
      case None => None
      case Some(i) => Some(i + 1)
  }

  /** Appending intents behind a catalog that already holds the tag does not
      change which intent is found: later duplicates are shadowed. */
  lemma {:induction false} FirstMatchIgnoresLater(tag: string, intents: Catalog, later: Catalog)
    requires FirstMatch(tag, intents).Some?
    ensures FirstMatch(tag, intents + later) == FirstMatch(tag, intents)
  {
    if intents[0].tag != tag {
      assert (intents + later)[1..] == intents[1..] + later;
      FirstMatchIgnoresLater(tag, intents[1..], later);
    }
  }
}
