# LAMBot-AI chatbot core, modelled in Dafny

LAMBot-AI is a console chatbot. It loads a catalog of intents (a tag, example
patterns, canned responses, optional actions), trains or loads a text
classifier, and then loops: read a line, stop on "exit", otherwise predict
the intent's tag, print one of its responses and launch its actions.

This project models the hand-written logic of `ConsoleApp1/Program.cs` around
the machine-learning calls:

- `intents.dfy` (module `Intents`): the `Intent`, `IntentCollection` and
  `IntentData` records as values, and the first-match lookup
  `FirstOrDefault(i => i.Tag == tag)` shared by the responder and the dispatcher.
- `training.dfy` (module `Training`): `PrepareData`, the nested loops that build
  one `(Text, Label)` row per (intent, pattern) pair, its specification
  `TrainingRows`, and the train-only-when-no-model-file gate of `Main`.
- `responses.dfy` (module `Responses`): `GenerateResponse`, with `Random.Next`
  as a parameter constrained by its documented contract.
- `actions.dfy` (module `Actions`): `ExecuteAction`, with `Process.Start` as a
  launcher parameter that either starts the command or fails with a message.
- `session.dfy` (module `Session`): the exit test and the `while (true)` loop
  of `Main`, with the classifier, the random sources and the launchers as an
  abstract environment.

The catalog is never changed after loading, so it is a value (`seq<Intent>`)
and no class is needed. `PrepareData`, `ExecuteAction` and the main loop are
methods with loops, each proved against a specification function or
predicate.

On these edge cases the code does something a reader might not expect, and the model follows the code:

- When the first intent with the predicted tag has no responses, the code does
  not fall back to the default answer. `Random.Next(0)` returns 0, and
  `Responses[0]` throws `ArgumentOutOfRangeException`, which nothing catches.
  The model returns `Err(ArgumentOutOfRange)`, and the loop ends with
  `ResponseFailed`.
- The code does not check that the training set is non-empty or has at least
  two labels before training. The model has no such check either. It proves
  which labels reach the training set (`Training.LabelTrained`).
- Closing standard input makes `Console.ReadLine` return null, and `ToLower`
  then throws. The model's loop ends with `InputClosed` in that case.

## Model

| member | source | states |
|---|---|---|
| `Intents.FirstMatch` | ConsoleApp1/Program.cs:122 | The index found carries the tag and no earlier intent does. None is returned exactly when no intent carries the tag. |
| `Intents.FirstMatchIgnoresLater` | ConsoleApp1/Program.cs:134 | Appending intents after a catalog that already holds the tag does not change the match, even if the new intents repeat the tag. |
| `Training.RowsOf` | ConsoleApp1/Program.cs:106-109 | An intent contributes one row per pattern, in pattern order. Each row's text is the pattern and its label is the intent's tag. |
| `Training.PrepareData` | ConsoleApp1/Program.cs:101-112 | The nested loops return exactly `TrainingRows(intents)`, and the number of rows equals the total number of patterns. |
| `Training.RowCount` | ConsoleApp1/Program.cs:103-111 | The training set has exactly one row per pattern across all intents. |
| `Training.RowPosition` | ConsoleApp1/Program.cs:104-108 | Rows come in intent order, then pattern order. Pattern `j` of intent `i` is the row at offset `j` after the rows of intents `0..i-1`. |
| `Training.RowsComeFromIntents` | ConsoleApp1/Program.cs:104-108 | Every row's text is a pattern of some intent, and its label is that same intent's tag. |
| `Training.LabelTrained` | ConsoleApp1/Program.cs:101-112 | A label appears in the training set if and only if some intent with that tag has at least one pattern. |
| `Training.EmptyPatternsContributeNothing` | ConsoleApp1/Program.cs:106-109 | Removing an intent that has no patterns leaves the training set unchanged. |
| `Training.ObtainClassifier` | ConsoleApp1/Program.cs:50-73 | The model is loaded if and only if the model file exists. Otherwise it is trained on exactly `PrepareData`'s rows, one per pattern. |
| `Responses.GenerateResponse` | ConsoleApp1/Program.cs:120-130 | An unknown tag yields exactly "Sorry, I don't understand.". For a known tag, the call succeeds if and only if the first matching intent has responses, and the reply is one of that intent's responses. |
| `Responses.FaultIffNoResponses` | ConsoleApp1/Program.cs:122-127 | The call throws if and only if the first intent with the tag has no responses. A later intent with the same tag does not prevent this. |
| `Responses.LaterIntentsIgnored` | ConsoleApp1/Program.cs:122-127 | Once an intent carries the tag, intents after it never change the reply. |
| `Responses.EveryResponseReachable` | ConsoleApp1/Program.cs:125-127 | Every response of the first matching intent is returned by some outcome of `Random.Next`. Only the choice is random, not the set of candidates. |
| `Actions.PlannedActions` | ConsoleApp1/Program.cs:134-137 | An unknown tag plans no actions. When the first intent with the tag has an action list, the plan is exactly that list. Any non-empty plan is the action list of the first intent with the tag. |
| `Actions.Report` | ConsoleApp1/Program.cs:139-147 | Each report names its action. It is a failure report if and only if the launch threw, and a failure report carries the exception's message. |
| `Actions.ExecuteAction` | ConsoleApp1/Program.cs:132-150 | Every planned action is attempted once, in list order, with one report each. A failed launch does not stop the later ones. |
| `Session.LowerChar` | ConsoleApp1/Program.cs:81 | ASCII upper-case letters map to their lower-case letter. Every other character is unchanged. |
| `Session.ToLowerAscii` | ConsoleApp1/Program.cs:81 | Lower-casing keeps the length and leaves no ASCII upper-case letter. A character changes only if it was an upper-case letter, and each character becomes its `LowerChar` image, so an upper-case letter becomes its own lower-case letter. |
| `Session.IsExit` | ConsoleApp1/Program.cs:81 | An exit line has four characters, and a line already in lower case is an exit line if and only if it is "exit". |
| `Session.ExitSpellings` | ConsoleApp1/Program.cs:81 | A line ends the session if and only if it is "exit" in any mixture of ASCII letter case. Restates `IsExit` without lower-casing, as a direct characterisation. |
| `Session.FirstExit` | ConsoleApp1/Program.cs:77-82 | The index of the first exit line, or the number of lines when there is none. No earlier line is an exit line. |
| `Session.Converse` | ConsoleApp1/Program.cs:77-89 | Lines are handled in order, each with one predict, respond and act step. No line at or after the first "exit" is handled. The session ends normally if and only if an exit line is reached. It ends with `InputClosed` if and only if every line was handled, and with `ResponseFailed` if and only if it stops before the first exit line, which happens only when the response for the next line throws. |

## Left out

- The ML.NET pipeline (`MapValueToKey`, `FeaturizeText`, `SdcaMaximumEntropy`, `Fit`, `CreatePredictionEngine`, `Predict`): this is floating-point training inside an external library. Prediction is an uninterpreted function from text to label (`Environment.predict`).
- Loading and saving the model file, and the file-existence check: this is file I/O in an opaque format. Only the train-or-load decision is modelled, over a boolean.
- Creating the directories and `LoadIntents` (`StreamReader` and `JsonConvert`): this is I/O and a foreign deserialiser. The catalog is an already-parsed value.
- Null lists in the catalog: the model types `Intents`, `Patterns` and `Responses` as non-null sequences and has no null intent entries. Only `Actions`, which the source checks for null, is optional. In the source a null is harmful only on the path that reads it:
  - A missing `Intents` list throws `NullReferenceException` in `PrepareData` (ConsoleApp1/Program.cs:104) when there is no model file. When the model file exists, it throws `ArgumentNullException` from `FirstOrDefault` at the first lookup (ConsoleApp1/Program.cs:122).
  - A missing `Patterns` list throws only on the training path (ConsoleApp1/Program.cs:106).
  - A missing `Responses` list throws only when its intent is the first match for a predicted tag (ConsoleApp1/Program.cs:126).
  - A null intent entry throws only when `PrepareData` runs, or when a lookup (ConsoleApp1/Program.cs:122 or 134) reaches it before a match.
  - On paths that never read a missing list, the source behaves like the model with an empty sequence.
- `Random`: each call of `GenerateResponse` is given the function `next` that its fresh `Random` instance computes. The model assumes only the documented contract of `Random.Next`, not its distribution.
- `Process.Start`: each turn is given a launcher that maps a command to success or to a failure message. Two launches of the same command in one turn therefore get the same result.
- Console output is modelled as the returned reply text and the action reports. The prompts and banners are not modelled.
- Session.LowerChar: lower-cases ASCII letters only. The culture-specific behaviour of `String.ToLower` is not modelled. For example, under a Turkish culture "EXIT" does not lower-case to "exit". Also, a non-ASCII capital whose lower case is ASCII under some cultures (such as U+0130, 'İ', lowered to 'i') is left unchanged by the model, so the model does not treat "EXİT" as an exit line.
