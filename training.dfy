/** The training-data builder (`PrepareData`) and the train-or-load gate of
    `Main` in ConsoleApp1/Program.cs. The classifier itself is not modelled:
    only the rows it is trained on and the decision to train. */
module Training {
  import opened Intents

  /** The rows one intent contributes: one per pattern, in pattern order,
      each labelled with the intent's tag. */
  function RowsOf(intent: Intent): (rows: seq<IntentData>)
    ensures |rows| == |intent.patterns|
    ensures forall j :: 0 <= j < |rows| ==>
      rows[j].text == intent.patterns[j] && rows[j].tag == intent.tag
  {
    seq(|intent.patterns|, j requires 0 <= j < |intent.patterns| => IntentData(intent.patterns[j], intent.tag))
  }

  /** The training set built from a catalog: intent order, then pattern order. */
  function TrainingRows(intents: Catalog): seq<IntentData>
  {
    if |intents| == 0 then []
    else TrainingRows(intents[..|intents| - 1]) + RowsOf(intents[|intents| - 1])
  }

  /** The number of patterns across all intents. */
  function TotalPatterns(intents: Catalog): nat
  {
    if |intents| == 0 then 0
    else TotalPatterns(intents[..|intents| - 1]) + |intents[|intents| - 1].patterns|
  }

  /** `PrepareData`: two nested loops append one row per (intent, pattern)
      pair to a fresh list. The catalog is a value and is left as it was. */
  method PrepareData(intents: Catalog) returns (data: seq<IntentData>)
    ensures data == TrainingRows(intents)
    ensures |data| == TotalPatterns(intents)
  {
    data := [];
    for i := 0 to |intents|
      invariant data == TrainingRows(intents[..i])
    {
      var intent := intents[i];
      for j := 0 to |intent.patterns|
        invariant data == TrainingRows(intents[..i]) + RowsOf(intent)[..j]
      {
        data := data + [IntentData(intent.patterns[j], intent.tag)];
      }
      assert intents[..i + 1][..i] == intents[..i];
    }
    assert intents[..|intents|] == intents;
    RowCount(intents);
  }

  /** There is exactly one row per pattern. */
  lemma {:induction false} RowCount(intents: Catalog)
    ensures |TrainingRows(intents)| == TotalPatterns(intents)
  {
    if |intents| > 0 {
      RowCount(intents[..|intents| - 1]);
    }
  }

  /** Counting the patterns of a prefix never exceeds counting those of a
      longer prefix. */
  lemma {:induction false} TotalPatternsGrows(intents: Catalog, i: nat, k: nat)
    requires i <= k <= |intents|
    ensures TotalPatterns(intents[..i]) <= TotalPatterns(intents[..k])
    decreases k - i
  {
    if i < k {
      TotalPatternsGrows(intents, i + 1, k);
      assert intents[..i + 1][..i] == intents[..i];
    }
  }

  /** Row order: pattern `j` of intent `i` sits right after the rows of the
      intents before it, at offset `j` among the rows of intent `i`. */
  lemma {:induction false} RowPosition(intents: Catalog, i: nat, j: nat)
    requires i < |intents| && j < |intents[i].patterns|
    ensures TotalPatterns(intents[..i]) + j < |TrainingRows(intents)|
    ensures TrainingRows(intents)[TotalPatterns(intents[..i]) + j]
         == IntentData(intents[i].patterns[j], intents[i].tag)
  {
    var n := |intents|;
    var init := intents[..n - 1];
    RowCount(init);
    if i == n - 1 {
      assert init == intents[..i];
    } else {
      assert init[..i] == intents[..i];
      assert init[..i + 1] == intents[..i + 1];
      assert intents[..i + 1][..i] == intents[..i];
      TotalPatternsGrows(init, i + 1, |init|);
      assert init[..|init|] == init;
      RowPosition(init, i, j);
    }
  }

  /** Every row is a pattern of some intent, labelled with that intent's tag. */
  lemma {:induction false} RowsComeFromIntents(intents: Catalog, r: IntentData)
    requires r in TrainingRows(intents)
    ensures exists i :: 0 <= i < |intents| && r.tag == intents[i].tag && r.text in intents[i].patterns
  {
    var n := |intents|;
    var init := intents[..n - 1];
    if r in TrainingRows(init) {
      RowsComeFromIntents(init, r);
      var i :| 0 <= i < |init| && r.tag == init[i].tag && r.text in init[i].patterns;
      assert intents[i] == init[i];
    } else {
      assert r in RowsOf(intents[n - 1]);
      var j :| 0 <= j < |RowsOf(intents[n - 1])| && RowsOf(intents[n - 1])[j] == r;
      assert r.text == intents[n - 1].patterns[j];
    }
  }

  /** A label occurs in the training set exactly when some intent with that
      tag has at least one pattern; an intent without patterns can never be
      learned, so the classifier can never predict it. */
  lemma {:induction false} LabelTrained(intents: Catalog, tag: string)
    ensures (exists r :: r in TrainingRows(intents) && r.tag == tag)
        <==> (exists i :: 0 <= i < |intents| && intents[i].tag == tag && |intents[i].patterns| > 0)
  {
    if exists r :: r in TrainingRows(intents) && r.tag == tag {
      var r :| r in TrainingRows(intents) && r.tag == tag;
      RowsComeFromIntents(intents, r);
      var i :| 0 <= i < |intents| && r.tag == intents[i].tag && r.text in intents[i].patterns;
      assert |intents[i].patterns| > 0;
    }
    if exists i :: 0 <= i < |intents| && intents[i].tag == tag && |intents[i].patterns| > 0 {
      var i :| 0 <= i < |intents| && intents[i].tag == tag && |intents[i].patterns| > 0;
      RowPosition(intents, i, 0);
      var r := TrainingRows(intents)[TotalPatterns(intents[..i])];
      assert r in TrainingRows(intents) && r.tag == tag;
    }
  }

  /** Removing an intent that has no patterns leaves the training set as it
      was: such an intent contributes no rows. */
  lemma {:induction false} EmptyPatternsContributeNothing(intents: Catalog, i: nat)
    requires i < |intents| && |intents[i].patterns| == 0
    ensures TrainingRows(intents) == TrainingRows(intents[..i] + intents[i + 1..])
  {
    var n := |intents|;
    var rest := intents[..i] + intents[i + 1..];
    if i == n - 1 {
      assert rest == intents[..n - 1];
      assert RowsOf(intents[n - 1]) == [];
    } else {
      var init := intents[..n - 1];
      EmptyPatternsContributeNothing(init, i);
      assert rest[..|rest| - 1] == init[..i] + init[i + 1..];
      assert rest[|rest| - 1] == intents[n - 1];
    }
  }

  /** How the classifier comes to exist: loaded from the model file, or
      trained on a training set and then saved. */
  datatype Classifier = Loaded | Trained(rows: seq<IntentData>)

  /** The gate of `Main`: train (on `PrepareData`'s rows) only when no model
      file exists; otherwise load the saved model and build no rows. */
  method ObtainClassifier(modelFileExists: bool, intents: Catalog) returns (c: Classifier)
    ensures c.Loaded? <==> modelFileExists
    ensures c.Trained? ==> c.rows == TrainingRows(intents) && |c.rows| == TotalPatterns(intents)
  {
    if modelFileExists {
      c := Loaded;
    } else {
      var data := PrepareData(intents);
      c := Trained(data);
    }
  }
}
