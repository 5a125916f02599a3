/** Epsilon-greedy action selection with a legality mask
    (ai/ai_trainer.py, `DQN.get_action`).

    The estimator's output for the current state is passed in as the vector
    `predictions`; the two random draws are passed in as `coin` (uniform in
    [0, 1)) and `pick` (an arbitrary natural that selects among the legal
    indices). */
module Policy {
  import opened Results

  /** The smallest value of a non-empty vector. */
  function Min(v: seq<real>): (m: real)
    requires |v| > 0
    ensures forall i :: 0 <= i < |v| ==> m <= v[i]
    ensures exists i :: 0 <= i < |v| && m == v[i]
  {
    if |v| == 1 then v[0]
    else
      var rest := Min(v[1..]);
      if v[0] <= rest then v[0] else rest
  }

  /** The first index of a largest value of a non-empty vector. */
  function ArgMax(v: seq<real>): (k: nat)
    requires |v| > 0
    ensures k < |v|
    ensures forall j :: 0 <= j < |v| ==> v[j] <= v[k]
    ensures forall j :: 0 <= j < k ==> v[j] < v[k]
  {
    if |v| == 1 then 0
    else
      var k := ArgMax(v[..|v| - 1]);
      if v[|v| - 1] > v[k] then |v| - 1 else k
  }

  /** The indices of `mask` from `from` on whose entry is true, ascending. */
  function TrueIndicesFrom(mask: seq<bool>, from: nat): (r: seq<nat>)
    requires from <= |mask|
    ensures forall i :: i in r <==> from <= i < |mask| && mask[i]
    ensures forall j, k :: 0 <= j < k < |r| ==> r[j] < r[k]
    decreases |mask| - from
  {
    if from == |mask| then []
    else
      var rest := TrueIndicesFrom(mask, from + 1);
      if mask[from] then
        assert forall k :: 0 <= k < |rest| ==> from < rest[k] by {
          forall k | 0 <= k < |rest| ensures from < rest[k] {
            assert rest[k] in rest;
          }
        }
        [from] + rest
      else rest
  }

  /** The legal indices of a mask, ascending. */
  function ValidIndices(mask: seq<bool>): (r: seq<nat>)
    ensures forall i :: i in r <==> 0 <= i < |mask| && mask[i]
    ensures forall j, k :: 0 <= j < k < |r| ==> r[j] < r[k]
  {
    TrueIndicesFrom(mask, 0)
  }

  /** The estimator's values with every illegal entry replaced by `fill`: each
      value is multiplied by its mask bit, and `fill` by the negated bit, and
      the two are added. */
  function Adjusted(predictions: seq<real>, mask: seq<bool>, fill: real): (v: seq<real>)
    requires |mask| == |predictions|
    ensures |v| == |predictions|
    ensures forall i :: 0 <= i < |v| ==> v[i] == if mask[i] then predictions[i] else fill
  {
    seq(|predictions|, i requires 0 <= i < |predictions| =>
      (if mask[i] then 1.0 else 0.0) * predictions[i] + (if mask[i] then 0.0 else 1.0) * fill)
  }

  predicate SomeLegal(mask: seq<bool>)
  {
    exists i :: 0 <= i < |mask| && mask[i]
  }

  /** Chooses an action index. With a coin below epsilon, one of the legal
      indices is picked at random; otherwise illegal entries are pushed one
      below the smallest value and the first index of the largest adjusted
      value is taken. A random pick among no legal index fails; so does a
      greedy choice over an empty vector or a mask of another length. */
  function GetAction(predictions: seq<real>, mask: seq<bool>, epsilon: real, coin: real, pick: nat): (r: Result<nat>)
    // exploring: a uniformly drawn legal index
    ensures coin < epsilon ==> (r.Ok? <==> SomeLegal(mask))
    ensures coin < epsilon && r.Err? ==> r.error == NoValidAction
    ensures coin < epsilon && r.Ok? ==> r.value < |mask| && mask[r.value]
    // exploiting: the best legal value, the first one among ties
    ensures coin >= epsilon ==> (r.Ok? <==> |predictions| > 0 && |mask| == |predictions|)
    ensures coin >= epsilon && r.Ok? ==> r.value < |predictions|
    ensures coin >= epsilon && r.Ok? && SomeLegal(mask) ==>
      && mask[r.value]
      && (forall j :: 0 <= j < |mask| && mask[j] ==> predictions[j] <= predictions[r.value])
      && (forall j :: 0 <= j < r.value && mask[j] ==> predictions[j] < predictions[r.value])
    // exploiting with no legal index at all: the masking cannot help and index 0 comes out
    ensures coin >= epsilon && r.Ok? && !SomeLegal(mask) ==> r.value == 0
  {
    if coin < epsilon then
      var valid := ValidIndices(mask);
      if |valid| == 0 then
        assert !SomeLegal(mask) by {
          if i :| 0 <= i < |mask| && mask[i] { assert i in valid; }
        }
        Err(NoValidAction)
      else
        assert valid[pick % |valid|] in valid;
        Ok(valid[pick % |valid|])
    else if |predictions| == 0 then Err(EmptyPrediction)
    else if |mask| != |predictions| then Err(ShapeMismatch)
    else
      var low := Min(predictions);
      var v := Adjusted(predictions, mask, low - 1.0);
      var k := ArgMax(v);
      assert SomeLegal(mask) ==> mask[k] by {
        if i :| 0 <= i < |mask| && mask[i] {
          assert v[i] == predictions[i] >= low;
        }
      }
      Ok(k)
  }

  /** With epsilon zero the choice is greedy and never illegal, whatever
      values the estimator gives the illegal indices. */
  lemma GreedyChoiceIsLegal(predictions: seq<real>, mask: seq<bool>, coin: real, pick: nat)
    requires 0.0 <= coin < 1.0
    requires |predictions| == |mask| && SomeLegal(mask)
    ensures GetAction(predictions, mask, 0.0, coin, pick).Ok?
    ensures mask[GetAction(predictions, mask, 0.0, coin, pick).value]
  {
  }

  /** With epsilon one and a single legal index, that index is chosen every
      time. */
  lemma ExploringWithOneLegalIndex(predictions: seq<real>, mask: seq<bool>, coin: real, pick: nat, legal: nat)
    requires 0.0 <= coin < 1.0
    requires legal < |mask| && mask[legal]
    requires forall i :: 0 <= i < |mask| && i != legal ==> !mask[i]
    ensures GetAction(predictions, mask, 1.0, coin, pick) == Ok(legal)
  {
  }
}
