/** The bookkeeping of one training step (ai/ai_trainer.py, `DQN.train`):
    the guard, the sampled batch, the bootstrapped targets and the value the
    online estimator gives the action taken.

    The two estimators are passed in as functions from a state to its vector of
    action values; the random index draws are passed in as `draw`, the k-th
    draw being reduced into the buffer's range. The loss and the gradient step
    are not part of this model. */
module Bootstrap {
  import opened Results
  import opened ReplayBuffer

  /** The largest value of a non-empty vector. */
  function Max(v: seq<real>): (m: real)
    requires |v| > 0
    ensures forall i :: 0 <= i < |v| ==> v[i] <= m
    ensures exists i :: 0 <= i < |v| && m == v[i]
  {
    if |v| == 1 then v[0]
    else
      var rest := Max(v[1..]);
      if v[0] >= rest then v[0] else rest
  }

  /** `batchSize` indices, each drawn into [0, n). */
  function SampleIds(n: nat, batchSize: nat, draw: nat -> nat): (ids: seq<nat>)
    requires n > 0
    ensures |ids| == batchSize
    ensures forall k :: 0 <= k < |ids| ==> ids[k] < n
  {
    seq(batchSize, k requires 0 <= k < batchSize => draw(k) % n)
  }

  /** The one-hot vector of an index; all zeros for an index outside the width. */
  function OneHot(index: int, width: nat): (v: seq<real>)
    ensures |v| == width
  {
    seq(width, j requires 0 <= j < width => if j == index then 1.0 else 0.0)
  }

  /** The sum of the element-wise products of two vectors. */
  function Dot(u: seq<real>, v: seq<real>): real
    requires |u| == |v|
  {
    if |u| == 0 then 0.0 else Dot(u[..|u| - 1], v[..|v| - 1]) + u[|u| - 1] * v[|v| - 1]
  }

  /** The value of the action taken: the estimator's output masked by the
      one-hot vector of the action and summed. */
  function SelectedValue(values: seq<real>, action: int): (x: real)
    ensures 0 <= action < |values| ==> x == values[action]
    ensures !(0 <= action < |values|) ==> x == 0.0
  {
    OneHotPicks(values, action);
    Dot(values, OneHot(action, |values|))
  }

  lemma {:induction false} OneHotPicks(values: seq<real>, action: int)
    ensures Dot(values, OneHot(action, |values|)) == if 0 <= action < |values| then values[action] else 0.0
    decreases |values|
  {
    var n := |values|;
    if n > 0 {
      var prefix := values[..n - 1];
      assert OneHot(action, n)[..n - 1] == OneHot(action, n - 1);
      OneHotPicks(prefix, action);
    }
  }

  /** The bootstrapped target of one transition: its reward when the episode
      ended there, else the reward plus the discounted best value the target
      estimator sees in the next state. */
  function BellmanTarget(reward: real, done: bool, gamma: real, next: seq<real>): real
    requires |next| > 0
  {
    if done then reward else reward + gamma * Max(next)
  }

  /** Whether every column read by a training step has an entry at `i`. */
  predicate Readable(b: Buffer, i: nat)
  {
    i < |b.s| && i < |b.a| && i < |b.r| && i < |b.s2| && i < |b.done|
  }

  predicate AllReadable(b: Buffer, ids: seq<nat>)
  {
    forall k :: 0 <= k < |ids| ==> Readable(b, ids[k])
  }

  /** Whether the target estimator gives a non-empty vector for every next
      state of the batch. */
  predicate NextValuesExist(b: Buffer, ids: seq<nat>, targetNet: State -> seq<real>)
    requires AllReadable(b, ids)
  {
    forall k :: 0 <= k < |ids| ==> |targetNet(b.s2[ids[k]])| > 0
  }

  /** The bootstrapped targets of a batch. */
  function Targets(b: Buffer, ids: seq<nat>, gamma: real, targetNet: State -> seq<real>): (y: seq<real>)
    requires AllReadable(b, ids) && NextValuesExist(b, ids, targetNet)
    ensures |y| == |ids|
    ensures forall k :: 0 <= k < |ids| ==>
      var i := ids[k];
      && (b.done[i] ==> y[k] == b.r[i])
      && (!b.done[i] ==> y[k] == b.r[i] + gamma * Max(targetNet(b.s2[i])))
  {
    seq(|ids|, k requires 0 <= k < |ids| =>
      BellmanTarget(b.r[ids[k]], b.done[ids[k]], gamma, targetNet(b.s2[ids[k]])))
  }

  /** The online estimator's values of the actions taken in a batch. */
  function SelectedValues(b: Buffer, ids: seq<nat>, onlineNet: State -> seq<real>): (x: seq<real>)
    requires AllReadable(b, ids)
    ensures |x| == |ids|
    ensures forall k :: 0 <= k < |ids| ==>
      var i := ids[k];
      x[k] == if 0 <= b.a[i] < |onlineNet(b.s[i])| then onlineNet(b.s[i])[b.a[i]] else 0.0
  {
    seq(|ids|, k requires 0 <= k < |ids| => SelectedValue(onlineNet(b.s[ids[k]]), b.a[ids[k]]))
  }

  datatype TrainStep =
    | Skipped
    | Trained(ids: seq<nat>, targets: seq<real>, selected: seq<real>)

  /** One training step. Below `minExperiences` stored transitions nothing is
      done. Otherwise a batch of indices is drawn, the targets are bootstrapped
      from `targetNet`, and the online estimator's value of each action taken
      is selected, ready to be compared with its target. */
  function Train(b: Buffer, minExperiences: int, batchSize: nat, gamma: real, draw: nat -> nat,
                 targetNet: State -> seq<real>, onlineNet: State -> seq<real>): (r: Result<TrainStep>)
    ensures r == Ok(Skipped) <==> Size(b) < minExperiences
    ensures Size(b) >= minExperiences && Size(b) == 0 ==> r == Err(EmptyRange)
    ensures Aligned(b) && r.Err? ==> r.error != IndexOutOfRange
    ensures Aligned(b) && Size(b) >= minExperiences && Size(b) > 0
            && (forall i :: 0 <= i < Size(b) ==> |targetNet(b.s2[i])| > 0)
            ==> r.Ok? && r.value.Trained?
    ensures r.Ok? && r.value.Trained? ==>
      var t := r.value;
      && |t.ids| == batchSize && |t.targets| == batchSize && |t.selected| == batchSize
      && (forall k :: 0 <= k < batchSize ==> t.ids[k] < Size(b))
      && AllReadable(b, t.ids) && NextValuesExist(b, t.ids, targetNet)
    ensures r.Ok? && r.value.Trained? ==>
      var t := r.value;
      forall k :: 0 <= k < batchSize ==>
        var i := t.ids[k];
        && (b.done[i] ==> t.targets[k] == b.r[i])
        && (!b.done[i] ==> t.targets[k] == b.r[i] + gamma * Max(targetNet(b.s2[i])))
    ensures r.Ok? && r.value.Trained? ==>
      var t := r.value;
      forall k :: 0 <= k < batchSize ==>
        var i := t.ids[k];
        t.selected[k] == if 0 <= b.a[i] < |onlineNet(b.s[i])| then onlineNet(b.s[i])[b.a[i]] else 0.0
  {
    var n := Size(b);
    if n < minExperiences then Ok(Skipped)
    else if n == 0 then Err(EmptyRange)
    else
      var ids := SampleIds(n, batchSize, draw);
      if !AllReadable(b, ids) then Err(IndexOutOfRange)
      else if !NextValuesExist(b, ids, targetNet) then Err(EmptyPrediction)
      else
        var targets := Targets(b, ids, gamma, targetNet);
        var selected := SelectedValues(b, ids, onlineNet);
        Ok(Trained(ids, targets, selected))
  }

  /** The target estimator plays no part in the target of a transition that
      ended its episode: two target estimators give the same targets there. */
  lemma TerminalTargetsIgnoreTargetNet(b: Buffer, minExperiences: int, batchSize: nat, gamma: real,
                                       draw: nat -> nat, net1: State -> seq<real>, net2: State -> seq<real>,
                                       onlineNet: State -> seq<real>, k: nat)
    requires Train(b, minExperiences, batchSize, gamma, draw, net1, onlineNet).Ok?
    requires Train(b, minExperiences, batchSize, gamma, draw, net2, onlineNet).Ok?
    requires Train(b, minExperiences, batchSize, gamma, draw, net1, onlineNet).value.Trained?
    requires k < batchSize
    requires b.done[Train(b, minExperiences, batchSize, gamma, draw, net1, onlineNet).value.ids[k]]
    ensures Train(b, minExperiences, batchSize, gamma, draw, net2, onlineNet).value.Trained?
    ensures Train(b, minExperiences, batchSize, gamma, draw, net1, onlineNet).value.targets[k]
         == Train(b, minExperiences, batchSize, gamma, draw, net2, onlineNet).value.targets[k]
  {
  }
}
