/** The experience buffer of the trainer (ai/ai_trainer.py, `DQN.add_experience`).

    The original keeps one list per field of a transition, keyed by field
    name; the model keeps the same six columns as the fields of a record. */
module ReplayBuffer {
  import opened Results

  /** A numeric encoding of a game state, as fed to the value estimator. */
  type State = seq<real>

  /** One transition: the state, the action index taken, the reward, the
      legality mask, the next state, and whether the episode ended. */
  datatype Transition = Transition(s: State, a: int, r: real, m: seq<bool>, s2: State, done: bool)

  /** The six columns of the buffer, oldest entry first. */
  datatype Buffer = Buffer(
    s: seq<State>, a: seq<int>, r: seq<real>, m: seq<seq<bool>>, s2: seq<State>, done: seq<bool>)

  /** The buffer of a new trainer. */
  function Empty(): Buffer
  {
    Buffer([], [], [], [], [], [])
  }

  /** The number of stored transitions, as the original counts it: the length
      of the state column. */
  function Size(b: Buffer): nat
  {
    |b.s|
  }

  /** All six columns have the same length. */
  predicate Aligned(b: Buffer)
  {
    && |b.a| == |b.s| && |b.r| == |b.s| && |b.m| == |b.s|
    && |b.s2| == |b.s| && |b.done| == |b.s|
  }

  /** The buffer read row by row. */
  function Rows(b: Buffer): (rows: seq<Transition>)
    requires Aligned(b)
    ensures |rows| == Size(b)
  {
    seq(|b.s|, i requires 0 <= i < |b.s| => Transition(b.s[i], b.a[i], b.r[i], b.m[i], b.s2[i], b.done[i]))
  }

  predicate HasEmptyColumn(b: Buffer)
  {
    |b.s| == 0 || |b.a| == 0 || |b.r| == 0 || |b.m| == 0 || |b.s2| == 0 || |b.done| == 0
  }

  /** Removes the first entry of every column. */
  function DropOldest(b: Buffer): Buffer
    requires !HasEmptyColumn(b)
  {
    Buffer(b.s[1..], b.a[1..], b.r[1..], b.m[1..], b.s2[1..], b.done[1..])
  }

  /** Appends the fields of a transition to their columns. */
  function Append(b: Buffer, t: Transition): Buffer
  {
    Buffer(b.s + [t.s], b.a + [t.a], b.r + [t.r], b.m + [t.m], b.s2 + [t.s2], b.done + [t.done])
  }

  /** Adds a transition. When the buffer already holds `maxExperiences`
      entries or more, the oldest entry of every column is removed first,
      which fails if some column is empty. */
  function AddExperience(b: Buffer, t: Transition, maxExperiences: int): (r: Result<Buffer>)
    ensures r.Err? <==> Size(b) >= maxExperiences && HasEmptyColumn(b)
    ensures r.Err? ==> r.error == PopFromEmpty
    ensures Aligned(b) && r.Ok? ==> Aligned(r.value)
    ensures Aligned(b) && r.Ok? ==>
      Rows(r.value) == (if Size(b) >= maxExperiences then Rows(b)[1..] else Rows(b)) + [t]
    ensures Aligned(b) && maxExperiences >= 1 ==> r.Ok?
    ensures Aligned(b) && maxExperiences >= 1 && Size(b) <= maxExperiences ==> Size(r.value) <= maxExperiences
  {
    if Size(b) >= maxExperiences then
      if HasEmptyColumn(b) then Err(PopFromEmpty)
      else
        var b' := Append(DropOldest(b), t);
        assert Aligned(b) ==> Rows(b') == Rows(b)[1..] + [t];
        Ok(b')
    else
      var b' := Append(b, t);
      assert Aligned(b) ==> Rows(b') == Rows(b) + [t];
      Ok(b')
  }

  /** Adds transitions one after the other, stopping at the first failure. */
  function AddAll(b: Buffer, ts: seq<Transition>, maxExperiences: int): Result<Buffer>
  {
    if |ts| == 0 then Ok(b)
    else
      var b' :- AddAll(b, ts[..|ts| - 1], maxExperiences);
      AddExperience(b', ts[|ts| - 1], maxExperiences)
  }

  /** The last `n` elements of a sequence, or all of it when it is shorter. */
  function Newest<T>(xs: seq<T>, n: nat): (r: seq<T>)
    ensures |r| <= n && |r| <= |xs|
  {
    if |xs| <= n then xs else xs[|xs| - n..]
  }

  /** The buffer is a first-in first-out window: after any number of
      additions it holds exactly the newest `maxExperiences` transitions of
      everything ever added, in order. */
  lemma {:induction false} AddAllKeepsNewest(b: Buffer, ts: seq<Transition>, maxExperiences: int)
    requires Aligned(b) && maxExperiences >= 1 && Size(b) <= maxExperiences
    ensures AddAll(b, ts, maxExperiences).Ok?
    ensures Aligned(AddAll(b, ts, maxExperiences).value)
    ensures Rows(AddAll(b, ts, maxExperiences).value) == Newest(Rows(b) + ts, maxExperiences)
  {
    if |ts| == 0 {
      assert Rows(b) + ts == Rows(b);
    } else {
      var init := ts[..|ts| - 1];
      var t := ts[|ts| - 1];
      AddAllKeepsNewest(b, init, maxExperiences);
      var mid := AddAll(b, init, maxExperiences).value;
      assert AddAll(b, ts, maxExperiences) == AddExperience(mid, t, maxExperiences);
      assert Rows(b) + ts == (Rows(b) + init) + [t];
      NewestStep(Rows(b) + init, t, maxExperiences);
    }
  }

  /** One more element slides the window of the newest `n` by one. */
  lemma NewestStep<T>(xs: seq<T>, t: T, n: nat)
    requires n >= 1
    ensures var w := Newest(xs, n);
      (if |w| >= n then w[1..] else w) + [t] == Newest(xs + [t], n)
  {
  }

  /** Filling a new buffer with `capacity + k` transitions leaves exactly
      `capacity` of them: the first `k` are gone, the newest `capacity` stay. */
  lemma OverfillingKeepsCapacity(ts: seq<Transition>, capacity: int)
    requires capacity >= 1 && |ts| > capacity
    ensures AddAll(Empty(), ts, capacity).Ok?
    ensures Aligned(AddAll(Empty(), ts, capacity).value)
    ensures Size(AddAll(Empty(), ts, capacity).value) == capacity
    ensures Rows(AddAll(Empty(), ts, capacity).value) == ts[|ts| - capacity..]
  {
    AddAllKeepsNewest(Empty(), ts, capacity);
    assert Rows(Empty()) + ts == ts;
  }
}
