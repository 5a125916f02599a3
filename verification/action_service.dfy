/** The fixed, ordered catalog of actions (base/actions/action_service.py):
    index lookup in both directions and the legality mask derived from it. */
module ActionService {
  import opened Results
  import opened GamePhases
  import opened Players
  import opened Actions

  /** One unexecuted prototype per variant, drawing first. */
  function Catalog(): (c: seq<Action>)
    ensures |c| == 2 && c[0].kind == RequestCard && c[1].kind == Stop
    ensures forall i :: 0 <= i < |c| ==> !c[i].executed
  {
    [NewAction(RequestCard), NewAction(Stop)]
  }

  function NumActions(): nat
  {
    |Catalog()|
  }

  /** Prototypes are pairwise unequal, so each action has one index. */
  lemma CatalogIsInjective()
    ensures NumActions() == 2
    ensures forall i, j :: 0 <= i < j < NumActions() ==> !Equal(Catalog()[i], Catalog()[j])
  {
  }

  /** The position of the first action of `actions` equal to `a`, or `|actions|`
      when there is none. */
  function IndexOf(actions: seq<Action>, a: Action): (i: nat)
    ensures i <= |actions|
    ensures i < |actions| ==> Equal(actions[i], a)
    ensures forall j :: 0 <= j < i ==> !Equal(actions[j], a)
  {
    if |actions| == 0 then 0
    else if Equal(actions[0], a) then 0
    else 1 + IndexOf(actions[1..], a)
  }

  /** The index of an action: the catalog position of the prototype equal to
      it. Every action has one, whether or not it was executed. */
  function ActionToIdx(a: Action): (i: nat)
    ensures i < NumActions() && Equal(Catalog()[i], a)
    ensures forall j :: 0 <= j < NumActions() && Equal(Catalog()[j], a) ==> j == i
  {
    CatalogIsInjective();
    var i := IndexOf(Catalog(), a);
    assert Equal(Catalog()[if a.kind == RequestCard then 0 else 1], a);
    i
  }

  /** The action at an index: a copy of that prototype, hence unexecuted.
      Looking up an index outside the catalog fails. */
  function IdxToAction(index: int): (r: Result<Action>)
    ensures r.Ok? <==> 0 <= index < NumActions()
    ensures r.Err? ==> r.error == UnknownIndex
    ensures r.Ok? ==> r.value == Catalog()[index] && !r.value.executed
  {
    if 0 <= index < |Catalog()| then Ok(Catalog()[index]) else Err(UnknownIndex)
  }

  /** From index to action and back is the identity on the catalog's indices. */
  lemma IndexRoundTrip(index: int)
    requires 0 <= index < NumActions()
    ensures IdxToAction(index).Ok?
    ensures ActionToIdx(IdxToAction(index).value) == index
  {
  }

  /** From action to index and back yields an unexecuted action equal to it. */
  lemma ActionRoundTrip(a: Action)
    ensures IdxToAction(ActionToIdx(a)) == Ok(NewAction(a.kind))
    ensures Equal(IdxToAction(ActionToIdx(a)).value, a)
  {
  }

  /** The legality mask: one entry per catalog position, true exactly when
      that prototype validates against the state. */
  function ValidActionsMask(p: Player, phase: Phase): (m: seq<bool>)
    ensures |m| == NumActions()
    ensures forall i :: 0 <= i < |m| ==> m[i] == Validate(Catalog()[i].kind, p, phase)
  {
    seq(|Catalog()|, i requires 0 <= i < |Catalog()| => Validate(Catalog()[i].kind, p, phase))
  }

  /** The actions of `actions` that validate, in their original order. */
  function Filter(actions: seq<Action>, p: Player, phase: Phase): (r: seq<Action>)
    ensures |r| <= |actions|
    ensures forall a :: a in r <==> a in actions && Validate(a.kind, p, phase)
  {
    if |actions| == 0 then []
    else if Validate(actions[0].kind, p, phase) then [actions[0]] + Filter(actions[1..], p, phase)
    else Filter(actions[1..], p, phase)
  }

  /** The elements of `xs` at the positions where `mask` is true. */
  function Select<T>(xs: seq<T>, mask: seq<bool>): seq<T>
    requires |xs| == |mask|
  {
    if |xs| == 0 then []
    else (if mask[0] then [xs[0]] else []) + Select(xs[1..], mask[1..])
  }

  /** The valid actions: unexecuted copies of the prototypes that validate,
      in catalog order. */
  function ValidActions(p: Player, phase: Phase): (r: seq<Action>)
    ensures forall a :: a in r <==> a in Catalog() && Validate(a.kind, p, phase)
    ensures forall a :: a in r ==> !a.executed
  {
    Filter(Catalog(), p, phase)
  }

  /** The valid actions are exactly the catalog entries the mask marks, in
      catalog order. */
  lemma {:induction false} ValidActionsFollowMask(p: Player, phase: Phase)
    ensures ValidActions(p, phase) == Select(Catalog(), ValidActionsMask(p, phase))
  {
    var c := Catalog();
    assert ValidActionsMask(p, phase)
        == seq(|c|, i requires 0 <= i < |c| => Validate(c[i].kind, p, phase));
    FilterIsSelect(c, p, phase);
  }

  lemma {:induction false} FilterIsSelect(actions: seq<Action>, p: Player, phase: Phase)
    ensures Filter(actions, p, phase)
         == Select(actions, seq(|actions|, i requires 0 <= i < |actions| => Validate(actions[i].kind, p, phase)))
  {
    var m := seq(|actions|, i requires 0 <= i < |actions| => Validate(actions[i].kind, p, phase));
    if |actions| > 0 {
      var tail := actions[1..];
      assert m[1..] == seq(|tail|, i requires 0 <= i < |tail| => Validate(tail[i].kind, p, phase));
      FilterIsSelect(tail, p, phase);
    }
  }

  /** Every entry of the mask agrees with validating the action at that index
      on its own. */
  lemma MaskMatchesValidation(p: Player, phase: Phase, index: int)
    requires 0 <= index < NumActions()
    ensures ValidActionsMask(p, phase)[index] <==> Validate(IdxToAction(index).value.kind, p, phase)
  {
  }
}
