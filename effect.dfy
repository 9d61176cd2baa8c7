/** The Age of Sigmar: Soulbound active effect (scripts/system/effect.js):
    routing of changes onto an actor's deferred queues, the item an effect
    comes from, equip gating, resolution of cross-actor references, the
    projection of changes into roll dialogs, and the roll-effect test. */
module Effects {
  import opened Results
  import opened JsString
  import opened JsNumber
  import opened Documents
  import opened ActorReference

  // ---------------------------------------------------------------------
  // Routing of changes (apply)
  // ---------------------------------------------------------------------

  /** Where `apply` sends a change. */
  datatype Destination = BaseApply | PostReadyQueue | DerivedQueue

  /** A value holding `@` refers to data that is not yet available: `@doom`
      waits for the game to be ready, every other reference waits for the
      actor's derived data. Any other value is applied at once. */
  function Route(value: string, gameReady: bool): (d: Destination)
    ensures d == BaseApply <==> '@' !in value
    ensures d == PostReadyQueue <==> value == "@doom" && !gameReady
    ensures d == DerivedQueue <==> '@' in value && (value != "@doom" || gameReady)
  {
    IncludesOneChar(value, '@');
    assert "@doom"[0] == '@';
    if Includes(value, "@") then
      if value == "@doom" && !gameReady then PostReadyQueue else DerivedQueue
    else BaseApply
  }

  /** The queues an actor keeps for changes it cannot apply yet, and (as a
      log) the changes handed to the base `ActiveEffect.apply`. */
  class Actor {
    var postReadyEffects: seq<Change>
    var derivedEffects: seq<Change>
    ghost var applied: seq<Change>

    /** Every queued change is where `apply` would send it. */
    ghost predicate Valid()
      reads this
    {
      && (forall i :: 0 <= i < |postReadyEffects| ==> postReadyEffects[i].value == "@doom")
      && (forall i :: 0 <= i < |derivedEffects| ==> '@' in derivedEffects[i].value)
      && (forall i :: 0 <= i < |applied| ==> '@' !in applied[i].value)
    }

    constructor ()
      ensures postReadyEffects == [] && derivedEffects == [] && applied == []
      ensures Valid()
    {
      postReadyEffects := [];
      derivedEffects := [];
      applied := [];
    }
  }

  // ---------------------------------------------------------------------
  // The item an effect comes from (the `item` getter)
  // ---------------------------------------------------------------------

  /** `this.parent.pack`: whether the parent document sits in a compendium.
      Without a parent there is no item to prepare, so the flag is never
      read there; it is false. */
  function InPack(parent: Parent): (r: bool)
    ensures r <==> !parent.NoParent? && parent.inPack
  {
    match parent
    case NoParent => false
    case ItemParent(_, inPack) => inPack
    case ActorParent(_, _, _, inPack) => inPack
  }

  /** The item an effect comes from: its parent when that is an item; for an
      effect on an actor, the owned item named by segment 3 of the dotted
      origin when segment 1 is the actor's own id; otherwise none. An effect
      without a parent but with an origin throws, since the getter reads
      the parent's document name. */
  function ResolveItem(parent: Parent, origin: string): (r: Result<Option<Item>, JsError>)
    ensures parent.ItemParent? ==> r == Success(Some(parent.item))
    ensures r.Failure? <==> parent.NoParent? && origin != ""
    ensures r.Failure? ==> r.error == TypeError
    ensures r.Success? && r.value.Some? && !parent.ItemParent? ==>
              && parent.ActorParent?
              && var segments := Split(origin, '.');
                 |segments| > 3 && segments[1] == parent.id && segments[3] != "" && segments[3] in parent.items
                 && r.value.value == parent.items[segments[3]]
    ensures parent.ActorParent? && origin == "" ==> r == Success(None)
    ensures parent.ActorParent? && origin != "" ==>
              var segments := Split(origin, '.');
              if |segments| > 3 && segments[1] == parent.id && segments[3] != "" then
                r == Success(if segments[3] in parent.items then Some(parent.items[segments[3]]) else None)
              else r == Success(None)
  {
    if parent.ItemParent? then Success(Some(parent.item))
    else if origin == "" then Success(None)
    else if parent.NoParent? then Failure(TypeError)
    else
      var segments := Split(origin, '.');
      if |segments| > 1 && segments[1] == parent.id && |segments| > 3 && segments[3] != "" then
        Success(if segments[3] in parent.items then Some(parent.items[segments[3]]) else None)
      else Success(None)
  }

  /** The origin of an effect that comes from item `itemId` of actor `actorId`. */
  function OwnedItemOrigin(actorId: string, itemId: string): string
  {
    "Actor." + actorId + ".Item." + itemId
  }

  /** The segments of an owned-item origin are the four parts it is made of. */
  lemma OwnedItemOriginSegments(actorId: string, itemId: string)
    requires '.' !in actorId && '.' !in itemId
    ensures Split(OwnedItemOrigin(actorId, itemId), '.') == ["Actor", actorId, "Item", itemId]
  {
    var parts := ["Actor", actorId, "Item", itemId];
    var last := Join(parts[3..], '.');
    assert last == itemId;
    var two := Join(parts[2..], '.');
    assert parts[2..][1..] == parts[3..];
    assert two == "Item" + "." + itemId;
    var three := Join(parts[1..], '.');
    assert parts[1..][1..] == parts[2..];
    assert three == actorId + "." + two;
    assert Join(parts, '.') == "Actor" + "." + three;
    assert "Actor" + "." == "Actor." && "." + "Item" + "." == ".Item.";
    assert Join(parts, '.') == OwnedItemOrigin(actorId, itemId);
    assert '.' !in "Actor" && '.' !in "Item";
    SplitJoin(parts, '.');
  }

  /** An effect on an actor whose origin names one of that actor's own items
      resolves to that item, or to none when the actor has no such item. */
  lemma ResolveOwnItem(actorId: string, itemId: string, items: map<string, Item>, rollData: RollData, inPack: bool)
    requires '.' !in actorId && '.' !in itemId && itemId != ""
    ensures ResolveItem(ActorParent(actorId, items, rollData, inPack), OwnedItemOrigin(actorId, itemId))
         == Success(if itemId in items then Some(items[itemId]) else None)
  {
    OwnedItemOriginSegments(actorId, itemId);
  }

  /** An origin naming an item of another actor resolves to no item. */
  lemma ResolveOtherActorsItem(actorId: string, otherId: string, itemId: string,
                               items: map<string, Item>, rollData: RollData, inPack: bool)
    requires '.' !in otherId && '.' !in itemId && otherId != actorId
    ensures ResolveItem(ActorParent(actorId, items, rollData, inPack), OwnedItemOrigin(otherId, itemId)) == Success(None)
  {
    OwnedItemOriginSegments(otherId, itemId);
  }

  // ---------------------------------------------------------------------
  // Equip gating (prepareData)
  // ---------------------------------------------------------------------

  /** The `disabled` flag after `prepareData`: once the game is ready, an
      effect that requires its equippable item to be equipped, outside a
      compendium, is disabled exactly when the item is not equipped;
      otherwise the flag is kept. Resolving the item may throw. */
  function PreparedDisabled(disabled: bool, gameReady: bool, parent: Parent, origin: string, requiresEquip: bool): (r: Result<bool, JsError>)
    ensures !gameReady ==> r == Success(disabled)
    ensures r.Failure? <==> gameReady && ResolveItem(parent, origin).Failure?
    ensures r.Success? && r.value != disabled ==>
              && gameReady && requiresEquip && !InPack(parent)
              && ResolveItem(parent, origin).Success? && ResolveItem(parent, origin).value.Some?
              && ResolveItem(parent, origin).value.value.equippable
              && r.value == !ResolveItem(parent, origin).value.value.equipped
  {
    if !gameReady then Success(disabled)
    else match ResolveItem(parent, origin)
      case Failure(e) => Failure(e)
      case Success(item) =>
        if item.Some? && item.value.equippable && requiresEquip && !InPack(parent) then Success(!item.value.equipped)
        else Success(disabled)
  }

  /** Preparing twice gives the same flag as preparing once. */
  lemma PreparedDisabledIdempotent(disabled: bool, gameReady: bool, parent: Parent, origin: string, requiresEquip: bool)
    requires PreparedDisabled(disabled, gameReady, parent, origin, requiresEquip).Success?
    ensures var once := PreparedDisabled(disabled, gameReady, parent, origin, requiresEquip).value;
            PreparedDisabled(once, gameReady, parent, origin, requiresEquip) == Success(once)
  {
  }

  /** Under the gate, the flag follows the item and not its previous value. */
  lemma PreparedDisabledFollowsItem(d1: bool, d2: bool, parent: Parent, origin: string, requiresEquip: bool)
    requires ResolveItem(parent, origin).Success? && ResolveItem(parent, origin).value.Some?
    requires ResolveItem(parent, origin).value.value.equippable && requiresEquip && !InPack(parent)
    ensures PreparedDisabled(d1, true, parent, origin, requiresEquip) == PreparedDisabled(d2, true, parent, origin, requiresEquip)
    ensures PreparedDisabled(d1, true, parent, origin, requiresEquip) == Success(!ResolveItem(parent, origin).value.value.equipped)
  {
  }

  // ---------------------------------------------------------------------
  // Cross-actor references (fillDerivedData)
  // ---------------------------------------------------------------------

  /** What evaluating a formula gives: a number, a text, or an exception. */
  datatype EvalResult = NumberResult(n: int) | TextResult(s: string) | Threw

  /** The value stored back into the change: a number as its decimal text,
      a text as it is; an exception propagates. */
  function Stored(e: EvalResult): (r: Result<string, JsError>)
    ensures r.Failure? <==> e.Threw?
    ensures r.Failure? ==> r.error == EvalError
  {
    match e
    case NumberResult(n) => Success(IntToString(n))
    case TextResult(s) => Success(s)
    case Threw => Failure(EvalError)
  }

  /** A number is stored as a numeric text that `parseInt` reads back as
      that number. */
  lemma StoredNumberReadsBack(n: int)
    ensures Stored(NumberResult(n)).Success?
    ensures ParseInt(Stored(NumberResult(n)).value) == Int(n)
    ensures IsNumericString(Stored(NumberResult(n)).value)
  {
    ParseIntOfIntToString(n);
    IntToStringIsNumeric(n);
  }

  /** `fillDerivedData`: a value referring to another actor's data is
      evaluated as `@<path>` against that actor's roll data, or left as it
      is when no such actor exists; any other value is evaluated against
      the roll data of the effect's own actor. `eval` stands for the formula
      substitution and evaluation of the host. */
  function FillDerived(value: string, rollData: RollData, actors: map<string, RollData>,
                       eval: (string, RollData) -> EvalResult): (r: Result<string, JsError>)
    ensures r.Failure? ==> r.error == EvalError
  {
    match FirstReference(value)
    case Some((id, path)) =>
      if id in actors then Stored(eval("@" + path, actors[id])) else Success(value)
    case None => Stored(eval(value, rollData))
  }

  /** A reference to actor `id` is evaluated as `@<path>` against that
      actor's roll data, or kept unchanged when the actor does not exist. */
  lemma FillDerivedOfReference(id: string, path: string, rollData: RollData,
                               actors: map<string, RollData>, eval: (string, RollData) -> EvalResult)
    requires id != [] && ']' !in id && NoLineTerminator(id)
    requires path != [] && NoLineTerminator(path)
    ensures id in actors ==> FillDerived(ReferenceText(id, path), rollData, actors, eval) == Stored(eval("@" + path, actors[id]))
    ensures id !in actors ==> FillDerived(ReferenceText(id, path), rollData, actors, eval) == Success(ReferenceText(id, path))
  {
    FirstReferenceOfText(id, path);
  }

  /** Whatever the value: when the leftmost match of the reference pattern,
      with the shortest id, names actor `id` and path `path`, the value is
      evaluated as `@<path>` against that actor's roll data, or kept
      unchanged when the actor does not exist. */
  lemma FillDerivedOfMatch(value: string, k: nat, id: string, path: string, rollData: RollData,
                           actors: map<string, RollData>, eval: (string, RollData) -> EvalResult)
    requires LeftmostShortest(value, k, id, path)
    ensures id in actors ==> FillDerived(value, rollData, actors, eval) == Stored(eval("@" + path, actors[id]))
    ensures id !in actors ==> FillDerived(value, rollData, actors, eval) == Success(value)
  {
    FirstReferenceSpec(value, id, path);
  }

  /** A value in which the reference pattern matches nowhere is evaluated
      against the effect's own actor. */
  lemma FillDerivedWithoutMatch(value: string, rollData: RollData,
                                actors: map<string, RollData>, eval: (string, RollData) -> EvalResult)
    requires forall k: nat, id, path :: !ReferenceAt(value, k, id, path)
    ensures FillDerived(value, rollData, actors, eval) == Stored(eval(value, rollData))
  {
    FirstReferenceNone(value);
  }

  /** A value without `@UUID[Actor.` is evaluated against the effect's own
      actor. */
  lemma FillDerivedWithoutReference(value: string, rollData: RollData,
                                    actors: map<string, RollData>, eval: (string, RollData) -> EvalResult)
    requires !Includes(value, Head)
    ensures FillDerived(value, rollData, actors, eval) == Stored(eval(value, rollData))
  {
    FirstReferenceNeedsHead(value);
  }

  // ---------------------------------------------------------------------
  // Dialog changes (getDialogChanges)
  // ---------------------------------------------------------------------

  /** A change as a roll dialog offers it: the (cloned) change, its
      conditional, the effect it belongs to, whether it is for the target,
      and the dialog indices it stands for. */
  datatype DialogChange = DialogChange(change: Change, conditional: Conditional, document: ActiveEffect,
                                       target: bool, index: seq<int>)

  function Desc(x: DialogChange): Option<string>
  {
    x.conditional.description
  }

  /** The conditional stored for the change at position `i`, or `{}`. */
  function ConditionalAt(conditionals: map<int, Conditional>, i: int): Conditional
  {
    if i in conditionals then conditionals[i] else NoConditional
  }

  /** A position with a stored conditional gets that conditional, and any
      other position the empty one. */
  lemma ConditionalAtStored(conditionals: map<int, Conditional>, i: int)
    ensures i in conditionals ==> ConditionalAt(conditionals, i) == conditionals[i]
    ensures i !in conditionals ==> ConditionalAt(conditionals, i) == NoConditional
  {
  }

  /** The mode a dialog shows: 7 for the target's dialog, 6 for one's own. */
  function DialogMode(target: bool): (m: int)
    ensures m == TargetDialogMode <==> target
    ensures m == SelfDialogMode <==> !target
  {
    if target then TargetDialogMode else SelfDialogMode
  }

  /** The positions of the changes with the given mode, in order. */
  function Selected(cs: seq<Change>, mode: int): (ps: seq<nat>)
    ensures forall k :: 0 <= k < |ps| ==> ps[k] < |cs| && cs[ps[k]].mode == mode
    ensures forall k, l :: 0 <= k < l < |ps| ==> ps[k] < ps[l]
    ensures forall i :: 0 <= i < |cs| && cs[i].mode == mode ==> i in ps
    decreases |cs|
  {
    if cs == [] then []
    else
      var ps := Selected(cs[..|cs| - 1], mode);
      if cs[|cs| - 1].mode == mode then ps + [|cs| - 1] else ps
  }

  /** The value of a dialog change after `fillDerivedData`, which only runs
      for effects on an actor. */
  function Filled(parent: Parent, value: string, actors: map<string, RollData>,
                  eval: (string, RollData) -> EvalResult): (r: Result<string, JsError>)
    ensures !parent.ActorParent? ==> r == Success(value)
    ensures r.Failure? ==> r.error == EvalError
  {
    if parent.ActorParent? then FillDerived(value, parent.rollData, actors, eval) else Success(value)
  }

  /** The position of the first entry with description `d` at or after
      `from`, or `|xs|` when there is none. */
  function FirstWith(xs: seq<DialogChange>, d: Option<string>, from: nat): (p: nat)
    requires from <= |xs|
    ensures from <= p <= |xs|
    ensures p < |xs| ==> Desc(xs[p]) == d
    ensures forall q :: from <= q < p ==> Desc(xs[q]) != d
    decreases |xs| - from
  {
    if from == |xs| || Desc(xs[from]) == d then from else FirstWith(xs, d, from + 1)
  }

  /** The first position with description `d` is the one before which no
      entry has it, and it is `|xs|` when no entry has it. */
  lemma FirstWithAt(xs: seq<DialogChange>, d: Option<string>, p: nat)
    requires p <= |xs|
    requires p < |xs| ==> Desc(xs[p]) == d
    requires forall q :: 0 <= q < p ==> Desc(xs[q]) != d
    ensures FirstWith(xs, d, 0) == p
  {
  }

  /** The first entry with a description already present is unaffected by
      appending. */
  lemma FirstWithAppend(xs: seq<DialogChange>, c: DialogChange, d: Option<string>)
    requires FirstWith(xs, d, 0) < |xs|
    ensures FirstWith(xs + [c], d, 0) == FirstWith(xs, d, 0)
  {
    var p := FirstWith(xs, d, 0);
    assert forall q :: 0 <= q < |xs| ==> (xs + [c])[q] == xs[q];
    FirstWithAt(xs + [c], d, p);
  }

  /** Entries with the same descriptions have their first positions in common. */
  lemma FirstWithSameDescs(a: seq<DialogChange>, b: seq<DialogChange>, d: Option<string>)
    requires |a| == |b|
    requires forall l :: 0 <= l < |a| ==> Desc(a[l]) == Desc(b[l])
    ensures FirstWith(a, d, 0) == FirstWith(b, d, 0)
  {
    FirstWithAt(b, d, FirstWith(a, d, 0));
  }

  /** The indices of all entries with description `d`, in order. */
  function IndicesOf(xs: seq<DialogChange>, d: Option<string>): seq<int>
    decreases |xs|
  {
    if xs == [] then []
    else IndicesOf(xs[..|xs| - 1], d) + (if Desc(xs[|xs| - 1]) == d then xs[|xs| - 1].index else [])
  }

  /** A description that does not occur has no indices. */
  lemma {:induction false} IndicesOfAbsent(xs: seq<DialogChange>, d: Option<string>)
    requires FirstWith(xs, d, 0) == |xs|
    ensures IndicesOf(xs, d) == []
    decreases |xs|
  {
    if xs != [] {
      var init := xs[..|xs| - 1];
      assert forall i :: 0 <= i < |init| ==> init[i] == xs[i];
      FirstWithAt(init, d, |init|);
      IndicesOfAbsent(init, d);
    }
  }

  /** `g` condenses `xs`: the descriptions in `g` are distinct, every
      description in `xs` has a group in `g`, and every group's description
      occurs in `xs`. */
  ghost predicate Condenses(xs: seq<DialogChange>, g: seq<DialogChange>)
  {
    && (forall j, k :: 0 <= j < k < |g| ==> Desc(g[j]) != Desc(g[k]))
    && (forall i :: 0 <= i < |xs| ==> FirstWith(g, Desc(xs[i]), 0) < |g|)
    && (forall j :: 0 <= j < |g| ==> FirstWith(xs, Desc(g[j]), 0) < |xs|)
  }

  /** One step of the condensing reduction: `c` joins the group with its
      description, appending its indices, or opens a new last group. */
  function Absorb(g: seq<DialogChange>, c: DialogChange): (h: seq<DialogChange>)
    ensures |g| <= |h| <= |g| + 1
    ensures |h| == |g| + 1 <==> forall q :: 0 <= q < |g| ==> Desc(g[q]) != Desc(c)
  {
    var j := FirstWith(g, Desc(c), 0);
    if j < |g| then g[j := g[j].(index := g[j].index + c.index)] else g + [c]
  }

  /** The condensed dialog changes: the entries folded one by one into
      groups by conditional description. */
  function Grouped(xs: seq<DialogChange>): (g: seq<DialogChange>)
    ensures |g| <= |xs|
    ensures g == [] <==> xs == []
    decreases |xs|
  {
    if xs == [] then [] else Absorb(Grouped(xs[..|xs| - 1]), xs[|xs| - 1])
  }

  /** Condensing yields distinct descriptions that are exactly those of the
      entries. */
  lemma {:induction false} GroupedCondenses(xs: seq<DialogChange>)
    ensures Condenses(xs, Grouped(xs))
    decreases |xs|
  {
    if xs != [] {
      var init := xs[..|xs| - 1];
      GroupedCondenses(init);
      AbsorbCondenses(init, Grouped(init), xs[|xs| - 1]);
      assert init + [xs[|xs| - 1]] == xs;
    }
  }

  /** Absorbing the next entry keeps a condensation a condensation. */
  lemma AbsorbCondenses(xs: seq<DialogChange>, g: seq<DialogChange>, c: DialogChange)
    requires Condenses(xs, g)
    ensures Condenses(xs + [c], Absorb(g, c))
  {
    AbsorbGroupsOccur(xs, g, c);
    if FirstWith(g, Desc(c), 0) < |g| {
      AbsorbIntoGroup(xs, g, c);
    } else {
      AbsorbAsNewGroup(xs, g, c);
    }
  }

  /** After absorbing `c`, every group's description occurs in `xs + [c]`. */
  lemma AbsorbGroupsOccur(xs: seq<DialogChange>, g: seq<DialogChange>, c: DialogChange)
    requires forall j :: 0 <= j < |g| ==> FirstWith(xs, Desc(g[j]), 0) < |xs|
    ensures forall j :: 0 <= j < |Absorb(g, c)| ==> FirstWith(xs + [c], Desc(Absorb(g, c)[j]), 0) < |xs| + 1
  {
    var ys := xs + [c];
    var h := Absorb(g, c);
    forall j | 0 <= j < |g|
      ensures FirstWith(ys, Desc(g[j]), 0) < |xs|
    {
      FirstWithAppend(xs, c, Desc(g[j]));
    }
    if FirstWith(g, Desc(c), 0) < |g| {
      assert forall j :: 0 <= j < |g| ==> Desc(h[j]) == Desc(g[j]);
    } else {
      assert h == g + [c];
      assert forall j :: 0 <= j < |g| ==> h[j] == g[j];
      assert h[|g|] == c && ys[|xs|] == c;
    }
  }

  /** Absorbing an entry into an existing group keeps the descriptions, so
      they stay distinct and cover `xs + [c]`. */
  lemma AbsorbIntoGroup(xs: seq<DialogChange>, g: seq<DialogChange>, c: DialogChange)
    requires Condenses(xs, g)
    requires FirstWith(g, Desc(c), 0) < |g|
    ensures forall j, k :: 0 <= j < k < |Absorb(g, c)| ==> Desc(Absorb(g, c)[j]) != Desc(Absorb(g, c)[k])
    ensures forall i :: 0 <= i < |xs| + 1 ==> FirstWith(Absorb(g, c), Desc((xs + [c])[i]), 0) < |Absorb(g, c)|
  {
    var ys := xs + [c];
    var h := Absorb(g, c);
    assert forall l :: 0 <= l < |g| ==> Desc(h[l]) == Desc(g[l]);
    forall i | 0 <= i < |ys|
      ensures FirstWith(h, Desc(ys[i]), 0) < |h|
    {
      FirstWithSameDescs(h, g, Desc(ys[i]));
      if i < |xs| {
        assert ys[i] == xs[i];
      }
    }
  }

  /** An entry with a new description becomes the last group, distinct from
      all others. */
  lemma AbsorbAsNewGroup(xs: seq<DialogChange>, g: seq<DialogChange>, c: DialogChange)
    requires Condenses(xs, g)
    requires FirstWith(g, Desc(c), 0) == |g|
    ensures forall j, k :: 0 <= j < k < |Absorb(g, c)| ==> Desc(Absorb(g, c)[j]) != Desc(Absorb(g, c)[k])
    ensures forall i :: 0 <= i < |xs| + 1 ==> FirstWith(Absorb(g, c), Desc((xs + [c])[i]), 0) < |Absorb(g, c)|
  {
    var ys := xs + [c];
    var h := Absorb(g, c);
    assert h == g + [c];
    forall i | 0 <= i < |ys|
      ensures FirstWith(h, Desc(ys[i]), 0) < |h|
    {
      if i < |xs| {
        assert ys[i] == xs[i];
        FirstWithAppend(g, c, Desc(xs[i]));
      } else {
        FirstWithAt(h, Desc(c), |g|);
      }
    }
  }

  /** Each group of `g` is the first entry of `xs` with its description,
      standing for the indices of all entries with that description, in
      order. */
  ghost predicate EntriesAreFirsts(xs: seq<DialogChange>, g: seq<DialogChange>)
  {
    forall j :: 0 <= j < |g| ==>
      && FirstWith(xs, Desc(g[j]), 0) < |xs|
      && g[j] == xs[FirstWith(xs, Desc(g[j]), 0)].(index := IndicesOf(xs, Desc(g[j])))
  }

  /** Each condensed entry is the first entry with its description, its
      index list the in-order concatenation of the index lists of all
      entries with that description. */
  lemma {:induction false} GroupedEntries(xs: seq<DialogChange>)
    ensures EntriesAreFirsts(xs, Grouped(xs))
    decreases |xs|
  {
    if xs != [] {
      var init := xs[..|xs| - 1];
      var c := xs[|xs| - 1];
      assert init + [c] == xs;
      GroupedEntries(init);
      GroupedCondenses(init);
      AbsorbKeepsEntries(init, Grouped(init), c);
    }
  }

  /** A description no earlier entry has is first found at the new entry. */
  lemma NewDescriptionFirstAtEnd(xs: seq<DialogChange>, g: seq<DialogChange>, c: DialogChange)
    requires Condenses(xs, g)
    requires FirstWith(g, Desc(c), 0) == |g|
    ensures FirstWith(xs, Desc(c), 0) == |xs|
    ensures FirstWith(xs + [c], Desc(c), 0) == |xs|
  {
    var ys := xs + [c];
    forall q | 0 <= q < |xs|
      ensures Desc(ys[q]) != Desc(c) && Desc(xs[q]) != Desc(c)
    {
      assert ys[q] == xs[q];
    }
    FirstWithAt(ys, Desc(c), |xs|);
    FirstWithAt(xs, Desc(c), |xs|);
  }

  /** Absorbing the next entry keeps every group the first entry with its
      description, standing for all indices with that description. */
  lemma AbsorbKeepsEntries(xs: seq<DialogChange>, g: seq<DialogChange>, c: DialogChange)
    requires Condenses(xs, g) && EntriesAreFirsts(xs, g)
    ensures EntriesAreFirsts(xs + [c], Absorb(g, c))
  {
    var h := Absorb(g, c);
    forall j | 0 <= j < |h|
      ensures FirstWith(xs + [c], Desc(h[j]), 0) < |xs| + 1
      ensures h[j] == (xs + [c])[FirstWith(xs + [c], Desc(h[j]), 0)].(index := IndicesOf(xs + [c], Desc(h[j])))
    {
      if j < |g| {
        OldGroupStep(xs, g, c, j);
      } else {
        NewGroupStep(xs, g, c);
      }
    }
  }

  /** An existing group keeps its first entry and gains `c`'s indices
      exactly when `c` has its description. */
  lemma OldGroupStep(xs: seq<DialogChange>, g: seq<DialogChange>, c: DialogChange, j: nat)
    requires Condenses(xs, g)
    requires j < |g|
    requires FirstWith(xs, Desc(g[j]), 0) < |xs|
    requires g[j] == xs[FirstWith(xs, Desc(g[j]), 0)].(index := IndicesOf(xs, Desc(g[j])))
    ensures Desc(Absorb(g, c)[j]) == Desc(g[j])
    ensures FirstWith(xs + [c], Desc(g[j]), 0) < |xs|
    ensures Absorb(g, c)[j] ==
              (xs + [c])[FirstWith(xs + [c], Desc(g[j]), 0)].(index := IndicesOf(xs + [c], Desc(g[j])))
  {
    var ys := xs + [c];
    var d := Desc(g[j]);
    assert ys[..|ys| - 1] == xs;
    FirstWithAppend(xs, c, d);
    assert ys[FirstWith(xs, d, 0)] == xs[FirstWith(xs, d, 0)];
    assert IndicesOf(ys, d) == IndicesOf(xs, d) + (if Desc(c) == d then c.index else []);
    assert Desc(c) == d <==> j == FirstWith(g, Desc(c), 0);
  }

  /** A new group is `c` itself, standing for its own indices only. */
  lemma NewGroupStep(xs: seq<DialogChange>, g: seq<DialogChange>, c: DialogChange)
    requires Condenses(xs, g)
    requires |Absorb(g, c)| > |g|
    ensures Desc(Absorb(g, c)[|g|]) == Desc(c)
    ensures FirstWith(xs + [c], Desc(c), 0) == |xs|
    ensures Absorb(g, c)[|g|] == (xs + [c])[|xs|].(index := IndicesOf(xs + [c], Desc(c)))
  {
    var ys := xs + [c];
    assert FirstWith(g, Desc(c), 0) == |g| && Absorb(g, c) == g + [c];
    NewDescriptionFirstAtEnd(xs, g, c);
    IndicesOfAbsent(xs, Desc(c));
    assert ys[..|ys| - 1] == xs;
    assert IndicesOf(ys, Desc(c)) == c.index;
  }

  /** The total number of dialog indices the entries stand for. */
  function TotalIndices(xs: seq<DialogChange>): nat
    decreases |xs|
  {
    if xs == [] then 0 else TotalIndices(xs[..|xs| - 1]) + |xs[|xs| - 1].index|
  }

  /** Entries standing for one index each stand for as many indices as there are entries. */
  lemma {:induction false} SingletonIndicesTotal(xs: seq<DialogChange>)
    requires forall k :: 0 <= k < |xs| ==> |xs[k].index| == 1
    ensures TotalIndices(xs) == |xs|
    decreases |xs|
  {
    if xs != [] {
      SingletonIndicesTotal(xs[..|xs| - 1]);
    }
  }

  /** Appending indices to one entry adds their number to the total. */
  lemma {:induction false} TotalIndicesUpdate(xs: seq<DialogChange>, j: nat, extra: seq<int>)
    requires j < |xs|
    ensures TotalIndices(xs[j := xs[j].(index := xs[j].index + extra)]) == TotalIndices(xs) + |extra|
    decreases |xs|
  {
    var ys := xs[j := xs[j].(index := xs[j].index + extra)];
    if j < |xs| - 1 {
      assert ys[..|ys| - 1] == xs[..|xs| - 1][j := xs[j].(index := xs[j].index + extra)];
      TotalIndicesUpdate(xs[..|xs| - 1], j, extra);
    } else {
      assert ys[..|ys| - 1] == xs[..|xs| - 1];
    }
  }

  /** Condensing keeps every index: the total number of indices is unchanged. */
  lemma {:induction false} GroupedTotal(xs: seq<DialogChange>)
    ensures TotalIndices(Grouped(xs)) == TotalIndices(xs)
    decreases |xs|
  {
    if xs != [] {
      var init := xs[..|xs| - 1];
      var c := xs[|xs| - 1];
      GroupedTotal(init);
      var g := Grouped(init);
      var j := FirstWith(g, Desc(c), 0);
      assert Grouped(xs) == Absorb(g, c) by {
        assert xs[..|xs| - 1] == init;
      }
      if j < |g| {
        TotalIndicesUpdate(g, j, c.index);
      } else {
        assert (g + [c])[..|g|] == g;
      }
    }
  }

  /** The groups of `g` are ordered by the first appearance of their
      descriptions in `xs`. */
  ghost predicate InFirstAppearanceOrder(xs: seq<DialogChange>, g: seq<DialogChange>)
  {
    forall j, k :: 0 <= j < k < |g| ==> FirstWith(xs, Desc(g[j]), 0) < FirstWith(xs, Desc(g[k]), 0)
  }

  /** Condensed entries are ordered by the first appearance of their
      descriptions. */
  lemma {:induction false} GroupedInFirstAppearanceOrder(xs: seq<DialogChange>)
    ensures InFirstAppearanceOrder(xs, Grouped(xs))
    decreases |xs|
  {
    if xs != [] {
      var init := xs[..|xs| - 1];
      var c := xs[|xs| - 1];
      assert init + [c] == xs;
      GroupedInFirstAppearanceOrder(init);
      GroupedCondenses(init);
      AbsorbKeepsOrder(init, Grouped(init), c);
    }
  }

  /** Absorbing the next entry keeps the groups in first-appearance order. */
  lemma AbsorbKeepsOrder(xs: seq<DialogChange>, g: seq<DialogChange>, c: DialogChange)
    requires Condenses(xs, g) && InFirstAppearanceOrder(xs, g)
    ensures InFirstAppearanceOrder(xs + [c], Absorb(g, c))
  {
    var ys := xs + [c];
    var h := Absorb(g, c);
    forall l | 0 <= l < |g|
      ensures Desc(h[l]) == Desc(g[l])
      ensures FirstWith(ys, Desc(g[l]), 0) == FirstWith(xs, Desc(g[l]), 0) < |xs|
    {
      FirstWithAppend(xs, c, Desc(g[l]));
    }
    if FirstWith(g, Desc(c), 0) == |g| {
      NewDescriptionFirstAtEnd(xs, g, c);
      assert Desc(h[|g|]) == Desc(c);
    }
  }

  /** Condensing one entry more of a prefix absorbs that entry. */
  lemma GroupedPrefixStep(xs: seq<DialogChange>, i: nat)
    requires i < |xs|
    ensures Grouped(xs[..i + 1]) == Absorb(Grouped(xs[..i]), xs[i])
  {
    assert xs[..i + 1][..i] == xs[..i];
  }

  /** Condensing in place of `Grouped`: each entry either joins the group
      with its description, appending its indices, or opens a new group. */
  method Condense(xs: seq<DialogChange>) returns (unique: seq<DialogChange>)
    ensures unique == Grouped(xs)
  {
    unique := [];
    var i := 0;
    while i < |xs|
      invariant 0 <= i <= |xs|
      invariant unique == Grouped(xs[..i])
    {
      var c := xs[i];
      var j := 0;
      while j < |unique| && Desc(unique[j]) != Desc(c)
        invariant 0 <= j <= |unique|
        invariant forall l :: 0 <= l < j ==> Desc(unique[l]) != Desc(c)
      {
        j := j + 1;
      }
      FirstWithAt(unique, Desc(c), j);
      GroupedPrefixStep(xs, i);
      if j < |unique| {
        unique := unique[j := unique[j].(index := unique[j].index + c.index)];
      } else {
        unique := unique + [c];
      }
      i := i + 1;
    }
    assert xs[..i] == xs;
  }

  // ---------------------------------------------------------------------
  // Roll effects (hasRollEffect)
  // ---------------------------------------------------------------------

  /** Whether some change has the given mode. */
  function SomeMode(cs: seq<Change>, mode: int): (b: bool)
    ensures b <==> exists i :: 0 <= i < |cs| && cs[i].mode == mode
    decreases |cs|
  {
    if cs == [] then false
    else cs[0].mode == mode || SomeMode(cs[1..], mode)
  }

  // ---------------------------------------------------------------------
  // The effect
  // ---------------------------------------------------------------------

  /** An active effect: its changes, whether it is disabled, its origin
      (a dotted document id, empty when unset), the document it is embedded
      in, its `requiresEquip` flag and the conditionals of its changes by
      position. */
  class ActiveEffect {
    var changes: seq<Change>
    var disabled: bool
    var origin: string
    var parent: Parent
    var requiresEquip: bool
    var changeConditionals: map<int, Conditional>

    constructor (changes: seq<Change>, disabled: bool, origin: string, parent: Parent,
                 requiresEquip: bool, changeConditionals: map<int, Conditional>)
      ensures this.changes == changes && this.disabled == disabled && this.origin == origin
      ensures this.parent == parent && this.requiresEquip == requiresEquip
      ensures this.changeConditionals == changeConditionals
    {
      this.changes := changes;
      this.disabled := disabled;
      this.origin := origin;
      this.parent := parent;
      this.requiresEquip := requiresEquip;
      this.changeConditionals := changeConditionals;
    }

    /** `apply(actor, change)`: a change referring to data with `@` is
        deferred onto one of the actor's queues; any other change is applied
        by the base implementation. */
    method Apply(actor: Actor, change: Change, gameReady: bool)
      modifies actor
      ensures Route(change.value, gameReady) == BaseApply ==>
                && actor.applied == old(actor.applied) + [change]
                && actor.postReadyEffects == old(actor.postReadyEffects)
                && actor.derivedEffects == old(actor.derivedEffects)
      ensures Route(change.value, gameReady) == PostReadyQueue ==>
                && actor.postReadyEffects == old(actor.postReadyEffects) + [change]
                && actor.derivedEffects == old(actor.derivedEffects)
                && actor.applied == old(actor.applied)
      ensures Route(change.value, gameReady) == DerivedQueue ==>
                && actor.derivedEffects == old(actor.derivedEffects) + [change]
                && actor.postReadyEffects == old(actor.postReadyEffects)
                && actor.applied == old(actor.applied)
      ensures old(actor.Valid()) ==> actor.Valid()
    {
      IncludesOneChar(change.value, '@');
      if Includes(change.value, "@") {
        if change.value == "@doom" && !gameReady {
          actor.postReadyEffects := actor.postReadyEffects + [change];
        } else {
          actor.derivedEffects := actor.derivedEffects + [change];
        }
      } else {
        actor.applied := actor.applied + [change];
      }
    }

    /** The `item` getter. */
    function ItemOf(): (r: Result<Option<Item>, JsError>)
      reads this
      ensures r.Failure? <==> parent.NoParent? && origin != ""
      ensures parent.ItemParent? ==> r == Success(Some(parent.item))
      ensures r.Success? && r.value.Some? && parent.ActorParent? ==> r.value.value in parent.items.Values
    {
      ResolveItem(parent, origin)
    }

    /** `prepareData()`: once the game is ready, an effect requiring its
        equippable item to be equipped, outside a compendium, is disabled
        exactly when the item is not equipped. */
    method PrepareData(gameReady: bool) returns (error: Option<JsError>)
      modifies this`disabled
      ensures var r := PreparedDisabled(old(disabled), gameReady, parent, origin, requiresEquip);
              && (r.Success? ==> error == None && disabled == r.value)
              && (r.Failure? ==> error == Some(r.error) && disabled == old(disabled))
    {
      if gameReady {
        var item := ItemOf();
        if item.Failure? {
          return Some(item.error);
        }
        if item.value.Some? && item.value.value.equippable && requiresEquip && !InPack(parent) {
          disabled := !item.value.value.equipped;
        }
      }
      return None;
    }

    /** The dialog changes before any condensing: the changes at positions
        `ps`, each with its conditional, this effect as document, the target
        flag and the single index `k + offset` for the `k`-th of them, and
        its value filled in for an effect on an actor. The first
        evaluation that throws ends the projection. */
    function Stamped(ps: seq<nat>, target: bool, offset: int, actors: map<string, RollData>,
                     eval: (string, RollData) -> EvalResult): (r: Result<seq<DialogChange>, JsError>)
      requires forall k :: 0 <= k < |ps| ==> ps[k] < |changes|
      reads this
      ensures r.Failure? ==> r.error == EvalError
      ensures r.Success? ==> |r.value| == |ps|
      decreases |ps|
    {
      if ps == [] then Success([])
      else
        var init := ps[..|ps| - 1];
        var p := ps[|ps| - 1];
        assert forall k :: 0 <= k < |init| ==> init[k] == ps[k];
        match Stamped(init, target, offset, actors, eval)
        case Failure(e) => Failure(e)
        case Success(xs) =>
          match Filled(parent, changes[p].value, actors, eval)
          case Failure(e) => Failure(e)
          case Success(v) =>
            Success(xs + [DialogChange(changes[p].(value := v), ConditionalAt(changeConditionals, p), this, target, [|xs| + offset])])
    }

    /** The projection fails exactly when filling in one of the selected
        values throws. */
    lemma {:induction false} StampedFails(ps: seq<nat>, target: bool, offset: int, actors: map<string, RollData>,
                                          eval: (string, RollData) -> EvalResult)
      requires forall k :: 0 <= k < |ps| ==> ps[k] < |changes|
      ensures Stamped(ps, target, offset, actors, eval).Failure? <==>
                exists k :: 0 <= k < |ps| && Filled(parent, changes[ps[k]].value, actors, eval).Failure?
      decreases |ps|
    {
      if ps != [] {
        var init := ps[..|ps| - 1];
        assert forall k :: 0 <= k < |init| ==> init[k] == ps[k];
        StampedFails(init, target, offset, actors, eval);
      }
    }

    /** On success, the `k`-th dialog change is a copy of the `k`-th selected
        change with its value filled in, its conditional, this effect, the
        target flag and the index `k + offset`. */
    lemma StampedEntries(ps: seq<nat>, target: bool, offset: int, actors: map<string, RollData>,
                         eval: (string, RollData) -> EvalResult)
      requires forall k :: 0 <= k < |ps| ==> ps[k] < |changes|
      requires Stamped(ps, target, offset, actors, eval).Success?
      ensures forall k :: 0 <= k < |ps| ==>
                && Filled(parent, changes[ps[k]].value, actors, eval).Success?
                && Stamped(ps, target, offset, actors, eval).value[k] ==
                     DialogChange(changes[ps[k]].(value := Filled(parent, changes[ps[k]].value, actors, eval).value),
                                  ConditionalAt(changeConditionals, ps[k]), this, target, [k + offset])
    {
      forall k | 0 <= k < |ps|
        ensures && Filled(parent, changes[ps[k]].value, actors, eval).Success?
                && Stamped(ps, target, offset, actors, eval).value[k] ==
                     DialogChange(changes[ps[k]].(value := Filled(parent, changes[ps[k]].value, actors, eval).value),
                                  ConditionalAt(changeConditionals, ps[k]), this, target, [k + offset])
      {
        StampedEntry(ps, k, target, offset, actors, eval);
      }
    }

    /** The filling of the `k`-th selected value of a successful projection
        succeeded. */
    lemma {:induction false} StampedFilled(ps: seq<nat>, k: nat, target: bool, offset: int,
                                           actors: map<string, RollData>, eval: (string, RollData) -> EvalResult)
      requires forall j :: 0 <= j < |ps| ==> ps[j] < |changes|
      requires Stamped(ps, target, offset, actors, eval).Success? && k < |ps|
      ensures Filled(parent, changes[ps[k]].value, actors, eval).Success?
      decreases |ps|
    {
      var n := |ps| - 1;
      var init := ps[..n];
      assert forall j :: 0 <= j < n ==> init[j] == ps[j];
      if k < n {
        StampedFilled(init, k, target, offset, actors, eval);
      }
    }

    /** The `k`-th dialog change of a successful projection, one at a time. */
    lemma {:induction false} StampedEntry(ps: seq<nat>, k: nat, target: bool, offset: int,
                                          actors: map<string, RollData>, eval: (string, RollData) -> EvalResult)
      requires forall j :: 0 <= j < |ps| ==> ps[j] < |changes|
      requires Stamped(ps, target, offset, actors, eval).Success? && k < |ps|
      ensures Filled(parent, changes[ps[k]].value, actors, eval).Success?
      ensures Stamped(ps, target, offset, actors, eval).value[k] ==
                DialogChange(changes[ps[k]].(value := Filled(parent, changes[ps[k]].value, actors, eval).value),
                             ConditionalAt(changeConditionals, ps[k]), this, target, [k + offset])
      decreases |ps|
    {
      StampedFilled(ps, k, target, offset, actors, eval);
      var n := |ps| - 1;
      var init := ps[..n];
      assert forall j :: 0 <= j < n ==> init[j] == ps[j];
      var xs := Stamped(init, target, offset, actors, eval).value;
      StampedStep(ps, n, target, offset, actors, eval, xs);
      assert ps[..n + 1] == ps;
      if k < n {
        StampedEntry(init, k, target, offset, actors, eval);
        assert init[k] == ps[k];
      }
    }

    lemma {:induction false} StampedPrefixFails(ps: seq<nat>, n: nat, target: bool, offset: int,
                                                actors: map<string, RollData>, eval: (string, RollData) -> EvalResult)
      requires n <= |ps|
      requires forall k :: 0 <= k < |ps| ==> ps[k] < |changes|
      requires Stamped(ps[..n], target, offset, actors, eval).Failure?
      ensures Stamped(ps, target, offset, actors, eval) == Failure(EvalError)
      decreases |ps| - n
    {
      if n == |ps| {
        assert ps[..n] == ps;
      } else {
        assert ps[..n + 1][..n] == ps[..n];
        StampedPrefixFails(ps, n + 1, target, offset, actors, eval);
      }
    }

    /** Condensing a successful projection keeps one index per selected
        change. */
    lemma DialogIndicesTotal(ps: seq<nat>, target: bool, offset: int, actors: map<string, RollData>,
                             eval: (string, RollData) -> EvalResult)
      requires forall k :: 0 <= k < |ps| ==> ps[k] < |changes|
      requires Stamped(ps, target, offset, actors, eval).Success?
      ensures TotalIndices(Grouped(Stamped(ps, target, offset, actors, eval).value)) == |ps|
    {
      var xs := Stamped(ps, target, offset, actors, eval).value;
      StampedEntries(ps, target, offset, actors, eval);
      SingletonIndicesTotal(xs);
      GroupedTotal(xs);
    }

    /** Copies of all changes, each with its conditional and this effect. */
    method AttachAll() returns (all: seq<DialogChange>)
      ensures |all| == |changes|
      ensures forall k :: 0 <= k < |all| ==>
                all[k] == DialogChange(changes[k], ConditionalAt(changeConditionals, k), this, false, [])
    {
      all := [];
      var i := 0;
      while i < |changes|
        invariant 0 <= i <= |changes| && |all| == i
        invariant forall k :: 0 <= k < i ==>
                    all[k] == DialogChange(changes[k], ConditionalAt(changeConditionals, k), this, false, [])
      {
        all := all + [DialogChange(changes[i], ConditionalAt(changeConditionals, i), this, false, [])];
        i := i + 1;
      }
    }

    /** The copies whose change has the given mode, in order. */
    method FilterMode(all: seq<DialogChange>, mode: int) returns (dialog: seq<DialogChange>)
      requires |all| == |changes|
      requires forall k :: 0 <= k < |all| ==> all[k].change == changes[k]
      ensures |dialog| == |Selected(changes, mode)|
      ensures forall k :: 0 <= k < |dialog| ==> dialog[k] == all[Selected(changes, mode)[k]]
    {
      dialog := [];
      var i := 0;
      while i < |all|
        invariant 0 <= i <= |all|
        invariant |dialog| == |Selected(changes[..i], mode)|
        invariant forall k :: 0 <= k < |dialog| ==> dialog[k] == all[Selected(changes[..i], mode)[k]]
      {
        assert changes[..i + 1][..i] == changes[..i];
        if all[i].change.mode == mode {
          dialog := dialog + [all[i]];
        }
        i := i + 1;
      }
      assert changes[..|all|] == changes;
    }

    /** One more selected change extends the stamped prefix by that change
        with its references filled, or fails with the filling's error. */
    lemma StampedStep(ps: seq<nat>, i: nat, target: bool, offset: int, actors: map<string, RollData>,
                      eval: (string, RollData) -> EvalResult, xs: seq<DialogChange>)
      requires i < |ps|
      requires forall k :: 0 <= k < |ps| ==> ps[k] < |changes|
      requires Stamped(ps[..i], target, offset, actors, eval) == Success(xs)
      ensures |xs| == i
      ensures Filled(parent, changes[ps[i]].value, actors, eval).Failure? ==>
                Stamped(ps[..i + 1], target, offset, actors, eval) == Failure(EvalError)
      ensures Filled(parent, changes[ps[i]].value, actors, eval).Success? ==>
                Stamped(ps[..i + 1], target, offset, actors, eval) ==
                Success(xs + [DialogChange(changes[ps[i]].(value := Filled(parent, changes[ps[i]].value, actors, eval).value),
                                           ConditionalAt(changeConditionals, ps[i]), this, target, [i + offset])])
    {
      assert ps[..i + 1][..i] == ps[..i];
      assert ps[..i + 1][i] == ps[i];
    }

    /** Sets the target flag and index of each selected copy and fills in its
        value; stops at the first evaluation that throws. */
    method StampAll(dialog: seq<DialogChange>, ghost ps: seq<nat>, target: bool, indexOffset: int,
                    actors: map<string, RollData>, eval: (string, RollData) -> EvalResult)
      returns (r: Result<seq<DialogChange>, JsError>)
      requires |dialog| == |ps|
      requires forall k :: 0 <= k < |ps| ==> ps[k] < |changes|
      requires forall k :: 0 <= k < |ps| ==>
                 dialog[k] == DialogChange(changes[ps[k]], ConditionalAt(changeConditionals, ps[k]), this, false, [])
      ensures r == Stamped(ps, target, indexOffset, actors, eval)
    {
      var stamped: seq<DialogChange> := [];
      var i := 0;
      while i < |dialog|
        invariant 0 <= i <= |dialog|
        invariant Stamped(ps[..i], target, indexOffset, actors, eval) == Success(stamped)
      {
        StampedStep(ps, i, target, indexOffset, actors, eval, stamped);
        var c := dialog[i].(target := target, index := [i + indexOffset]);
        var filled := Filled(parent, c.change.value, actors, eval);
        if filled.Failure? {
          StampedPrefixFails(ps, i + 1, target, indexOffset, actors, eval);
          return Failure(filled.error);
        }
        stamped := stamped + [c.(change := c.change.(value := filled.value))];
        i := i + 1;
      }
      assert ps[..|dialog|] == ps;
      return Success(stamped);
    }

    /** `getDialogChanges({target, condense, indexOffset})`: the changes of
        the dialog's mode (7 for the target, 6 for oneself), in order, each
        a copy carrying its conditional, this effect, the target flag and
        its position plus `indexOffset` as its index, with references filled
        in for an effect on an actor; when condensing, one entry per
        conditional description. The effect itself is not modified. */
    method GetDialogChanges(target: bool, condense: bool, indexOffset: int,
                            actors: map<string, RollData>, eval: (string, RollData) -> EvalResult)
      returns (r: Result<seq<DialogChange>, JsError>)
      ensures var stamped := Stamped(Selected(changes, DialogMode(target)), target, indexOffset, actors, eval);
              && (stamped.Failure? ==> r == Failure(EvalError))
              && (stamped.Success? && !condense ==> r == stamped)
              && (stamped.Success? && condense ==> r == Success(Grouped(stamped.value)))
    {
      var all := AttachAll();
      var mode := DialogMode(target);
      var dialog := FilterMode(all, mode);
      r := StampAll(dialog, Selected(changes, mode), target, indexOffset, actors, eval);
      if r.Success? && condense {
        var unique := Condense(r.value);
        r := Success(unique);
      }
    }

    /** `hasRollEffect`: some change has the custom mode 0. */
    function HasRollEffect(): (b: bool)
      reads this
      ensures b <==> exists i :: 0 <= i < |changes| && changes[i].mode == CustomMode
    {
      SomeMode(changes, CustomMode)
    }
  }
}
