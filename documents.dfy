/** The records the effect code reads from its host: changes, per-change
    conditionals, items and their durations, the document an effect is
    attached to, and the exceptions that escape the effect code. */
module Documents {
  import opened Results
  import opened JsValue

  /** One change of an active effect: the attribute key it modifies, its
      value text (which may hold `@` references) and its application mode. */
  datatype Change = Change(key: string, value: string, mode: int)

  /** Mode 0, the custom mode; an effect with such a change has a roll effect. */
  const CustomMode := 0
  /** Mode 6: a change offered in the dialog of the actor performing a test. */
  const SelfDialogMode := 6
  /** Mode 7: a change offered in the dialog of the target of a test. */
  const TargetDialogMode := 7

  /** The conditional attached to a change by its index (the effect's
      `changeCondition` flag); a missing one reads as `{}`. */
  datatype Conditional = Conditional(description: Option<string>, script: Option<string>)

  const NoConditional := Conditional(None, None)

  /** A duration as items and test results state it: a unit name and a
      value (`None` when the value is undefined). */
  datatype DurationSpec = DurationSpec(unit: string, value: Option<Json>)

  /** The item properties the effect code reads. */
  datatype Item = Item(id: string, equippable: bool, equipped: bool, duration: Option<DurationSpec>)

  /** An actor's roll data: the values formula references resolve against. */
  type RollData = map<string, Json>

  /** The document an effect is embedded in: none, an item, or an actor
      (with its id, owned items by id, and roll data). `inPack` says the
      document sits in a compendium pack. */
  datatype Parent =
    | NoParent
    | ItemParent(item: Item, inPack: bool)
    | ActorParent(id: string, items: map<string, Item>, rollData: RollData, inPack: bool)

  /** Exceptions that escape the effect code: a property read on `undefined`
      (TypeError) and an exception thrown while evaluating a formula. */
  datatype JsError = TypeError | EvalError
}
