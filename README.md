# Age of Sigmar: Soulbound active effects, modelled in Dafny

This project models `AgeOfSigmarEffect`, the active-effect class of the Age of
Sigmar: Soulbound game system for Foundry VTT (`scripts/system/effect.js`), and
proves properties of the model. The class does five things, and the model has
a part for each:

- **Routing changes (`apply`).** A change whose value holds `@` is put on one
  of the actor's two deferred queues, and any other change goes to the base
  `ActiveEffect.apply`. `@doom` waits for the game to be ready; every other
  reference waits for the actor's derived data.
- **Equip gating (`prepareData` and the `item` getter).** An effect finds its
  item from its parent or from its dotted origin. Once the game is ready, an
  effect that requires its equippable item to be equipped, outside a
  compendium, is disabled exactly when that item is not equipped.
- **Cross-actor references (`fillDerivedData`).** The value
  `@UUID[Actor.<id>].system.<path>` is recognised as its regular expression
  recognises it. It is then evaluated as `@<path>` against the roll data of
  actor `<id>`, or left alone when no such actor exists.
- **Dialog projection (`getDialogChanges`).** The changes of mode 7 (for the
  target's dialog) or mode 6 (for one's own dialog) are copied, in order. Each
  copy gets its conditional and the index `k + indexOffset`. The copies can be
  condensed to one entry per conditional description, each standing for the
  indices of every change that shares that description.
- **Effect synthesis (`populateEffectData`).** A test's outcome becomes effect
  data: the origin, the status id, a duration in rounds or seconds, and
  rewritten change values. Rewriting handles `@test.<path>` lookups, the
  `Actor.ID` placeholder, `parseInt` and the fall-back to `0`.

The JavaScript the code relies on is modelled exactly where it decides an
outcome:

- `split`, `join`, `includes` and `replace` (first occurrence only);
- ECMAScript white space;
- `parseInt`, including its `0x` prefix and its NaN;
- Foundry's `Number.isNumeric`, through the StringNumericLiteral grammar that
  ECMA-262 uses to convert a string to a number;
- `getProperty`, as a walk along the dotted segments of a key.

The model returns these exceptions as results. These are the `TypeError`s:

- reading `split[0]` of `@test` alone;
- reading the duration of a missing item;
- reading the parent of a parentless effect that has an origin;
- calling `split` on a number.

An exception thrown by the evaluated formula is returned too. Other throws
are ruled out by the model's types, because every record it reads has the
fields the code reads. Each of these is listed under "Left out".

Modules:

- `Results`: option and result types.
- `JsString`, `JsNumber` and `JsValue`: the JavaScript built-ins above.
- `ActorReference`: the matcher for `/@UUID\[Actor\.(.+?)\]\.system\.(.+)/`.
- `Documents`: the records the effect reads.
- `Synthesis`: `populateEffectData`, with the effect data as a class it updates
  in place.
- `Effects`: the actor's queues as a class, the effect as a class, the item
  getter, equip gating, reference filling, and the dialog projection with its
  condensing fold.

Three behaviours of the code are easy to miss:

- **Exceptions from the formula are not caught.** `fillDerivedData` has no
  `try` (scripts/system/effect.js:48). An exception from the formula
  therefore leaves `getDialogChanges`. `Effects.FillDerived` and
  `Effects.ActiveEffect.GetDialogChanges` return it as `EvalError`.
- **A reference to a missing actor leaves the change in place.**
  `fillDerivedData` returns early (scripts/system/effect.js:43-44) and does
  not touch the change's value. The change stays among the dialog changes
  with its reference text unchanged.
- **A parentless effect with an origin throws.** The item getter returns no
  item for a mismatched origin id. But an effect without a parent and with
  an origin throws a `TypeError`, because the getter reads the parent's
  document name (scripts/system/effect.js:62).

## Model

| member | source | states |
|---|---|---|
| `Effects.Route` | scripts/system/effect.js:17-23 | a value without `@` goes to the base apply; exactly `@doom` before the game is ready goes to the post-ready queue; every other `@` value goes to the derived queue (each as an if-and-only-if) |
| `Effects.ActiveEffect.Apply` | scripts/system/effect.js:16-29 | the change is appended to the end of exactly the queue (or base-apply log) its route names; the other two are unchanged; queued changes stay where routing sends them |
| `Effects.ResolveItem` | scripts/system/effect.js:59-73 | an item parent is the item; a parentless effect with an origin throws `TypeError` and nothing else throws; for an actor, an empty origin gives no item, and otherwise the result is the owned item named by segment 3 when segment 1 is the actor's id and segment 3 is non-empty (no item when the actor has no such item), and no item in every other case |
| `Effects.OwnedItemOriginSegments` | scripts/system/effect.js:64 | the origin `Actor.<a>.Item.<i>` splits on `.` into exactly its four parts |
| `Effects.ResolveOwnItem` | scripts/system/effect.js:62-70 | an origin naming an item of the effect's own actor resolves to that owned item, or to none when the actor lacks it |
| `Effects.ResolveOtherActorsItem` | scripts/system/effect.js:64-65 | an origin naming another actor's item resolves to no item |
| `Effects.PreparedDisabled` | scripts/system/effect.js:6-11 | before the game is ready the flag is kept; it fails exactly when resolving the item throws; it changes only under the full guard (ready, item, equippable, requires equip, not in a pack), and then to "not equipped" |
| `Effects.InPack` | scripts/system/effect.js:8 | `this.parent.pack`: the parent's compendium flag, false without a parent |
| `Effects.PreparedDisabledIdempotent` | scripts/system/effect.js:6-11 | preparing a second time leaves the flag as the first preparation set it |
| `Effects.PreparedDisabledFollowsItem` | scripts/system/effect.js:8-9 | under the guard the flag is "not equipped" whatever it was before (level-triggered) |
| `Effects.ActiveEffect.ItemOf` | scripts/system/effect.js:59-73 | the getter throws exactly for a parentless effect with an origin; an item parent is the item; an item found for an actor is one of its owned items |
| `Effects.ActiveEffect.PrepareData` | scripts/system/effect.js:6-11 | `disabled` becomes the prepared flag, or stays and the `TypeError` is returned |
| `Effects.Stored` | scripts/system/effect.js:51-55 | storing fails exactly when the evaluation threw, and then with `EvalError` |
| `Effects.StoredNumberReadsBack` | scripts/system/effect.js:51-55 | a number is stored as text that `parseInt` reads back as that number and that is numeric |
| `Effects.FillDerived` | scripts/system/effect.js:32-57 | the only failure is an evaluation error |
| `Effects.FillDerivedOfReference` | scripts/system/effect.js:35-46 | a reference to an existing actor is evaluated as `@<path>` against that actor's roll data; a reference to a missing actor leaves the value unchanged |
| `Effects.FillDerivedOfMatch` | scripts/system/effect.js:35-55 | for any value, when the leftmost match with the shortest id names an existing actor, `@<path>` is evaluated against that actor's roll data and stored; for a missing actor the value is kept |
| `Effects.FillDerivedWithoutMatch` | scripts/system/effect.js:35-55 | a value the pattern matches nowhere is evaluated against the effect's own actor and stored |
| `Effects.FillDerivedWithoutReference` | scripts/system/effect.js:35-48 | a value without `@UUID[Actor.` is evaluated against the effect's own actor |
| `ActorReference.FirstReferenceNeedsHead` | scripts/system/effect.js:35 | a reference can only be found in text that contains `@UUID[Actor.` |
| `ActorReference.FirstReference` | scripts/system/effect.js:35 | a match found is a reference at some position, with a non-empty id and path free of line breaks, the path running to the end of the line |
| `ActorReference.MatchAt` | scripts/system/effect.js:35 | a match found at a position is a reference starting there |
| `ActorReference.MatchFrom` | scripts/system/effect.js:35 | a match found from a position is a reference starting at that position or later |
| `ActorReference.ReferenceAtCut` | scripts/system/effect.js:35 | a match is the head, an id that ends where `].system.` and a line character follow, and the rest of the line as the path |
| `ActorReference.ReferenceAtUnique` | scripts/system/effect.js:35 | two matches at one position with ids of the same length are the same match |
| `ActorReference.MatchIdSpec` | scripts/system/effect.js:35 | the lazy id group ends at the first possible end, with the rest of that line as the path; it finds nothing exactly when no end is possible |
| `ActorReference.MatchAtSpec` | scripts/system/effect.js:35 | no match starts at a position where `MatchAt` finds none; a match it finds has the shortest id of all matches there |
| `ActorReference.MatchFromSpec` | scripts/system/effect.js:35 | MatchFrom returns what MatchAt finds at the first position, from the start position on, where it finds anything; it returns nothing exactly when MatchAt finds nothing from there on |
| `ActorReference.MatchFromNone` | scripts/system/effect.js:35 | when MatchFrom finds nothing, MatchAt finds nothing at any position from the start position to the end |
| `ActorReference.MatchFromSome` | scripts/system/effect.js:35 | when MatchFrom finds something, it is what MatchAt finds at some position from the start on, and MatchAt finds nothing before that position |
| `ActorReference.FirstReferenceIsLeftmostShortest` | scripts/system/effect.js:35-39 | the match found is the leftmost one with the shortest id; nothing is found only when the pattern matches nowhere |
| `ActorReference.LeftmostShortestUnique` | scripts/system/effect.js:35 | there is one leftmost match with the shortest id |
| `ActorReference.FirstReferenceSpec` | scripts/system/effect.js:35-39 | the groups found are exactly those of the leftmost match with the shortest id |
| `ActorReference.FirstReferenceNone` | scripts/system/effect.js:35-37 | nothing is found exactly when the pattern matches nowhere |
| `ActorReference.LongerIdExample` | scripts/system/effect.js:35 | in `@UUID[Actor.a].system.b].system.c` the pattern can match the id `a].system.b` |
| `ActorReference.LazyIdExample` | scripts/system/effect.js:35-39 | in the same text the lazy group takes the id `a` and the path `b].system.c` |
| `ActorReference.MatchId` | scripts/system/effect.js:35 | the lazy id group yields groups that satisfy the pattern from where the id starts |
| `ActorReference.FirstReferenceOfText` | scripts/system/effect.js:35-39 | a reference written out with an id free of `]` and line breaks is recognised with exactly that id and path |
| `Effects.ConditionalAtStored` | scripts/system/effect.js:78 | the conditional stored for the position, or the empty conditional `{}` when none is |
| `Effects.DialogMode` | scripts/system/effect.js:81 | mode 7 exactly for the target's dialog, mode 6 exactly for one's own |
| `Effects.Selected` | scripts/system/effect.js:81 | the positions of exactly the changes of the mode, strictly increasing |
| `Effects.Filled` | scripts/system/effect.js:85-86 | values of effects not on an actor are left as they are; failures are evaluation errors |
| `Effects.ActiveEffect.Stamped` | scripts/system/effect.js:82-87 | one dialog change per selected position; failures are evaluation errors |
| `Effects.ActiveEffect.StampedFails` | scripts/system/effect.js:82-87 | the projection fails exactly when filling one selected value throws |
| `Effects.ActiveEffect.StampedEntries` | scripts/system/effect.js:76-87 | the k-th dialog change is a copy of the k-th selected change with its value filled in, its conditional (or `{}`), this effect, the target flag and the index `[k + indexOffset]` |
| `Effects.ActiveEffect.StampedEntry` | scripts/system/effect.js:76-87 | for one position k of a successful projection: the filling of the k-th selected value succeeded, and the k-th dialog change is its copy with that value, its conditional, this effect, the target flag and the index `[k + indexOffset]` |
| `Effects.ActiveEffect.StampedFilled` | scripts/system/effect.js:83-86 | in a successful projection the filling of every selected value succeeded |
| `Effects.ActiveEffect.StampedPrefixFails` | scripts/system/effect.js:82-87 | a failure in a prefix of the selected changes fails the whole projection |
| `Effects.ActiveEffect.StampedStep` | scripts/system/effect.js:76-87 | one more selected change extends the stamped prefix by its filled copy, or fails with an evaluation error |
| `Effects.ActiveEffect.AttachAll` | scripts/system/effect.js:76-80 | a copy of every change, in order, carrying its conditional and this effect |
| `Effects.ActiveEffect.FilterMode` | scripts/system/effect.js:81 | the copies at exactly the selected positions, in order |
| `Effects.ActiveEffect.StampAll` | scripts/system/effect.js:82-87 | the loop computes the projection, stopping at the first evaluation that throws |
| `Effects.ActiveEffect.GetDialogChanges` | scripts/system/effect.js:75-105 | a failing projection returns the evaluation error; otherwise the projection itself, or its condensation when condensing; the effect is not modified |
| `Effects.FirstWith` | scripts/system/effect.js:95 | the first entry with the description, or the end when none has it |
| `Effects.FirstWithAt` | scripts/system/effect.js:95 | the first position is the one before which no entry has the description |
| `Effects.FirstWithAppend` | scripts/system/effect.js:94-99 | appending an entry does not move the first entry of a description already present |
| `Effects.FirstWithSameDescs` | scripts/system/effect.js:95 | first positions depend only on the descriptions |
| `Effects.IndicesOfAbsent` | scripts/system/effect.js:97 | a description no entry has collects no indices |
| `Effects.Absorb` | scripts/system/effect.js:94-100 | a step adds at most one group, and adds one exactly when no group has the entry's description |
| `Effects.Grouped` | scripts/system/effect.js:91-102 | condensing never adds entries, and yields none only for no entries |
| `Effects.GroupedCondenses` | scripts/system/effect.js:91-102 | the condensed entries have distinct descriptions, every entry's description has a group, and every group's description comes from some entry |
| `Effects.AbsorbCondenses` | scripts/system/effect.js:94-100 | each step of the fold keeps that condensation property |
| `Effects.AbsorbGroupsOccur` | scripts/system/effect.js:94-100 | after a step every group's description occurs among the entries |
| `Effects.AbsorbIntoGroup` | scripts/system/effect.js:96-97 | joining an existing group keeps descriptions distinct and covering |
| `Effects.AbsorbAsNewGroup` | scripts/system/effect.js:98-99 | a new description opens a last group distinct from the others |
| `Effects.GroupedEntries` | scripts/system/effect.js:94-100 | each condensed entry is the first entry with its description, its index list the in-order concatenation of the index lists of all entries with that description |
| `Effects.AbsorbKeepsEntries` | scripts/system/effect.js:94-100 | each step of the fold keeps every group the first entry with its description, standing for all indices with that description |
| `Effects.OldGroupStep` | scripts/system/effect.js:96-97 | an existing group keeps its first entry and gains the new entry's indices exactly when the descriptions match |
| `Effects.NewGroupStep` | scripts/system/effect.js:98-99 | a new group is the new entry, first with its description, standing for its own indices only |
| `Effects.NewDescriptionFirstAtEnd` | scripts/system/effect.js:95-99 | a description no group has yet occurs first at the new entry |
| `Effects.GroupedPrefixStep` | scripts/system/effect.js:94 | condensing one more entry is one more step of the fold |
| `Effects.SingletonIndicesTotal` | scripts/system/effect.js:84 | entries with one index each stand for as many indices as entries |
| `Effects.TotalIndicesUpdate` | scripts/system/effect.js:97 | appending indices to one entry adds their number to the total |
| `Effects.GroupedTotal` | scripts/system/effect.js:91-102 | condensing preserves the total number of indices |
| `Effects.GroupedInFirstAppearanceOrder` | scripts/system/effect.js:94-99 | condensed entries are ordered by the first appearance of their descriptions |
| `Effects.AbsorbKeepsOrder` | scripts/system/effect.js:94-99 | each step of the fold keeps the groups in first-appearance order |
| `Effects.ActiveEffect.DialogIndicesTotal` | scripts/system/effect.js:82-102 | condensing a successful projection keeps one index per selected change |
| `Effects.Condense` | scripts/system/effect.js:91-102 | the loop with its inner `find` computes the condensation |
| `Effects.SomeMode` | scripts/system/effect.js:178 | true exactly when some change has the mode |
| `Effects.ActiveEffect.HasRollEffect` | scripts/system/effect.js:177-179 | true exactly when some change has mode 0 |
| `Synthesis.ChosenDuration` | scripts/system/effect.js:119-123 | the test result's duration wins; otherwise the duration of the item passed in; without one, the duration of the test's item; it throws `TypeError` exactly when there is no result duration and no item |
| `Synthesis.DurationAfter` | scripts/system/effect.js:124-134 | at most one of rounds and seconds changes; a duration in rounds sets the rounds to its parsed value; one in minutes, hours or days sets the seconds to its converted value and keeps the rounds; no duration, or another unit, changes nothing |
| `Synthesis.DurationAfterOfInteger` | scripts/system/effect.js:124-134 | a value reading as `n` sets the rounds to `n`, or the seconds to `60n`, `3600n` or `86400n`, and keeps the other field |
| `Synthesis.ConvertDuration` | scripts/system/effect.js:124-134 | `round` sets rounds to the `parseInt` of the value; `minute`, `hour` and `day` set seconds, NaN exactly when `parseInt` is; any other unit changes nothing |
| `Synthesis.UnitUpdate` | scripts/system/effect.js:126-133 | the same per unit, for an already parsed count |
| `Synthesis.ConvertDurationOfInteger` | scripts/system/effect.js:126-133 | a value reading as `n` gives `n` rounds or `60n`, `3600n`, `86400n` seconds |
| `Synthesis.UnitUpdateOfInteger` | scripts/system/effect.js:126-133 | the same for a parsed count `n` |
| `Synthesis.DurationUnitsAgree` | scripts/system/effect.js:129-133 | a day lasts as long as 24 hours and an hour as long as 60 minutes |
| `Synthesis.CoerceChange` | scripts/system/effect.js:140-160 | the rewrite throws `TypeError` exactly for a number or `@test` alone; a value left as text holds a `@UUID` reference |
| `Synthesis.TestAloneSplit` | scripts/system/effect.js:140-147 | only `@test` splits into the single segment `@test` |
| `Synthesis.CoerceIntegerText` | scripts/system/effect.js:157-158 | an integer written as text becomes that integer |
| `Synthesis.TestPathSplit` | scripts/system/effect.js:140-147 | `@test.<key>` splits into `@test` followed by the segments of the key |
| `Synthesis.CoerceTestProperty` | scripts/system/effect.js:143-158 | `@test.<key>` with a numeric property becomes the `parseInt` of that property of the test |
| `Synthesis.CoerceTestNumber` | scripts/system/effect.js:143-158 | `@test.<key>` naming the number `n` becomes `n` |
| `Synthesis.CoercePlainText` | scripts/system/effect.js:157-160 | text that is not numeric, not a test lookup and holds no `@UUID` becomes 0 |
| `Synthesis.CoerceNumericText` | scripts/system/effect.js:157-158 | numeric text that is not a test lookup becomes its `parseInt` |
| `Synthesis.CoerceTestNonNumeric` | scripts/system/effect.js:143-160 | `@test.<key>` naming nothing numeric, without `@UUID`, becomes 0 |
| `Synthesis.CoerceEmptyText` | scripts/system/effect.js:157-158 | the empty text is numeric, and so becomes `parseInt("")`, which is NaN |
| `Synthesis.CoerceWordIsZero` | scripts/system/effect.js:159-160 | `abc` becomes 0 |
| `Synthesis.ReplacePlaceholder` | scripts/system/effect.js:154 | replacing the first `Actor.ID` in the placeholder reference names the given actor |
| `Synthesis.CoerceUuidText` | scripts/system/effect.js:152-160 | a non-numeric text whose first segment mentions `@UUID` gets its `Actor.ID` placeholder replaced and stays text |
| `Synthesis.PlaceholderKeepsUuid` | scripts/system/effect.js:154-159 | replacing the first `Actor.ID` keeps every text that mentions `@UUID` mentioning it |
| `Synthesis.CoerceNonNumericUuid` | scripts/system/effect.js:152-160 | a non-numeric, non-test text mentioning `@UUID` anywhere stays text: the placeholder is replaced when the first segment mentions `@UUID`, and the text is kept as it is otherwise |
| `Synthesis.CoerceTestNonNumericUuid` | scripts/system/effect.js:143-160 | `@test.<key>` naming nothing numeric, with `@UUID` in it, stays text: the placeholder is replaced when the key's first segment mentions `@UUID`, and the text is kept as it is otherwise |
| `Synthesis.CoercePlaceholderReference` | scripts/system/effect.js:152-160 | a placeholder reference is pointed at the testing actor, stays text, and is then recognised as a reference to that actor with the same path |
| `Synthesis.FirstFailure` | scripts/system/effect.js:138 | the first change whose rewrite throws, every earlier one rewriting successfully |
| `Synthesis.StepPastFirstFailure` | scripts/system/effect.js:138 | a change that rewrites successfully, not past the first failure, is before it |
| `Synthesis.CoerceAll` | scripts/system/effect.js:138-161 | rewriting keeps the number of changes |
| `Synthesis.CoerceAllOutcome` | scripts/system/effect.js:138-161 | keys and modes are kept; changes before the first failure are rewritten, that change and later ones are untouched; the error is the first failure's |
| `Synthesis.PopulateEffectData` | scripts/system/effect.js:112-167 | the origin becomes the testing actor's uuid; a missing status id becomes the slug of the label; a duration failure changes nothing else; otherwise the duration is converted and the changes rewritten in order |
| `Synthesis.SetDuration` | scripts/system/effect.js:123-134 | rounds or seconds are set as the converted duration says, nothing else changes |
| `Synthesis.PartlyCoerced` | scripts/system/effect.js:138-161 | the changes not yet reached are untouched and the number of changes is kept |
| `Synthesis.PartlyCoercedStep` | scripts/system/effect.js:138-158 | rewriting the next change, before the first failure, in place extends the rewritten prefix by one |
| `Synthesis.PartlyCoercedStops` | scripts/system/effect.js:138-161 | at the first failure, or at the end, the partly rewritten changes are those of `CoerceAll`, whose error is that failure's |
| `Synthesis.RewriteChanges` | scripts/system/effect.js:138-161 | the loop rewrites the changes in place as `CoerceAll` does and returns its error |
| `Synthesis.RewriteChange` | scripts/system/effect.js:139-160 | one pass rewrites the next change in place, or returns the first failure's error and changes nothing |
| `JsString.Split` | scripts/system/effect.js:140 | the pieces are at least one and none holds the separator |
| `JsString.JoinSplit` | scripts/system/effect.js:140-147 | joining the pieces of a split gives back the text |
| `JsString.SplitJoin` | scripts/system/effect.js:147 | splitting a join of separator-free pieces gives back the pieces |
| `JsString.SplitAfterPiece` | scripts/system/effect.js:140 | a separator-free start extends the first piece |
| `JsString.SplitFirstIsPrefix` | scripts/system/effect.js:152 | the first piece is a prefix of the text |
| `JsString.IndexOf` | scripts/system/effect.js:154 | the first occurrence of the pattern, or none |
| `JsString.IndexOfFrom` | scripts/system/effect.js:154 | the first occurrence at or after a position, or none |
| `JsString.IncludesIffOccurs` | scripts/system/effect.js:152 | `includes` holds exactly when the pattern occurs somewhere in the text |
| `JsString.IncludesThroughSuffix` | scripts/system/effect.js:152 | a pattern in a suffix is in the whole text |
| `JsString.IncludesThroughPrefix` | scripts/system/effect.js:152 | a pattern in a prefix is in the whole text |
| `JsString.IncludesOneChar` | scripts/system/effect.js:17 | `includes("@")` holds exactly when `@` is a character of the value |
| `JsString.ReplaceFirst` | scripts/system/effect.js:154 | text without the pattern is unchanged |
| `JsString.ReplaceFirstAt` | scripts/system/effect.js:154 | when the pattern first occurs at a position, exactly that occurrence is replaced and the text around it kept |
| `JsString.ReplaceFirstInLayout` | scripts/system/effect.js:154 | text laid out as a prefix without the pattern, the pattern and a rest becomes prefix, replacement and rest |
| `JsString.TrimStart` | scripts/system/effect.js:158 | a suffix of the text, empty or starting with a character that is not white space |
| `JsString.Trim` | scripts/system/effect.js:157 | no longer than the text, and empty or with neither end white space |
| `JsString.TrimStartRemovesBlanks` | scripts/system/effect.js:157 | `trimStart` removes leading white space and stops at the first other character |
| `JsString.TrimStartAt` | scripts/system/effect.js:157 | a text whose white space runs exactly to a position trims to the rest from there |
| `JsString.TrimEnd` | scripts/system/effect.js:157 | removes exactly the trailing white space |
| `JsString.TrimStartOfNonBlank` | scripts/system/effect.js:158 | a text not starting with white space is its own `trimStart` |
| `JsString.TrimOfNonBlankEnds` | scripts/system/effect.js:157 | a text with non-blank ends is its own trim |
| `JsString.TrimKeepsFirst` | scripts/system/effect.js:157 | trimming keeps a non-blank first character |
| `JsString.TrimBlank` | scripts/system/effect.js:157 | a blank text trims to empty |
| `JsNumber.Scale` | scripts/system/effect.js:129-133 | multiplying NaN gives NaN and only NaN |
| `JsNumber.DigitValue` | scripts/system/effect.js:158 | a digit's value is below 16, below 10 exactly for decimal digits |
| `JsNumber.DigitPrefix` | scripts/system/effect.js:158 | the longest prefix of digits of the radix |
| `JsNumber.ParseMagnitude` | scripts/system/effect.js:158 | no value for empty text or a bare `0x`; a value for text starting with a decimal digit and no `0x` prefix |
| `JsNumber.ParseSigned` | scripts/system/effect.js:158 | NaN for empty text; negative only after `-`; a non-negative integer for text starting with a decimal digit and no `0x` prefix |
| `JsNumber.ParseInt` | scripts/system/effect.js:158 | blank text gives NaN; a negative result needs a `-` in the text |
| `JsNumber.ParseIntOfNonDigit` | scripts/system/effect.js:158 | text starting with neither white space, nor a digit, nor a sign gives NaN |
| `JsNumber.IntToString` | scripts/system/effect.js:52 | non-empty; starts with `-` exactly for a negative number, and is all digits otherwise |
| `JsNumber.DigitChar` | scripts/system/effect.js:52 | the decimal digit of a value |
| `JsNumber.NatToString` | scripts/system/effect.js:52 | decimal digits without a leading zero, `0` for zero |
| `JsNumber.DigitsValueOfNatToString` | scripts/system/effect.js:52 | the digits written for `n` have the value `n` |
| `JsNumber.DigitPrefixOfRun` | scripts/system/effect.js:158 | `parseInt` reads digits up to the first non-digit |
| `JsNumber.MagnitudeOfNatToString` | scripts/system/effect.js:158 | the magnitude read from the digits of `m` is `m` |
| `JsNumber.DigitOrSignIsNotBlank` | scripts/system/effect.js:158 | digits and signs are not white space |
| `JsNumber.ParseSignedOfRun` | scripts/system/effect.js:158 | a sign and decimal digits read as the signed value |
| `JsNumber.DigitRunOfNatToString` | scripts/system/effect.js:158 | a natural number's decimal text, followed by a non-digit, starts with a digit and reads as that number |
| `JsNumber.ParseSignedTextOfNat` | scripts/system/effect.js:158 | a sign and a natural number's decimal text, followed by a non-digit, read back as the signed number |
| `JsNumber.ParseIntOfIntToStringThen` | scripts/system/effect.js:158 | `parseInt` of an integer's text followed by a non-digit gives the integer |
| `JsNumber.ParseIntOfIntToString` | scripts/system/effect.js:52 | `parseInt(n.toString())` is `n` |
| `JsNumber.ParseIntSkipsWhitespace` | scripts/system/effect.js:127 | `parseInt` ignores leading white space |
| `JsNumber.ExponentMarker` | scripts/system/effect.js:157 | the position of the first exponent marker, or the end |
| `JsNumber.DigitsAreDecimalLiteral` | scripts/system/effect.js:157 | a run of decimal digits is a decimal literal |
| `JsNumber.IntToStringIsNumeric` | scripts/system/effect.js:157 | the text of an integer is numeric |
| `JsNumber.NotNumericByFirstChar` | scripts/system/effect.js:157 | a text starting with a character no literal starts with is not numeric |
| `JsNumber.MantissaStart` | scripts/system/effect.js:157 | a mantissa starts with a digit or `.` |
| `JsNumber.BlankIsNumericButParsesToNaN` | scripts/system/effect.js:157-158 | blank text, the empty text included, is numeric for `Number.isNumeric`, yet `parseInt` gives NaN |
| `JsValue.ParseIntOf` | scripts/system/effect.js:158 | `undefined`, `null`, a boolean and an object give NaN |
| `JsValue.IsNumericOfString` | scripts/system/effect.js:157 | apart from a boolean, a value is numeric exactly when its `String(...)` form is numeric |
| `JsValue.NumberParsesToItself` | scripts/system/effect.js:157-158 | a number is numeric and `parseInt` gives it back |
| `JsValue.BooleanIsNumericButParsesToNaN` | scripts/system/effect.js:157-158 | a boolean is numeric, yet `parseInt` gives NaN |
| `JsValue.Walk` | scripts/system/effect.js:148 | the empty path reaches the value itself |
| `JsValue.GetProperty` | scripts/system/effect.js:148 | the empty key reads `undefined` |
| `JsValue.GetPropertyOfPath` | scripts/system/effect.js:148 | a key joined from dot-free segments follows exactly those segments |
| `JsValue.WalkAppend` | scripts/system/effect.js:148 | walking two paths in turn is walking their concatenation |

## Left out

- `sourceName` (scripts/system/effect.js:181-206) is not modelled. It tests
  the unbound global `length` instead of the length of the split origin, so
  its behaviour depends on the host's globals. It also reads scenes and
  drawings.
- `isCondition` and `numericTypes` are left out. They read the host's
  `CONFIG.statusEffects` or are a constant list that no modelled operation
  uses.
- The logging in `apply` and `fillDerivedData` is I/O and is left out.
- `super.apply` is foreign code. The model keeps a ghost log, `applied`, of
  the changes handed to it.
- `eval(Roll.replaceFormulaData(...))` is a parameter of the model, `eval`.
  It is a function from a formula and roll data to a number, a text or an
  exception. Other kinds of result (booleans, objects, `undefined`) are not
  modelled.
- Numbers are unbounded integers. Floating point, fractional `toString`
  output, and the float results of `Number(...)` are not modelled.
  `parseInt` yields an integer or NaN.
- `String.slugify` is a parameter of `Synthesis.PopulateEffectData`.
- `game.ready` is a parameter. `game.actors` is a map from actor ids to roll
  data.
- `getProperty` and `setProperty` on flags are plain fields. Examples are
  `changeConditionals` (a map from change position to conditional) and the
  status id (an empty text for a missing flag).
- `getProperty` walks plain objects only. Arrays and getters on the test
  object are not modelled.
- JSON values carry no arrays or floats.
- `JsString.ReplaceFirst` does not interpret the `$` patterns of
  `String.prototype.replace` in the replacement text. The replacement used,
  `Actor.<id>`, holds one only if the actor id does.
- Conditional descriptions are compared as optional texts. JavaScript's
  `null == undefined` is not modelled, since a description is a text or
  missing.
- The description getter (scripts/system/effect.js:173-175) is a plain
  property read and is not modelled.
- `populateEffectData` is `async` but awaits nothing. The model is
  synchronous.
- Deep cloning, and the `document` back-reference in each dialog change, are
  modelled as values and a reference to the effect. The method has no
  `modifies` clause, so the effect's own changes cannot change.
- Conditionals are shared by reference in the code: `getDialogChanges`
  (scripts/system/effect.js:78) does not clone `changeConditionals[i]`, so
  each dialog change holds the effect's own conditional object, and a caller
  that changes a returned conditional changes the stored effect. The model
  copies conditionals by value and does not capture this aliasing.
- `Effects.FillDerived`: its own contract states only that failures are
  evaluation errors. What it computes for any value is stated by
  `Effects.FillDerivedOfMatch`, through the leftmost match with the shortest
  id, and by `Effects.FillDerivedWithoutMatch`, for a value the pattern
  matches nowhere.
- `Synthesis.CoerceAll`: its own contract states only that the number of
  changes is kept. What it computes is stated by `Synthesis.CoerceAllOutcome`.
- `Effects.Stored`: its own contract states only when storing fails. That a
  number reads back is stated by `Effects.StoredNumberReadsBack`.
- `JsString.ReplaceFirst`: its own contract covers only text without the
  pattern. The replacement of the first occurrence is stated by
  `JsString.ReplaceFirstAt`.
- `Effects.Grouped`: its own contract bounds only the number of entries.
  What it computes is stated by `Effects.GroupedCondenses`,
  `Effects.GroupedEntries`, `Effects.GroupedTotal` and
  `Effects.GroupedInFirstAppearanceOrder`.
- `Effects.ActiveEffect.ItemOf`: its own contract states the error case and
  the item parent. Which owned item it returns is stated by
  `Effects.ResolveItem`, whose result it is.
- `JsNumber.ParseInt`, `JsNumber.ParseSigned` and `JsNumber.ParseMagnitude`:
  their own contracts cover empty text, signs and a leading digit. The
  values they read are stated by `JsNumber.ParseIntOfIntToString`,
  `JsNumber.ParseIntOfIntToStringThen` and `JsNumber.ParseIntSkipsWhitespace`.
- `JsValue.ParseIntOf`: its own contract covers values that are neither
  numbers nor texts. Numbers are stated by `JsValue.NumberParsesToItself`.
- `Number.isNumeric` on a text (`JsNumber.IsNumericString`) is a predicate
  defined by the grammar. What it accepts is stated by
  `JsNumber.IntToStringIsNumeric`, `JsNumber.NotNumericByFirstChar`,
  `JsNumber.BlankIsNumericButParsesToNaN` and `JsValue.IsNumericOfString`.
- `String(v)` (`JsValue.ToJsString`), `split`'s inverse `join`
  (`JsString.Join`) and `includes` (`JsString.Includes`) have no contracts
  of their own. They are stated by `JsValue.IsNumericOfString`,
  `JsString.JoinSplit`, `JsString.SplitJoin` and `JsString.IncludesIffOccurs`.
- A test without an actor (scripts/system/effect.js:114, 154) is not
  modelled: `Synthesis.Test` always carries the actor's id and uuid.
- Effect data without a label (scripts/system/effect.js:117) is not
  modelled: the label is always a text.
- A test without a result (scripts/system/effect.js:123) is not modelled:
  the result is modelled only by its optional duration.
- Effect data without a duration object (scripts/system/effect.js:127-133)
  is not modelled: rounds and seconds are always fields of the effect data.
- A change value that is not a text in `apply` and `fillDerivedData`
  (scripts/system/effect.js:17, 35) is not modelled: `Documents.Change`
  holds a text.
