/** `populateEffectData` (scripts/system/effect.js:112-167): filling the data
    of an effect created from a test with the test's results. It sets the
    origin and the status id, converts the duration of the test result (or
    else of the item) into rounds or seconds, and rewrites each change
    value: `@test.<path>` reads a property of the test, an
    `@UUID[Actor.ID]` placeholder is pointed at the testing actor, a
    numeric value becomes its `parseInt`, and any other value without a
    `@UUID` reference becomes 0. */
module Synthesis {
  import opened Results
  import opened JsString
  import opened JsNumber
  import opened JsValue
  import opened Documents
  import opened ActorReference

  /** The parts of a test the population reads: the testing actor's id and
      uuid, the test's item, the duration of its result (which may have
      been overcast) and the test object itself as plain data, for
      `@test.` lookups. */
  datatype Test = Test(actorId: string, actorUuid: string, item: Option<Item>,
                       resultDuration: Option<DurationSpec>, data: Json)

  /** A change value in effect data: text, or a number once rewritten. */
  datatype DataValue = Text(s: string) | Number(num: Num)

  datatype DataChange = DataChange(key: string, value: DataValue, mode: int)

  /** The update a duration makes to the effect's duration. */
  datatype DurationUpdate = SetRounds(rounds: Num) | SetSeconds(seconds: Num) | KeepDuration

  const SecondsPerMinute := 60
  const SecondsPerHour := 3600
  const SecondsPerDay := 86400

  /** The duration used: the test result's when it has one, else the item's
      (the item passed in, or else the test's). Reading the duration of a
      missing item throws. */
  function ChosenDuration(test: Test, item: Option<Item>): (r: Result<Option<DurationSpec>, JsError>)
    ensures test.resultDuration.Some? ==> r == Success(test.resultDuration)
    ensures r.Failure? <==> test.resultDuration.None? && item.None? && test.item.None?
    ensures test.resultDuration.None? && item.Some? ==> r == Success(item.value.duration)
    ensures test.resultDuration.None? && item.None? && test.item.Some? ==> r == Success(test.item.value.duration)
    ensures r.Failure? ==> r.error == TypeError
  {
    var it := if item.Some? then item else test.item;
    if test.resultDuration.Some? then Success(test.resultDuration)
    else if it.None? then Failure(TypeError)
    else Success(it.value.duration)
  }

  /** What a duration does to the effect: rounds are taken as they are;
      minutes, hours and days become seconds; other units change nothing.
      The value is read with `parseInt`. */
  function ConvertDuration(d: DurationSpec): (u: DurationUpdate)
    ensures u.SetRounds? <==> d.unit == "round"
    ensures u.SetSeconds? <==> d.unit == "minute" || d.unit == "hour" || d.unit == "day"
    ensures u.SetRounds? ==> u.rounds == ParseIntOf(d.value)
    ensures u.SetSeconds? ==> (u.seconds.NaN? <==> ParseIntOf(d.value).NaN?)
  {
    UnitUpdate(d.unit, ParseIntOf(d.value))
  }

  /** The update for a count of the given unit. */
  function UnitUpdate(unit: string, n: Num): (u: DurationUpdate)
    ensures u.SetRounds? <==> unit == "round"
    ensures u.SetSeconds? <==> unit == "minute" || unit == "hour" || unit == "day"
    ensures u.SetRounds? ==> u.rounds == n
    ensures u.SetSeconds? ==> (u.seconds.NaN? <==> n.NaN?)
  {
    if unit == "round" then SetRounds(n)
    else if unit == "minute" then SetSeconds(Scale(n, SecondsPerMinute))
    else if unit == "hour" then SetSeconds(Scale(n, SecondsPerHour))
    else if unit == "day" then SetSeconds(Scale(n, SecondsPerDay))
    else KeepDuration
  }

  /** The effect's (rounds, seconds) after a duration, if any, is applied:
      a duration in rounds sets the rounds alone, one in minutes, hours or
      days sets the seconds alone, and anything else leaves both as they were. */
  function DurationAfter(rounds: Option<Num>, seconds: Option<Num>, d: Option<DurationSpec>): (r: (Option<Num>, Option<Num>))
    ensures r.0 == rounds || r.1 == seconds
    ensures d.Some? && d.value.unit == "round" ==> r == (Some(ParseIntOf(d.value.value)), seconds)
    ensures r.1 != seconds ==> d.Some? && d.value.unit in {"minute", "hour", "day"} && r.1.Some?
    ensures d.Some? && d.value.unit in {"minute", "hour", "day"} ==> r == (rounds, Some(ConvertDuration(d.value).seconds))
    ensures d.None? || d.value.unit !in {"round", "minute", "hour", "day"} ==> r == (rounds, seconds)
  {
    if d.None? then (rounds, seconds)
    else match ConvertDuration(d.value)
      case SetRounds(r) => (Some(r), seconds)
      case SetSeconds(s) => (rounds, Some(s))
      case KeepDuration => (rounds, seconds)
  }

  /** A duration whose value reads as the integer `n` converts to `n`
      rounds, or to 60, 3600 or 86400 times `n` seconds. */
  lemma ConvertDurationOfInteger(d: DurationSpec, n: int)
    requires ParseIntOf(d.value) == Int(n)
    ensures d.unit == "round" ==> ConvertDuration(d) == SetRounds(Int(n))
    ensures d.unit == "minute" ==> ConvertDuration(d) == SetSeconds(Int(60 * n))
    ensures d.unit == "hour" ==> ConvertDuration(d) == SetSeconds(Int(3600 * n))
    ensures d.unit == "day" ==> ConvertDuration(d) == SetSeconds(Int(86400 * n))
  {
    UnitUpdateOfInteger(d.unit, n);
  }

  /** A duration whose value reads as the integer `n` sets the rounds to
      `n`, or the seconds to 60, 3600 or 86400 times `n`, and leaves the
      other field as it was. */
  lemma DurationAfterOfInteger(rounds: Option<Num>, seconds: Option<Num>, d: DurationSpec, n: int)
    requires ParseIntOf(d.value) == Int(n)
    ensures d.unit == "round" ==> DurationAfter(rounds, seconds, Some(d)) == (Some(Int(n)), seconds)
    ensures d.unit == "minute" ==> DurationAfter(rounds, seconds, Some(d)) == (rounds, Some(Int(60 * n)))
    ensures d.unit == "hour" ==> DurationAfter(rounds, seconds, Some(d)) == (rounds, Some(Int(3600 * n)))
    ensures d.unit == "day" ==> DurationAfter(rounds, seconds, Some(d)) == (rounds, Some(Int(86400 * n)))
  {
    ConvertDurationOfInteger(d, n);
  }

  lemma UnitUpdateOfInteger(unit: string, n: int)
    ensures unit == "round" ==> UnitUpdate(unit, Int(n)) == SetRounds(Int(n))
    ensures unit == "minute" ==> UnitUpdate(unit, Int(n)) == SetSeconds(Int(60 * n))
    ensures unit == "hour" ==> UnitUpdate(unit, Int(n)) == SetSeconds(Int(3600 * n))
    ensures unit == "day" ==> UnitUpdate(unit, Int(n)) == SetSeconds(Int(86400 * n))
  {
  }

  /** A day lasts as long as 24 hours, and an hour as long as 60 minutes. */
  lemma DurationUnitsAgree(n: int)
    ensures ConvertDuration(DurationSpec("day", Some(JNum(n)))).seconds
         == ConvertDuration(DurationSpec("hour", Some(JNum(24 * n)))).seconds
    ensures ConvertDuration(DurationSpec("hour", Some(JNum(n)))).seconds
         == ConvertDuration(DurationSpec("minute", Some(JNum(60 * n)))).seconds
  {
    NumberParsesToItself(n);
    NumberParsesToItself(24 * n);
    NumberParsesToItself(60 * n);
  }

  /** The rewrite of one change value. A value that is not text throws
      (`split` is not a function of a number), and so does the value
      `@test` alone, whose first segment is gone once `@test` is removed. */
  function CoerceChange(v: DataValue, test: Test): (r: Result<DataValue, JsError>)
    ensures r.Failure? <==> v.Number? || v.s == "@test"
    ensures r.Failure? ==> r.error == TypeError
    ensures r.Success? && r.value.Text? ==> Includes(r.value.s, "@UUID")
  {
    match v
    case Number(_) => Failure(TypeError)
    case Text(s) =>
      var parts := Split(s, '.');
      var fromTest := parts[0] == "@test";
      var rest := if fromTest then parts[1..] else parts;
      TestAloneSplit(s);
      if rest == [] then Failure(TypeError)
      else
        var looked := if fromTest then GetProperty(test.data, Join(rest, '.')) else Some(JStr(s));
        var text := if Includes(rest[0], "@UUID") then ReplaceFirst(s, "Actor.ID", "Actor." + test.actorId) else s;
        if IsNumeric(looked) then Success(Number(ParseIntOf(looked)))
        else if !Includes(text, "@UUID") then Success(Number(Int(0)))
        else Success(Text(text))
  }

  /** Only the text `@test` splits into the single segment `@test`. */
  lemma TestAloneSplit(s: string)
    ensures Split(s, '.') == ["@test"] <==> s == "@test"
  {
    JoinSplit(s, '.');
    if s == "@test" {
      SplitAfterPiece("@test", "", '.');
      assert "@test" + "" == "@test";
    }
  }

  /** A text free of `.` splits into itself. */
  lemma SplitWithoutDot(s: string)
    requires '.' !in s
    ensures Split(s, '.') == [s]
  {
    SplitAfterPiece(s, "", '.');
    assert s + "" == s;
  }

  /** The decimal text of an integer has no `.` and is not `@test`. */
  lemma IntToStringPlain(n: int)
    ensures '.' !in IntToString(n)
    ensures IntToString(n) != "@test"
  {
    var s := IntToString(n);
    if n < 0 {
      assert s == "-" + NatToString(-n);
    }
    assert s[0] != '@';
    forall k | 0 <= k < |s| ensures s[k] != '.' {
      if n < 0 && k > 0 {
        assert s[k] == NatToString(-n)[k - 1];
      }
    }
  }

  /** What rewriting the decimal text of an integer consults. */
  lemma IntToStringRewriteFacts(n: int)
    ensures Split(IntToString(n), '.') == [IntToString(n)]
    ensures IntToString(n) != "@test"
    ensures IsNumeric(Some(JStr(IntToString(n))))
    ensures ParseIntOf(Some(JStr(IntToString(n)))) == Int(n)
  {
    IntToStringPlain(n);
    SplitWithoutDot(IntToString(n));
    IntToStringIsNumeric(n);
    ParseIntOfIntToString(n);
  }

  /** An integer written as text becomes that integer. */
  lemma CoerceIntegerText(n: int, test: Test)
    ensures CoerceChange(Text(IntToString(n)), test) == Success(Number(Int(n)))
  {
    IntToStringRewriteFacts(n);
  }

  /** `@test.<key>` splits into `@test` and the segments of the key. */
  lemma TestPathSplit(key: string)
    ensures Split("@test." + key, '.') == ["@test"] + Split(key, '.')
  {
    var s := "@test." + key;
    SplitAfterPiece("@test", "." + key, '.');
    assert s == "@test" + ("." + key);
    assert ("." + key)[1..] == key;
    assert Split("." + key, '.') == [""] + Split(key, '.');
    assert "@test" + "" == "@test";
  }

  /** `@test.<key>` reads the property `key` of the test: a numeric one
      becomes its `parseInt`. */
  lemma CoerceTestProperty(key: string, test: Test)
    requires key != ""
    requires IsNumeric(GetProperty(test.data, key))
    ensures CoerceChange(Text("@test." + key), test) == Success(Number(ParseIntOf(GetProperty(test.data, key))))
  {
    TestPathSplit(key);
    var parts := Split("@test." + key, '.');
    assert parts[0] == "@test" && parts[1..] == Split(key, '.');
    JoinSplit(key, '.');
    assert "@test." + key != "@test";
  }

  /** `@test.<key>` naming a number in the test gives that number. */
  lemma CoerceTestNumber(key: string, test: Test, n: int)
    requires key != ""
    requires GetProperty(test.data, key) == Some(JNum(n))
    ensures CoerceChange(Text("@test." + key), test) == Success(Number(Int(n)))
  {
    NumberParsesToItself(n);
    CoerceTestProperty(key, test);
  }

  /** Text that is neither a number, nor a test lookup, nor a `@UUID`
      reference becomes 0. */
  lemma CoercePlainText(s: string, test: Test)
    requires Split(s, '.')[0] != "@test"
    requires !IsNumericString(s)
    requires !Includes(s, "@UUID")
    ensures CoerceChange(Text(s), test) == Success(Number(Int(0)))
  {
    SplitFirstIsPrefix(s, '.');
    if Includes(Split(s, '.')[0], "@UUID") {
      IncludesThroughPrefix(Split(s, '.')[0], s, "@UUID");
    }
  }

  /** For example, "abc" becomes 0. */
  lemma CoerceWordIsZero(test: Test)
    ensures CoerceChange(Text("abc"), test) == Success(Number(Int(0)))
  {
    SplitWithoutDot("abc");
    NotNumericByFirstChar("abc");
    assert !Includes("abc", "@UUID");
    CoercePlainText("abc", test);
  }

  /** Numeric text that is not a test lookup becomes its `parseInt`. */
  lemma CoerceNumericText(s: string, test: Test)
    requires Split(s, '.')[0] != "@test"
    requires IsNumericString(s)
    ensures CoerceChange(Text(s), test) == Success(Number(ParseInt(s)))
  {
    assert IsNumeric(Some(JStr(s)));
  }

  /** The empty text is numeric for `Number.isNumeric` but `parseInt` finds
      no digit in it, so it becomes NaN. */
  lemma CoerceEmptyText(test: Test)
    ensures CoerceChange(Text(""), test) == Success(Number(NaN))
  {
    BlankIsNumericButParsesToNaN("");
    assert Split("", '.')[0] == "";
    CoerceNumericText("", test);
  }

  /** `@test.<key>` naming nothing numeric in the test, without a `@UUID`
      reference, becomes 0. */
  lemma CoerceTestNonNumeric(key: string, test: Test)
    requires !IsNumeric(GetProperty(test.data, key))
    requires !Includes("@test." + key, "@UUID")
    ensures CoerceChange(Text("@test." + key), test) == Success(Number(Int(0)))
  {
    TestPathSplit(key);
    var parts := Split("@test." + key, '.');
    assert parts[0] == "@test" && parts[1..] == Split(key, '.');
    JoinSplit(key, '.');
    assert "@test." + key != "@test";
    SplitFirstIsPrefix(key, '.');
    if Includes(Split(key, '.')[0], "@UUID") {
      IncludesThroughPrefix(Split(key, '.')[0], key, "@UUID");
      IncludesThroughSuffix("@test.", key, "@UUID");
    }
  }

  /** Every reference text starts with `@UUID`. */
  lemma ReferenceTextIsReference(id: string, path: string)
    ensures Includes(ReferenceText(id, path), "@UUID")
  {
    var s := ReferenceText(id, path);
    assert s[..5] == "@UUID";
    assert OccursAt(s, "@UUID", 0);
  }

  /** The first segment of a reference text is `@UUID[Actor`. */
  lemma ReferenceTextFirstSegment(id: string, path: string)
    ensures Split(ReferenceText(id, path), '.')[0] == "@UUID[Actor"
  {
    var tail := id + Middle + path;
    assert ReferenceText(id, path) == "@UUID[Actor" + ("." + tail);
    SplitAfterPiece("@UUID[Actor", "." + tail, '.');
    assert Split("." + tail, '.')[0] == "";
    assert "@UUID[Actor" + "" == "@UUID[Actor";
  }

  /** Replacing the first `Actor.ID` of the placeholder reference yields the
      reference to the given actor. */
  lemma ReplacePlaceholder(id: string, path: string)
    ensures ReplaceFirst(ReferenceText("ID", path), "Actor.ID", "Actor." + id) == ReferenceText(id, path)
  {
    var s := ReferenceText("ID", path);
    var rest := Middle + path;
    assert s == "@UUID[" + "Actor.ID" + rest;
    assert ReferenceText(id, path) == "@UUID[" + ("Actor." + id) + rest;
    forall j | 0 <= j < 6 ensures !OccursAt(s, "Actor.ID", j) {
      NotOccursAtByFirst(s, "Actor.ID", j);
    }
    ReplaceFirstInLayout("@UUID[", "Actor.ID", rest, "Actor." + id);
  }

  /** Text that is not numeric and whose first segment mentions `@UUID`
      has its `Actor.ID` placeholder replaced by the testing actor's id, and
      stays text when the result still mentions `@UUID`. */
  lemma CoerceUuidText(s: string, test: Test)
    requires Split(s, '.')[0] != "@test" && Includes(Split(s, '.')[0], "@UUID")
    requires !IsNumericString(s)
    ensures CoerceChange(Text(s), test) == Success(Text(ReplaceFirst(s, "Actor.ID", "Actor." + test.actorId)))
  {
    SplitFirstIsPrefix(s, '.');
    IncludesThroughPrefix(Split(s, '.')[0], s, "@UUID");
    CoerceNonNumericUuid(s, test);
  }

  /** Replacing the first `Actor.ID` keeps a `@UUID`: the two cannot
      overlap, so an occurrence before the placeholder stays in front of
      the replacement and one after it stays behind. */
  lemma PlaceholderKeepsUuid(s: string, rep: string)
    requires Includes(s, "@UUID")
    ensures Includes(ReplaceFirst(s, "Actor.ID", rep), "@UUID")
  {
    if IndexOf(s, "Actor.ID").Some? {
      var i := IndexOf(s, "Actor.ID").value;
      var u := IndexOf(s, "@UUID").value;
      var r := s[..i] + rep + s[i + 8..];
      assert ReplaceFirst(s, "Actor.ID", rep) == r;
      if u + 5 <= i {
        assert r[u..u + 5] == s[u..u + 5];
        assert OccursAt(r, "@UUID", u);
      } else {
        assert s[i] == 'A' && s[u] == '@' by {
          assert s[i] == s[i..i + 8][0];
          assert s[u] == s[u..u + 5][0];
        }
        forall q | i <= q < i + 8
          ensures s[q] != '@'
        {
          assert s[q] == s[i..i + 8][q - i];
        }
        forall q | u <= q < u + 5
          ensures s[q] != 'A'
        {
          assert s[q] == s[u..u + 5][q - u];
        }
        assert i + 8 <= u;
        var v := i + |rep| + (u - (i + 8));
        assert r[v..v + 5] == s[u..u + 5];
        assert OccursAt(r, "@UUID", v);
      }
    }
  }

  /** Text that is not numeric, not a test lookup and mentions `@UUID`
      anywhere stays text: its `Actor.ID` placeholder is replaced when its
      first segment mentions `@UUID`, and it is kept as it is otherwise. */
  lemma CoerceNonNumericUuid(s: string, test: Test)
    requires Split(s, '.')[0] != "@test"
    requires !IsNumericString(s)
    requires Includes(s, "@UUID")
    ensures CoerceChange(Text(s), test) ==
              Success(Text(if Includes(Split(s, '.')[0], "@UUID")
                           then ReplaceFirst(s, "Actor.ID", "Actor." + test.actorId) else s))
  {
    PlaceholderKeepsUuid(s, "Actor." + test.actorId);
  }

  /** `@test.<key>` naming nothing numeric in the test, with a `@UUID` in
      the key, stays text: its `Actor.ID` placeholder is replaced when the
      key's first segment mentions `@UUID`, and it is kept otherwise. */
  lemma CoerceTestNonNumericUuid(key: string, test: Test)
    requires !IsNumeric(GetProperty(test.data, key))
    requires Includes("@test." + key, "@UUID")
    ensures CoerceChange(Text("@test." + key), test) ==
              Success(Text(if Includes(Split(key, '.')[0], "@UUID")
                           then ReplaceFirst("@test." + key, "Actor.ID", "Actor." + test.actorId) else "@test." + key))
  {
    TestPathSplit(key);
    var parts := Split("@test." + key, '.');
    assert parts[0] == "@test" && parts[1..] == Split(key, '.');
    JoinSplit(key, '.');
    assert "@test." + key != "@test";
    PlaceholderKeepsUuid("@test." + key, "Actor." + test.actorId);
  }

  /** The `Actor.ID` placeholder of a reference is replaced by the testing
      actor's id, and the reference then names that actor and the same
      data path. */
  lemma CoercePlaceholderReference(path: string, test: Test)
    requires test.actorId != [] && ']' !in test.actorId && NoLineTerminator(test.actorId)
    requires path != [] && NoLineTerminator(path)
    ensures CoerceChange(Text(ReferenceText("ID", path)), test) == Success(Text(ReferenceText(test.actorId, path)))
    ensures FirstReference(ReferenceText(test.actorId, path)) == Some((test.actorId, path))
  {
    var s := ReferenceText("ID", path);
    var t := ReferenceText(test.actorId, path);
    assert Split(s, '.')[0] == "@UUID[Actor" && Includes("@UUID[Actor", "@UUID") by {
      ReferenceTextFirstSegment("ID", path);
      assert OccursAt("@UUID[Actor", "@UUID", 0);
    }
    assert ReplaceFirst(s, "Actor.ID", "Actor." + test.actorId) == t by {
      ReplacePlaceholder(test.actorId, path);
    }
    assert !IsNumericString(s) by {
      assert s[0] == '@';
      NotNumericByFirstChar(s);
    }
    ReferenceTextIsReference(test.actorId, path);
    CoerceUuidText(s, test);
    FirstReferenceOfText(test.actorId, path);
  }

  /** The outcome of rewriting a list of changes: the changes as they stand
      and the exception that stopped the rewriting, if one did. */
  datatype Coerced = Coerced(changes: seq<DataChange>, error: Option<JsError>)

  /** The position of the first change whose rewrite throws, or the number
      of changes when none does. */
  function FirstFailure(cs: seq<DataChange>, test: Test): (k: nat)
    ensures k <= |cs|
    ensures forall j :: 0 <= j < k ==> CoerceChange(cs[j].value, test).Success?
    ensures k < |cs| ==> CoerceChange(cs[k].value, test).Failure?
    decreases |cs|
  {
    if cs == [] || CoerceChange(cs[0].value, test).Failure? then 0
    else 1 + FirstFailure(cs[1..], test)
  }

  /** A change that rewrites without throwing, at or before the first
      failure, lies strictly before it. */
  lemma StepPastFirstFailure(cs: seq<DataChange>, test: Test, i: nat)
    requires i <= FirstFailure(cs, test) && i < |cs|
    requires CoerceChange(cs[i].value, test).Success?
    ensures i < FirstFailure(cs, test)
  {
  }

  /** Rewriting the changes in order, stopping at the first that throws;
      that change and the ones after it are left as they were. */
  function CoerceAll(cs: seq<DataChange>, test: Test): (r: Coerced)
    ensures |r.changes| == |cs|
    decreases |cs|
  {
    if cs == [] then Coerced([], None)
    else match CoerceChange(cs[0].value, test)
      case Failure(e) => Coerced(cs, Some(e))
      case Success(v) =>
        var rest := CoerceAll(cs[1..], test);
        Coerced([cs[0].(value := v)] + rest.changes, rest.error)
  }

  /** Keys and modes are kept; the changes before the first failure are
      rewritten, that change and the ones after it are untouched, and the
      error is the first failure's. */
  lemma {:induction false} CoerceAllOutcome(cs: seq<DataChange>, test: Test)
    ensures var r := CoerceAll(cs, test);
            && (forall i :: 0 <= i < |cs| ==> r.changes[i].key == cs[i].key && r.changes[i].mode == cs[i].mode)
            && (forall i :: 0 <= i < FirstFailure(cs, test) ==> Success(r.changes[i].value) == CoerceChange(cs[i].value, test))
            && (forall i :: FirstFailure(cs, test) <= i < |cs| ==> r.changes[i] == cs[i])
            && (r.error.None? <==> FirstFailure(cs, test) == |cs|)
            && (r.error.Some? ==> Failure(r.error.value) == CoerceChange(cs[FirstFailure(cs, test)].value, test))
    decreases |cs|
  {
    if cs != [] && CoerceChange(cs[0].value, test).Success? {
      var v := CoerceChange(cs[0].value, test).value;
      CoerceAllOutcome(cs[1..], test);
      var rest := CoerceAll(cs[1..], test);
      var r := CoerceAll(cs, test);
      assert r.changes == [cs[0].(value := v)] + rest.changes && r.error == rest.error;
      assert FirstFailure(cs, test) == 1 + FirstFailure(cs[1..], test);
      assert forall i :: 1 <= i < |cs| ==> r.changes[i] == rest.changes[i - 1] && cs[i] == cs[1..][i - 1];
    }
  }

  /** The changes once the first `i` of them have been rewritten in place. */
  function PartlyCoerced(cs: seq<DataChange>, test: Test, i: nat): (r: seq<DataChange>)
    requires i <= |cs|
    ensures |r| == |cs|
    ensures forall j :: i <= j < |cs| ==> r[j] == cs[j]
  {
    CoerceAll(cs, test).changes[..i] + cs[i..]
  }

  /** Rewriting change `i`, before the first failure, in place extends the
      rewritten prefix by one. */
  lemma PartlyCoercedStep(cs: seq<DataChange>, test: Test, i: nat)
    requires i < FirstFailure(cs, test)
    ensures PartlyCoerced(cs, test, i)[i := cs[i].(value := CoerceChange(cs[i].value, test).value)]
            == PartlyCoerced(cs, test, i + 1)
  {
    CoerceAllOutcome(cs, test);
    var all := CoerceAll(cs, test).changes;
    assert all[i] == cs[i].(value := CoerceChange(cs[i].value, test).value);
    PrefixStep(all, cs, i);
  }

  /** Overwriting position `i` of "`done` up to `i`, then `cs`" with
      `done[i]` moves the boundary one place on. */
  lemma PrefixStep<T>(done: seq<T>, cs: seq<T>, i: nat)
    requires |done| == |cs| && i < |cs|
    ensures (done[..i] + cs[i..])[i := done[i]] == done[..i + 1] + cs[i + 1..]
  {
  }

  /** Once the rewriting reaches the first failure, or the end, the changes
      are all CoerceAll rewrites and its error is the failure's. */
  lemma PartlyCoercedStops(cs: seq<DataChange>, test: Test)
    ensures PartlyCoerced(cs, test, FirstFailure(cs, test)) == CoerceAll(cs, test).changes
    ensures FirstFailure(cs, test) == |cs| ==> CoerceAll(cs, test).error == None
    ensures FirstFailure(cs, test) < |cs| ==>
              CoerceAll(cs, test).error == Some(CoerceChange(cs[FirstFailure(cs, test)].value, test).error)
  {
    CoerceAllOutcome(cs, test);
    var all := CoerceAll(cs, test).changes;
    var k := FirstFailure(cs, test);
    assert all == all[..k] + all[k..];
    assert all[k..] == cs[k..];
  }

  /** When no change throws, coercing them all leaves every change
      rewritten and no error. */
  lemma PartlyCoercedDone(cs: seq<DataChange>, test: Test)
    requires FirstFailure(cs, test) == |cs|
    ensures PartlyCoerced(cs, test, |cs|) == CoerceAll(cs, test).changes
    ensures CoerceAll(cs, test).error == None
  {
    PartlyCoercedStops(cs, test);
  }

  /** Effect data as `populateEffectData` fills it in place. An empty
      `statusId` stands for a missing `flags.core.statusId`. */
  class EffectData {
    var effectLabel: string
    var statusId: string
    var origin: string
    var rounds: Option<Num>
    var seconds: Option<Num>
    var changes: seq<DataChange>

    constructor (effectLabel: string, statusId: string, origin: string,
                 rounds: Option<Num>, seconds: Option<Num>, changes: seq<DataChange>)
      ensures this.effectLabel == effectLabel && this.statusId == statusId && this.origin == origin
      ensures this.rounds == rounds && this.seconds == seconds && this.changes == changes
    {
      this.effectLabel := effectLabel;
      this.statusId := statusId;
      this.origin := origin;
      this.rounds := rounds;
      this.seconds := seconds;
      this.changes := changes;
    }
  }

  /** `AgeOfSigmarEffect.populateEffectData(effectData, test, item)`: the
      origin becomes the testing actor, a missing status id becomes the
      slug of the label, the chosen duration is converted, and the changes
      are rewritten in order. An exception stops the population where it
      is raised and is returned. */
  method PopulateEffectData(data: EffectData, test: Test, item: Option<Item>, slugify: string -> string)
    returns (error: Option<JsError>)
    modifies data
    ensures data.effectLabel == old(data.effectLabel)
    ensures data.origin == test.actorUuid
    ensures data.statusId == if old(data.statusId) != "" then old(data.statusId) else slugify(old(data.effectLabel))
    ensures ChosenDuration(test, item).Failure? ==>
              && error == Some(TypeError)
              && data.rounds == old(data.rounds) && data.seconds == old(data.seconds)
              && data.changes == old(data.changes)
    ensures ChosenDuration(test, item).Success? ==>
              && (data.rounds, data.seconds) == DurationAfter(old(data.rounds), old(data.seconds), ChosenDuration(test, item).value)
              && data.changes == CoerceAll(old(data.changes), test).changes
              && error == CoerceAll(old(data.changes), test).error
  {
    data.origin := test.actorUuid;
    if data.statusId == "" {
      data.statusId := slugify(data.effectLabel);
    }
    var chosen := ChosenDuration(test, item);
    if chosen.Failure? {
      return Some(chosen.error);
    }
    if chosen.value.Some? {
      SetDuration(data, chosen.value.value);
    }
    error := RewriteChanges(data, test);
  }

  /** The duration branch of `populateEffectData`: rounds, or seconds, or
      nothing, by the unit of the duration. */
  method SetDuration(data: EffectData, d: DurationSpec)
    modifies data
    ensures (data.rounds, data.seconds) == DurationAfter(old(data.rounds), old(data.seconds), Some(d))
    ensures data.effectLabel == old(data.effectLabel) && data.statusId == old(data.statusId)
    ensures data.origin == old(data.origin) && data.changes == old(data.changes)
  {
    var update := ConvertDuration(d);
    if update.SetRounds? {
      data.rounds := Some(update.rounds);
    } else if update.SetSeconds? {
      data.seconds := Some(update.seconds);
    }
  }

  /** The loop of `populateEffectData` over the changes of the effect data:
      each value is rewritten in place, in order, until one throws. */
  method RewriteChanges(data: EffectData, test: Test) returns (error: Option<JsError>)
    modifies data
    ensures data.effectLabel == old(data.effectLabel) && data.statusId == old(data.statusId)
    ensures data.origin == old(data.origin)
    ensures data.rounds == old(data.rounds) && data.seconds == old(data.seconds)
    ensures data.changes == CoerceAll(old(data.changes), test).changes
    ensures error == CoerceAll(old(data.changes), test).error
  {
    ghost var original := data.changes;
    var i := 0;
    while i < |data.changes|
      invariant 0 <= i <= |data.changes| == |original|
      invariant i <= FirstFailure(original, test)
      invariant data.effectLabel == old(data.effectLabel) && data.statusId == old(data.statusId)
      invariant data.origin == old(data.origin)
      invariant data.rounds == old(data.rounds) && data.seconds == old(data.seconds)
      invariant data.changes == PartlyCoerced(original, test, i)
    {
      error := RewriteChange(data, test, i, original);
      if error.Some? {
        return;
      }
      i := i + 1;
    }
    PartlyCoercedDone(original, test);
    return None;
  }

  /** One pass of that loop: change `i` is rewritten in place, or, when its
      rewrite throws, the changes are left as they are and the error is
      returned. */
  method RewriteChange(data: EffectData, test: Test, i: nat, ghost original: seq<DataChange>)
    returns (error: Option<JsError>)
    requires i < |original| && i <= FirstFailure(original, test)
    requires data.changes == PartlyCoerced(original, test, i)
    modifies data
    ensures data.effectLabel == old(data.effectLabel) && data.statusId == old(data.statusId)
    ensures data.origin == old(data.origin)
    ensures data.rounds == old(data.rounds) && data.seconds == old(data.seconds)
    ensures error.Some? ==> i == FirstFailure(original, test) && data.changes == old(data.changes)
    ensures error.Some? ==> error == CoerceAll(original, test).error && data.changes == CoerceAll(original, test).changes
    ensures error == None ==> i < FirstFailure(original, test) && data.changes == PartlyCoerced(original, test, i + 1)
  {
    var r := CoerceChange(data.changes[i].value, test);
    if r.Failure? {
      PartlyCoercedStops(original, test);
      return Some(r.error);
    }
    StepPastFirstFailure(original, test, i);
    PartlyCoercedStep(original, test, i);
    data.changes := data.changes[i := data.changes[i].(value := r.value)];
    return None;
  }
}
