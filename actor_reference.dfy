/** Recognising a cross-actor reference in a change value: the first match
    of the regular expression `/@UUID\[Actor\.(.+?)\]\.system\.(.+)/` that
    `fillDerivedData` searches for (scripts/system/effect.js:35). The
    first group, the actor id, is lazy: it is the shortest run of
    line characters after which `].system.` and at least one more line
    character follow. The second group, the data path, is greedy: it runs
    to the end of the line. The leftmost starting position wins. */
module ActorReference {
  import opened Results
  import opened JsString

  const Head := "@UUID[Actor."
  const Middle := "].system."

  /** `s` holds, at position `i`, a reference to actor `id` and data path
      `path` exactly as the regular expression matches it: a non-empty id
      and path without line terminators, the path running to the end of
      the line. */
  predicate ReferenceAt(s: string, i: nat, id: string, path: string)
  {
    && OccursAt(s, Head + id + Middle + path, i)
    && id != [] && path != []
    && NoLineTerminator(id) && NoLineTerminator(path)
    && var e := i + |Head| + |id| + |Middle| + |path|;
       e == |s| || IsLineTerminator(s[e])
  }

  /** The end of the line that position `j` is on. */
  function LineEnd(s: string, j: nat): (e: nat)
    requires j <= |s|
    ensures j <= e <= |s|
    ensures forall k :: j <= k < e ==> !IsLineTerminator(s[k])
    ensures e < |s| ==> IsLineTerminator(s[e])
    decreases |s| - j
  {
    if j == |s| || IsLineTerminator(s[j]) then j else LineEnd(s, j + 1)
  }

  /** A line free of terminators from `j` on ends at the end of the string. */
  lemma {:induction false} LineEndOfLastLine(s: string, j: nat)
    requires j <= |s|
    requires forall k :: j <= k < |s| ==> !IsLineTerminator(s[k])
    ensures LineEnd(s, j) == |s|
    decreases |s| - j
  {
    if j < |s| {
      LineEndOfLastLine(s, j + 1);
    }
  }

  /** A pattern cannot occur where its first character is missing. */
  lemma NotOccursAtByFirst(s: string, pat: string, i: nat)
    requires i < |s| && pat != [] && s[i] != pat[0]
    ensures !OccursAt(s, pat, i)
  {
    if i + |pat| <= |s| {
      assert s[i..i + |pat|][0] == s[i];
    }
  }

  /** Two adjacent occurrences make one occurrence of the concatenation. */
  lemma OccursAdjacent(s: string, a: string, b: string, i: nat)
    requires OccursAt(s, a, i) && OccursAt(s, b, i + |a|)
    ensures OccursAt(s, a + b, i)
  {
    assert s[i..i + |a| + |b|] == s[i..i + |a|] + s[i + |a|..i + |a| + |b|];
  }

  /** At `idStart`, `s` continues with `id`, `].system.` and `path` as the
      two groups of the pattern match them. */
  predicate GroupsAt(s: string, idStart: nat, id: string, path: string)
  {
    && OccursAt(s, id + Middle + path, idStart)
    && id != [] && path != []
    && NoLineTerminator(id) && NoLineTerminator(path)
    && var e := idStart + |id| + |Middle| + |path|;
       e == |s| || IsLineTerminator(s[e])
  }

  /** The groups cut at `after`, the end of the id, satisfy GroupsAt. */
  lemma GroupsFound(s: string, idStart: nat, after: nat)
    requires idStart < after <= |s|
    requires forall k :: idStart <= k < after ==> !IsLineTerminator(s[k])
    requires OccursAt(s, Middle, after) && after + |Middle| < |s|
    requires !IsLineTerminator(s[after + |Middle|])
    ensures GroupsAt(s, idStart, s[idStart..after], s[after + |Middle|..LineEnd(s, after + |Middle|)])
  {
    var pathStart := after + |Middle|;
    var id := s[idStart..after];
    var path := s[pathStart..LineEnd(s, pathStart)];
    assert forall k :: 0 <= k < |id| ==> id[k] == s[idStart + k];
    assert forall k :: 0 <= k < |path| ==> path[k] == s[pathStart + k];
    assert OccursAt(s, id, idStart);
    OccursAdjacent(s, id, Middle, idStart);
    assert OccursAt(s, path, pathStart);
    OccursAdjacent(s, id + Middle, path, idStart);
  }

  /** The lazy id group: try the id that starts at `idStart` with length
      `len`, then longer ones, until `].system.` and a line character
      follow; a line terminator inside the id ends the attempt. */
  function MatchId(s: string, idStart: nat, len: nat): (r: Option<(string, string)>)
    requires len >= 1
    requires forall k :: idStart <= k < idStart + len - 1 && k < |s| ==> !IsLineTerminator(s[k])
    ensures r.Some? ==> GroupsAt(s, idStart, r.value.0, r.value.1)
    decreases |s| - idStart - len
  {
    if idStart + len > |s| then None
    else if IsLineTerminator(s[idStart + len - 1]) then None
    else
      var after := idStart + len;
      if OccursAt(s, Middle, after) && after + |Middle| < |s| && !IsLineTerminator(s[after + |Middle|]) then
        GroupsFound(s, idStart, after);
        Some((s[idStart..after], s[after + |Middle|..LineEnd(s, after + |Middle|)]))
      else MatchId(s, idStart, len + 1)
  }

  /** The match that starts exactly at position `i`, if any. */
  function MatchAt(s: string, i: nat): (r: Option<(string, string)>)
    ensures r.Some? ==> ReferenceAt(s, i, r.value.0, r.value.1)
  {
    if OccursAt(s, Head, i) then
      var r := MatchId(s, i + |Head|, 1);
      if r.Some? then
        OccursAdjacent(s, Head, r.value.0 + Middle + r.value.1, i);
        assert Head + (r.value.0 + Middle + r.value.1) == Head + r.value.0 + Middle + r.value.1;
        r
      else None
    else None
  }

  /** The leftmost match at position `i` or later. */
  function MatchFrom(s: string, i: nat): (r: Option<(string, string)>)
    requires i <= |s|
    ensures r.Some? ==> exists k :: i <= k <= |s| && ReferenceAt(s, k, r.value.0, r.value.1)
    decreases |s| - i
  {
    match MatchAt(s, i)
    case Some(m) => Some(m)
    case None => if i == |s| then None else MatchFrom(s, i + 1)
  }

  /** The first match of the reference pattern in `s`: the actor id and the
      data path it names. */
  function FirstReference(s: string): (r: Option<(string, string)>)
    ensures r.Some? ==> exists k :: 0 <= k <= |s| && ReferenceAt(s, k, r.value.0, r.value.1)
  {
    MatchFrom(s, 0)
  }

  /** The reference text for actor `id` and data path `path`. */
  function ReferenceText(id: string, path: string): string
  {
    Head + id + Middle + path
  }

  /** While the candidate id is shorter than the real one, the lazy group
      keeps extending: no `]` can start `].system.` inside an id free of `]`. */
  lemma {:induction false} MatchIdReaches(s: string, idStart: nat, len: nat, id: string, path: string)
    requires idStart <= |s| && s == s[..idStart] + id + Middle + path
    requires 1 <= len <= |id|
    requires ']' !in id && NoLineTerminator(id)
    requires path != [] && NoLineTerminator(path)
    ensures MatchId(s, idStart, len) == Some((id, path))
    decreases |id| - len
  {
    var after := idStart + len;
    assert s[idStart..idStart + |id|] == id;
    assert s[idStart + |id|..idStart + |id| + |Middle|] == Middle;
    assert s[idStart + |id| + |Middle|..] == path;
    forall k | idStart <= k < idStart + len - 1
      ensures !IsLineTerminator(s[k])
    {
      assert s[k] == id[k - idStart];
    }
    assert s[after - 1] == id[len - 1];
    if len < |id| {
      assert s[after] == id[len];
      NotOccursAtByFirst(s, Middle, after);
      MatchIdReaches(s, idStart, len + 1, id, path);
    } else {
      assert OccursAt(s, Middle, after);
      assert s[after + |Middle|] == path[0];
      assert s[idStart..after] == id;
      forall k | after + |Middle| <= k < |s|
        ensures !IsLineTerminator(s[k])
      {
        assert s[k] == path[k - after - |Middle|];
      }
      LineEndOfLastLine(s, after + |Middle|);
      assert s[after + |Middle|..|s|] == path;
    }
  }

  /** A reference written out in full is recognised, with exactly the id and
      path it was written with, when the id holds no `]` and neither part a
      line break. */
  lemma FirstReferenceOfText(id: string, path: string)
    requires id != [] && ']' !in id && NoLineTerminator(id)
    requires path != [] && NoLineTerminator(path)
    ensures FirstReference(ReferenceText(id, path)) == Some((id, path))
  {
    var s := ReferenceText(id, path);
    assert s[..0] + Head + id + Middle + path == s;
    assert OccursAt(s, Head, 0);
    assert s == s[..|Head|] + id + Middle + path;
    MatchIdReaches(s, |Head|, 1, id, path);
  }

  /** A recognised reference contains `@UUID[Actor.`. */
  lemma FirstReferenceNeedsHead(s: string)
    ensures FirstReference(s).Some? ==> Includes(s, Head)
  {
    if FirstReference(s).Some? {
      var (id, path) := FirstReference(s).value;
      var k :| 0 <= k <= |s| && ReferenceAt(s, k, id, path);
      var whole := Head + id + Middle + path;
      assert whole[..|Head|] == Head;
      assert s[k..k + |Head|] == s[k..k + |whole|][..|Head|];
      assert OccursAt(s, Head, k);
    }
  }

  // ---------------------------------------------------------------------
  // The matcher against the pattern: complete, leftmost, lazy
  // ---------------------------------------------------------------------

  /** The id that starts at `a` can end at `after`: no line terminator up to
      there, then `].system.` and a line character. */
  predicate Cut(s: string, a: nat, after: nat)
  {
    && a < after <= |s|
    && (forall q :: a <= q < after ==> !IsLineTerminator(s[q]))
    && OccursAt(s, Middle, after) && after + |Middle| < |s|
    && !IsLineTerminator(s[after + |Middle|])
  }

  /** An occurrence of `x + y` is an occurrence of `x` followed by one of `y`. */
  lemma OccursSplit(s: string, x: string, y: string, i: nat)
    requires OccursAt(s, x + y, i)
    ensures OccursAt(s, x, i) && OccursAt(s, y, i + |x|)
  {
    assert s[i..i + |x|] == s[i..i + |x| + |y|][..|x|];
    assert s[i + |x|..i + |x| + |y|] == s[i..i + |x| + |y|][|x|..];
  }

  /** A match at `k` is made of the head, an id cut where the groups say,
      and the rest of the line as its path. */
  lemma ReferenceAtCut(s: string, k: nat, id: string, path: string)
    requires ReferenceAt(s, k, id, path)
    ensures OccursAt(s, Head, k)
    ensures Cut(s, k + |Head|, k + |Head| + |id|)
    ensures id == s[k + |Head|..k + |Head| + |id|]
    ensures path == s[k + |Head| + |id| + |Middle|..LineEnd(s, k + |Head| + |id| + |Middle|)]
  {
    var a := k + |Head|;
    var e := a + |id|;
    var p := e + |Middle|;
    OccursSplit(s, Head + id + Middle, path, k);
    OccursSplit(s, Head + id, Middle, k);
    OccursSplit(s, Head, id, k);
    assert s[a..e] == id;
    assert s[p..p + |path|] == path;
    forall q | a <= q < e
      ensures !IsLineTerminator(s[q])
    {
      assert s[q] == id[q - a];
    }
    assert s[p] == path[0];
    forall q | p <= q < p + |path|
      ensures !IsLineTerminator(s[q])
    {
      assert s[q] == path[q - p];
    }
    assert LineEnd(s, p) == p + |path|;
  }

  /** Two matches at the same position with ids of the same length are the
      same match. */
  lemma ReferenceAtUnique(s: string, k: nat, id: string, path: string, id2: string, path2: string)
    requires ReferenceAt(s, k, id, path) && ReferenceAt(s, k, id2, path2)
    requires |id| == |id2|
    ensures id == id2 && path == path2
  {
    ReferenceAtCut(s, k, id, path);
    ReferenceAtCut(s, k, id2, path2);
  }

  /** `id`, starting at `a`, is cut at the first possible end from
      `a + len` on, and `path` is the rest of the line after `].system.`. */
  predicate LazyCut(s: string, a: nat, len: nat, id: string, path: string)
  {
    && len <= |id| && Cut(s, a, a + |id|)
    && id == s[a..a + |id|]
    && path == s[a + |id| + |Middle|..LineEnd(s, a + |id| + |Middle|)]
    && forall after :: a + len <= after < a + |id| ==> !Cut(s, a, after)
  }

  /** The lazy id group tries every end from `idStart + len` on and stops at
      the first one that can be cut: none at all when it finds nothing. */
  lemma {:induction false} MatchIdSpec(s: string, a: nat, len: nat)
    requires len >= 1
    requires forall k :: a <= k < a + len - 1 && k < |s| ==> !IsLineTerminator(s[k])
    ensures MatchId(s, a, len).None? ==> forall after :: a + len <= after ==> !Cut(s, a, after)
    ensures MatchId(s, a, len).Some? ==> LazyCut(s, a, len, MatchId(s, a, len).value.0, MatchId(s, a, len).value.1)
    decreases |s| - a - len
  {
    var r := MatchId(s, a, len);
    if a + len > |s| || IsLineTerminator(s[a + len - 1]) {
      assert r.None?;
    } else {
      var after := a + len;
      if OccursAt(s, Middle, after) && after + |Middle| < |s| && !IsLineTerminator(s[after + |Middle|]) {
        assert r == Some((s[a..after], s[after + |Middle|..LineEnd(s, after + |Middle|)]));
        LazyCutHere(s, a, len);
      } else {
        assert r == MatchId(s, a, len + 1);
        MatchIdSpec(s, a, len + 1);
        if r.Some? {
          LazyCutStep(s, a, len, r.value.0, r.value.1);
        }
      }
    }
  }

  /** An end that can be cut is the lazy cut for its own length. */
  lemma LazyCutHere(s: string, a: nat, len: nat)
    requires len >= 1 && Cut(s, a, a + len)
    ensures LazyCut(s, a, len, s[a..a + len], s[a + len + |Middle|..LineEnd(s, a + len + |Middle|)])
  {
  }

  /** An end that cannot be cut does not stop the lazy group. */
  lemma LazyCutStep(s: string, a: nat, len: nat, id: string, path: string)
    requires LazyCut(s, a, len + 1, id, path) && !Cut(s, a, a + len)
    ensures LazyCut(s, a, len, id, path)
  {
  }

  /** No match starts at `i` when MatchAt finds none there; when it finds
      one, every match at `i` has an id at least as long. */
  lemma MatchAtSpec(s: string, i: nat)
    ensures MatchAt(s, i).None? ==> forall id, path :: !ReferenceAt(s, i, id, path)
    ensures MatchAt(s, i).Some? ==>
              forall id, path :: ReferenceAt(s, i, id, path) ==> |MatchAt(s, i).value.0| <= |id|
  {
    if OccursAt(s, Head, i) {
      MatchIdSpec(s, i + |Head|, 1);
    }
    forall id, path | ReferenceAt(s, i, id, path)
      ensures MatchAt(s, i).Some? && |MatchAt(s, i).value.0| <= |id|
    {
      ReferenceAtCut(s, i, id, path);
    }
  }

  /** MatchFrom returns what MatchAt finds at the first position, from `i`
      on, where it finds anything; it returns nothing exactly when MatchAt
      finds nothing anywhere from `i` on. */
  lemma MatchFromSpec(s: string, i: nat) returns (k: nat)
    requires i <= |s|
    ensures MatchFrom(s, i).None? ==> forall k' :: i <= k' <= |s| ==> MatchAt(s, k').None?
    ensures MatchFrom(s, i).Some? ==>
              && i <= k <= |s| && MatchAt(s, k) == MatchFrom(s, i)
              && forall k' :: i <= k' < k ==> MatchAt(s, k').None?
  {
    k := i;
    if MatchFrom(s, i).None? {
      MatchFromNone(s, i);
    } else {
      k := MatchFromSome(s, i);
    }
  }

  /** When MatchFrom finds nothing, MatchAt finds nothing from `i` on. */
  lemma {:induction false} MatchFromNone(s: string, i: nat)
    requires i <= |s| && MatchFrom(s, i).None?
    ensures forall k' :: i <= k' <= |s| ==> MatchAt(s, k').None?
    decreases |s| - i
  {
    if i < |s| {
      assert MatchAt(s, i).None? && MatchFrom(s, i + 1).None?;
      MatchFromNone(s, i + 1);
      forall k' | i <= k' <= |s|
        ensures MatchAt(s, k').None?
      {
        if k' > i {
          assert i + 1 <= k';
        }
      }
    }
  }

  /** When MatchFrom finds something, it is what MatchAt finds at the first
      position from `i` on where MatchAt finds anything. */
  lemma {:induction false} MatchFromSome(s: string, i: nat) returns (k: nat)
    requires i <= |s| && MatchFrom(s, i).Some?
    ensures i <= k <= |s| && MatchAt(s, k) == MatchFrom(s, i)
    ensures forall k' :: i <= k' < k ==> MatchAt(s, k').None?
    decreases |s| - i
  {
    if MatchAt(s, i).Some? {
      k := i;
    } else {
      assert i < |s| && MatchFrom(s, i) == MatchFrom(s, i + 1);
      k := MatchFromSome(s, i + 1);
      forall k' | i <= k' < k
        ensures MatchAt(s, k').None?
      {
        if k' > i {
          assert i + 1 <= k';
        }
      }
    }
  }

  /** No match starts past the end of the text. */
  lemma NoReferencePastEnd(s: string, k: nat, id: string, path: string)
    requires ReferenceAt(s, k, id, path)
    ensures k < |s|
  {
  }

  /** `id` and `path` are the groups of the match the regular expression
      finds: the match starts at `k`, none starts earlier, and no match at
      `k` has a shorter id. */
  ghost predicate LeftmostShortest(s: string, k: nat, id: string, path: string)
  {
    && ReferenceAt(s, k, id, path)
    && (forall k': nat, id', path' :: k' < k ==> !ReferenceAt(s, k', id', path'))
    && (forall id', path' :: ReferenceAt(s, k, id', path') ==> |id| <= |id'|)
  }

  /** The match FirstReference finds is the leftmost one with the shortest id. */
  lemma FirstReferenceIsLeftmostShortest(s: string) returns (k: nat)
    ensures FirstReference(s).Some? ==> LeftmostShortest(s, k, FirstReference(s).value.0, FirstReference(s).value.1)
    ensures FirstReference(s).None? ==> forall k': nat, id, path :: !ReferenceAt(s, k', id, path)
  {
    k := MatchFromSpec(s, 0);
    MatchAtSpec(s, k);
    forall k': nat, id, path | ReferenceAt(s, k', id, path)
      ensures FirstReference(s).Some? && k <= k'
    {
      NoReferencePastEnd(s, k', id, path);
      MatchAtSpec(s, k');
    }
  }

  /** There is only one leftmost match with the shortest id. */
  lemma LeftmostShortestUnique(s: string, k: nat, id: string, path: string, k2: nat, id2: string, path2: string)
    requires LeftmostShortest(s, k, id, path) && LeftmostShortest(s, k2, id2, path2)
    ensures id == id2 && path == path2
  {
    assert k == k2 by {
      assert ReferenceAt(s, k, id, path) && ReferenceAt(s, k2, id2, path2);
    }
    ReferenceAtUnique(s, k, id, path, id2, path2);
  }

  /** FirstReference finds exactly the leftmost match with the shortest id. */
  lemma FirstReferenceSpec(s: string, id: string, path: string)
    ensures FirstReference(s) == Some((id, path)) <==> exists k :: LeftmostShortest(s, k, id, path)
  {
    var k := FirstReferenceIsLeftmostShortest(s);
    if k2 :| LeftmostShortest(s, k2, id, path) {
      assert ReferenceAt(s, k2, id, path);
      LeftmostShortestUnique(s, k, FirstReference(s).value.0, FirstReference(s).value.1, k2, id, path);
    }
  }

  /** FirstReference finds nothing exactly when no match starts anywhere. */
  lemma FirstReferenceNone(s: string)
    ensures FirstReference(s).None? <==> forall k: nat, id, path :: !ReferenceAt(s, k, id, path)
  {
    var k := FirstReferenceIsLeftmostShortest(s);
  }

  /** In `@UUID[Actor.a].system.b].system.c` the pattern could match the
      id `a].system.b` with the path `c`. */
  lemma LongerIdExample()
    ensures ReferenceAt("@UUID[Actor.a].system.b].system.c", 0, "a].system.b", "c")
  {
    var s := "@UUID[Actor.a].system.b].system.c";
    assert Head + "a].system.b" + Middle + "c" == s by {
      assert Head + "a].system.b" == "@UUID[Actor.a].system.b";
      assert "@UUID[Actor.a].system.b" + Middle == "@UUID[Actor.a].system.b].system.";
    }
    assert s[0..|s|] == s;
  }

  /** The id group is lazy: in the same text the pattern matches the
      shorter id `a`, leaving `b].system.c` as the path. */
  lemma LazyIdExample()
    ensures FirstReference("@UUID[Actor.a].system.b].system.c") == Some(("a", "b].system.c"))
  {
    assert ReferenceText("a", "b].system.c") == "@UUID[Actor.a].system.b].system.c" by {
      assert Head + "a" == "@UUID[Actor.a";
      assert "@UUID[Actor.a" + Middle == "@UUID[Actor.a].system.";
    }
    FirstReferenceOfText("a", "b].system.c");
  }
}
