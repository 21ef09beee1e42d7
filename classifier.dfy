/**
 * `classify` of the upload pass: a row's category from the classification rules,
 * an exact CODE rule first, then the NONSOR description rules in ascending priority.
 */
module Classifier {
  import opened Wrappers
  import opened JsText

  /** A rule's `kind` column; any value other than CODE and NONSOR is never used. */
  datatype RuleKind = Code | NonSor | Unrecognised

  datatype Rule = Rule(kind: RuleKind, pattern: string, categoryName: string, priority: Option<int>)

  datatype Classification = Classification(category: string, needsReview: bool)

  /** The priority of a rule whose priority is missing (`priority ?? 100`). */
  const DefaultPriority: int := 100

  /** The category of a row no rule claims. */
  const FallbackCategory: string := "Other"

  function EffectivePriority(r: Rule): int {
    r.priority.GetOr(DefaultPriority)
  }

  predicate IsExactCodeRule(r: Rule, code: string) {
    r.kind == Code && r.pattern == code
  }

  /** `rules.find(r => r.kind === 'CODE' && r.pattern === code)`. */
  function FindExact(rules: seq<Rule>, code: string): (o: Option<Rule>)
    ensures o.Some? ==> o.value in rules && IsExactCodeRule(o.value, code)
    ensures o.None? <==> forall x :: x in rules ==> !IsExactCodeRule(x, code)
  {
    if |rules| == 0 then None
    else if IsExactCodeRule(rules[0], code) then Some(rules[0])
    else
      assert forall x :: x in rules ==> x == rules[0] || x in rules[1..];
      FindExact(rules[1..], code)
  }

  /** `rules.filter(r => r.kind === 'NONSOR')`. */
  function OnlyNonSor(rules: seq<Rule>): (r: seq<Rule>)
    ensures forall x :: multiset(r)[x] == if x.kind == NonSor then multiset(rules)[x] else 0
    ensures forall x :: x in r <==> x in rules && x.kind == NonSor
  {
    if |rules| == 0 then []
    else
      assert rules == [rules[0]] + rules[1..];
      if rules[0].kind == NonSor then [rules[0]] + OnlyNonSor(rules[1..])
      else OnlyNonSor(rules[1..])
  }

  predicate SortedByPriority(s: seq<Rule>) {
    forall i, j :: 0 <= i < j < |s| ==> EffectivePriority(s[i]) <= EffectivePriority(s[j])
  }

  /** A rule no later than every rule of a sorted list can go in front of it. */
  lemma SortedCons(a: Rule, s: seq<Rule>)
    requires SortedByPriority(s)
    requires forall j :: 0 <= j < |s| ==> EffectivePriority(a) <= EffectivePriority(s[j])
    ensures SortedByPriority([a] + s)
  {
    var r := [a] + s;
    forall i, j | 0 <= i < j < |r| ensures EffectivePriority(r[i]) <= EffectivePriority(r[j]) {
      assert r[j] == s[j - 1];
      if i > 0 {
        assert r[i] == s[i - 1];
      }
    }
  }

  /** Places `x` before the first rule of `s` whose priority is not below its own. */
  function Insert(x: Rule, s: seq<Rule>): (r: seq<Rule>)
    requires SortedByPriority(s)
    ensures |r| == |s| + 1
    ensures forall y :: y in r <==> y in s || y == x
    ensures SortedByPriority(r)
    ensures multiset(r) == multiset(s) + multiset{x}
  {
    if |s| == 0 || EffectivePriority(x) <= EffectivePriority(s[0]) then
      SortedCons(x, s);
      [x] + s
    else
      var tail := Insert(x, s[1..]);
      assert s == [s[0]] + s[1..];
      forall j | 0 <= j < |tail| ensures EffectivePriority(s[0]) <= EffectivePriority(tail[j]) {
        assert tail[j] in tail;
        if tail[j] != x {
          var k :| 0 <= k < |s[1..]| && s[1..][k] == tail[j];
          assert s[k + 1] == tail[j];
        }
      }
      SortedCons(s[0], tail);
      [s[0]] + tail
  }

  /**
   * The stable sort `.sort((a, b) => (a.priority ?? 100) - (b.priority ?? 100))`,
   * written as an insertion sort: a rule that comes earlier keeps its place ahead of
   * every later rule of the same priority.
   */
  function SortByPriority(s: seq<Rule>): (r: seq<Rule>)
    ensures SortedByPriority(r)
    ensures multiset(r) == multiset(s)
  {
    if |s| == 0 then []
    else
      assert s == [s[0]] + s[1..];
      Insert(s[0], SortByPriority(s[1..]))
  }

  /** `lower.includes(String(r.pattern).toLowerCase())`. */
  predicate Matches(r: Rule, lower: string) {
    Contains(lower, Lower(r.pattern))
  }

  predicate IsNonSorMatch(r: Rule, lower: string) {
    r.kind == NonSor && Matches(r, lower)
  }

  /** `.find(r => lower.includes(...))` over the sorted NONSOR rules. */
  function FindMatch(s: seq<Rule>, lower: string): (o: Option<Rule>)
    ensures o.Some? ==> o.value in s && Matches(o.value, lower)
    ensures o.Some? ==>
      exists k :: 0 <= k < |s| && s[k] == o.value && forall j :: 0 <= j < k ==> !Matches(s[j], lower)
    ensures o.None? <==> forall x :: x in s ==> !Matches(x, lower)
  {
    if |s| == 0 then None
    else if Matches(s[0], lower) then Some(s[0])
    else
      assert forall x :: x in s ==> x == s[0] || x in s[1..];
      var o := FindMatch(s[1..], lower);
      if o.Some? then
        var k :| 0 <= k < |s[1..]| && s[1..][k] == o.value && forall j :: 0 <= j < k ==> !Matches(s[1..][j], lower);
        assert s[k + 1] == o.value && forall j :: 0 <= j < k + 1 ==> !Matches(s[j], lower);
        o
      else o
  }

  /** The classifier's NONSOR step: `find` over the stably sorted NONSOR rules. */
  function SortedFind(rules: seq<Rule>, lower: string): (o: Option<Rule>)
    ensures o.Some? ==> o.value in rules && IsNonSorMatch(o.value, lower)
    ensures o.None? <==> forall x :: x in rules ==> !IsNonSorMatch(x, lower)
  {
    var sorted := SortByPriority(OnlyNonSor(rules));
    assert forall x :: x in sorted <==> x in rules && x.kind == NonSor by {
      forall x ensures x in sorted <==> x in OnlyNonSor(rules) {
        assert x in sorted <==> x in multiset(sorted);
        assert x in OnlyNonSor(rules) <==> x in multiset(OnlyNonSor(rules));
      }
    }
    FindMatch(sorted, lower)
  }

  /**
   * `classify(row)` on the row's raw CODE and DESCRIPTION cells: a category a rule
   * claims with no review, or the fallback category with review.
   */
  function Classify(rawCode: string, rawDescription: string, rules: seq<Rule>): (c: Classification)
    ensures c.needsReview ==> c.category == FallbackCategory
    ensures !c.needsReview ==>
      exists x :: && x in rules && x.categoryName == c.category
                  && (IsExactCodeRule(x, Trim(rawCode)) || IsNonSorMatch(x, Lower(Trim(rawDescription))))
  {
    var code := Trim(rawCode);
    var description := Trim(rawDescription);
    match FindExact(rules, code)
    case Some(exact) => Classification(exact.categoryName, false)
    case None =>
      var lower := Lower(description);
      match SortedFind(rules, lower)
      case Some(m) => Classification(m.categoryName, false)
      case None => Classification(FallbackCategory, true)
  }

  // ---------- The reference definitions ----------

  /** `rules[k]` is the first exact CODE rule for `code`. */
  ghost predicate IsFirstExact(rules: seq<Rule>, code: string, k: int) {
    && 0 <= k < |rules|
    && IsExactCodeRule(rules[k], code)
    && forall j :: 0 <= j < k ==> !IsExactCodeRule(rules[j], code)
  }

  /** Rule `k` comes ahead of rule `j`: a lower priority, or the same one and not later. */
  predicate Precedes(rules: seq<Rule>, k: int, j: int)
    requires 0 <= k < |rules| && 0 <= j < |rules|
  {
    || EffectivePriority(rules[k]) < EffectivePriority(rules[j])
    || (EffectivePriority(rules[k]) == EffectivePriority(rules[j]) && k <= j)
  }

  /**
   * `rules[k]` is the NONSOR rule that matches `lower` with the least effective
   * priority, the earliest one among rules of that priority.
   */
  ghost predicate IsBestMatch(rules: seq<Rule>, lower: string, k: int) {
    && 0 <= k < |rules|
    && IsNonSorMatch(rules[k], lower)
    && forall j :: 0 <= j < |rules| && IsNonSorMatch(rules[j], lower) ==> Precedes(rules, k, j)
  }

  /** No rule claims a row: no exact CODE rule for `code` and no NONSOR rule matching `lower`. */
  predicate Unclaimed(rules: seq<Rule>, code: string, lower: string) {
    && (forall j :: 0 <= j < |rules| ==> !IsExactCodeRule(rules[j], code))
    && (forall j :: 0 <= j < |rules| ==> !IsNonSorMatch(rules[j], lower))
  }

  // ---------- Lemmas ----------

  /** `find` returns the first exact CODE rule, and nothing only when there is none. */
  lemma {:induction false} FindExactIsFirst(rules: seq<Rule>, code: string)
    ensures FindExact(rules, code).None? <==> forall k :: 0 <= k < |rules| ==> !IsExactCodeRule(rules[k], code)
    ensures FindExact(rules, code).Some? ==>
      exists k :: IsFirstExact(rules, code, k) && FindExact(rules, code).value == rules[k]
  {
    if |rules| > 0 {
      if IsExactCodeRule(rules[0], code) {
        assert IsFirstExact(rules, code, 0);
      } else {
        var tail := rules[1..];
        FindExactIsFirst(tail, code);
        assert forall k :: 1 <= k < |rules| ==> rules[k] == tail[k - 1];
        if FindExact(tail, code).Some? {
          var k :| IsFirstExact(tail, code, k) && FindExact(tail, code).value == tail[k];
          assert IsFirstExact(rules, code, k + 1);
        }
      }
    }
  }

  /** At most one rule is the best match. */
  lemma BestMatchUnique(rules: seq<Rule>, lower: string, k1: int, k2: int)
    requires IsBestMatch(rules, lower, k1) && IsBestMatch(rules, lower, k2)
    ensures k1 == k2
  {
    assert Precedes(rules, k1, k2) && Precedes(rules, k2, k1);
  }

  /** Choice between an inserted rule and the first match among the others. */
  function PreferEarlier(x: Rule, o: Option<Rule>, lower: string): Option<Rule> {
    if !Matches(x, lower) then o
    else match o
      case None => Some(x)
      case Some(y) => if EffectivePriority(x) <= EffectivePriority(y) then Some(x) else Some(y)
  }

  /**
   * Inserting `x` into a sorted list lets `find` return `x` exactly when `x` matches
   * and no match that was found before has a strictly lower priority.
   */
  lemma {:induction false} FindMatchInsert(x: Rule, s: seq<Rule>, lower: string)
    requires SortedByPriority(s)
    ensures FindMatch(Insert(x, s), lower) == PreferEarlier(x, FindMatch(s, lower), lower)
  {
    if |s| == 0 {
      assert Insert(x, s) == [x];
    } else if EffectivePriority(x) <= EffectivePriority(s[0]) {
      var r := Insert(x, s);
      assert r == [x] + s;
      assert r[0] == x && r[1..] == s;
      var o := FindMatch(s, lower);
      if Matches(x, lower) {
        assert FindMatch(r, lower) == Some(x);
        if o.Some? {
          var i :| 0 <= i < |s| && s[i] == o.value;
          assert EffectivePriority(s[0]) <= EffectivePriority(s[i]);
        }
      } else {
        assert FindMatch(r, lower) == o;
      }
    } else {
      var r, rest := Insert(x, s), Insert(x, s[1..]);
      assert r == [s[0]] + rest;
      assert r[0] == s[0] && r[1..] == rest;
      FindMatchInsert(x, s[1..], lower);
      if Matches(s[0], lower) {
        assert FindMatch(r, lower) == Some(s[0]);
        assert FindMatch(s, lower) == Some(s[0]);
      } else {
        assert FindMatch(r, lower) == FindMatch(rest, lower);
        assert FindMatch(s, lower) == FindMatch(s[1..], lower);
      }
    }
  }

  /** One rule more at the front: the sorted search weighs it against the rest's result. */
  lemma SortedFindCons(rules: seq<Rule>, lower: string)
    requires |rules| > 0
    ensures SortedFind(rules, lower) ==
      if rules[0].kind == NonSor then PreferEarlier(rules[0], SortedFind(rules[1..], lower), lower)
      else SortedFind(rules[1..], lower)
  {
    var x, tail := rules[0], rules[1..];
    assert rules == [x] + tail;
    if x.kind == NonSor {
      assert OnlyNonSor(rules) == [x] + OnlyNonSor(tail);
      var l := OnlyNonSor(rules);
      assert l[0] == x && l[1..] == OnlyNonSor(tail);
      assert SortByPriority(l) == Insert(x, SortByPriority(OnlyNonSor(tail)));
      FindMatchInsert(x, SortByPriority(OnlyNonSor(tail)), lower);
    } else {
      assert OnlyNonSor(rules) == OnlyNonSor(tail);
    }
  }

  /** The first rule is the best match when it matches and nothing later beats it. */
  lemma BestMatchHead(rules: seq<Rule>, lower: string)
    requires |rules| > 0 && IsNonSorMatch(rules[0], lower)
    requires forall j :: 1 <= j < |rules| && IsNonSorMatch(rules[j], lower) ==>
      EffectivePriority(rules[0]) <= EffectivePriority(rules[j])
    ensures IsBestMatch(rules, lower, 0)
  {
  }

  /** The best match of the tail stays best when the head does not beat it. */
  lemma BestMatchShift(rules: seq<Rule>, lower: string, k: int)
    requires |rules| > 0 && IsBestMatch(rules[1..], lower, k)
    requires IsNonSorMatch(rules[0], lower) ==> EffectivePriority(rules[k + 1]) < EffectivePriority(rules[0])
    ensures IsBestMatch(rules, lower, k + 1)
  {
    var tail := rules[1..];
    forall j | 0 <= j < |rules| && IsNonSorMatch(rules[j], lower)
      ensures Precedes(rules, k + 1, j)
    {
      if j > 0 {
        assert rules[j] == tail[j - 1];
        assert Precedes(tail, k, j - 1);
      }
    }
  }

  /**
   * `find` over the stably sorted NONSOR rules yields the best match, and nothing
   * exactly when no NONSOR rule matches.
   */
  lemma {:induction false} SortedFindIsBest(rules: seq<Rule>, lower: string)
    ensures SortedFind(rules, lower).None? <==>
      forall k :: 0 <= k < |rules| ==> !IsNonSorMatch(rules[k], lower)
    ensures SortedFind(rules, lower).Some? ==>
      exists k :: IsBestMatch(rules, lower, k) && SortedFind(rules, lower).value == rules[k]
  {
    if |rules| > 0 {
      var x, tail := rules[0], rules[1..];
      SortedFindIsBest(tail, lower);
      SortedFindCons(rules, lower);
      var found, res := SortedFind(tail, lower), SortedFind(rules, lower);
      if IsNonSorMatch(x, lower) && (found.None? || EffectivePriority(x) <= EffectivePriority(found.value)) {
        assert res == Some(x);
        if found.Some? {
          var k :| IsBestMatch(tail, lower, k) && found.value == tail[k];
          forall j | 1 <= j < |rules| && IsNonSorMatch(rules[j], lower)
            ensures EffectivePriority(x) <= EffectivePriority(rules[j])
          {
            assert rules[j] == tail[j - 1];
            assert Precedes(tail, k, j - 1);
          }
        } else {
          assert forall j :: 1 <= j < |rules| ==> rules[j] == tail[j - 1];
        }
        BestMatchHead(rules, lower);
      } else if found.Some? {
        assert res == found;
        var k :| IsBestMatch(tail, lower, k) && found.value == tail[k];
        assert rules[k + 1] == tail[k];
        BestMatchShift(rules, lower, k);
        assert IsNonSorMatch(rules[k + 1], lower);
      } else {
        assert res.None?;
        forall j | 0 <= j < |rules|
          ensures !IsNonSorMatch(rules[j], lower)
        {
          if j > 0 {
            assert rules[j] == tail[j - 1];
          }
        }
      }
    }
  }

  /**
   * An exact CODE rule decides the category, whatever the NONSOR rules say: the first
   * such rule's category, with no review needed.
   */
  lemma ClassifyByCode(rawCode: string, rawDescription: string, rules: seq<Rule>)
    requires exists k :: 0 <= k < |rules| && IsExactCodeRule(rules[k], Trim(rawCode))
    ensures exists k ::
      && IsFirstExact(rules, Trim(rawCode), k)
      && Classify(rawCode, rawDescription, rules) == Classification(rules[k].categoryName, false)
  {
    FindExactIsFirst(rules, Trim(rawCode));
  }

  /**
   * Without an exact CODE rule, the category is that of the best matching NONSOR rule
   * (least effective priority, earliest on ties), with no review needed.
   */
  lemma ClassifyByDescription(rawCode: string, rawDescription: string, rules: seq<Rule>, k: int)
    requires forall j :: 0 <= j < |rules| ==> !IsExactCodeRule(rules[j], Trim(rawCode))
    requires IsBestMatch(rules, Lower(Trim(rawDescription)), k)
    ensures Classify(rawCode, rawDescription, rules) == Classification(rules[k].categoryName, false)
  {
    var lower := Lower(Trim(rawDescription));
    FindExactIsFirst(rules, Trim(rawCode));
    SortedFindIsBest(rules, lower);
    var k' :| IsBestMatch(rules, lower, k') && SortedFind(rules, lower).value == rules[k'];
    BestMatchUnique(rules, lower, k, k');
  }

  /** A row no rule claims goes to "Other" and needs review. */
  lemma ClassifyFallback(rawCode: string, rawDescription: string, rules: seq<Rule>)
    requires forall j :: 0 <= j < |rules| ==> !IsExactCodeRule(rules[j], Trim(rawCode))
    requires forall j :: 0 <= j < |rules| ==> !IsNonSorMatch(rules[j], Lower(Trim(rawDescription)))
    ensures Classify(rawCode, rawDescription, rules) == Classification(FallbackCategory, true)
  {
    FindExactIsFirst(rules, Trim(rawCode));
    SortedFindIsBest(rules, Lower(Trim(rawDescription)));
  }

  /** Classification asks for review exactly when neither kind of rule applies. */
  lemma ClassifyNeedsReviewIff(rawCode: string, rawDescription: string, rules: seq<Rule>)
    ensures Classify(rawCode, rawDescription, rules).needsReview <==>
      Unclaimed(rules, Trim(rawCode), Lower(Trim(rawDescription)))
  {
    FindExactIsFirst(rules, Trim(rawCode));
    SortedFindIsBest(rules, Lower(Trim(rawDescription)));
  }
}
