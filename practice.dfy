/**
  The daily-practice widget of the Ladderly journal: category icons, the
  "completed today" test, the suggestion of a practice not yet done today,
  and the mapping between the category filter and the value of its select box.
  Everything here is a pure function of the fetched practice items and of
  today's completion records.
 */
module PracticeSection {
  import opened Wrappers

  /** A practice item as returned by the items query. */
  datatype PracticeItem = PracticeItem(id: int, category: string, name: string, description: string)

  /** A completion record of today; only the practice it refers to matters here. */
  datatype PracticeCompletion = PracticeCompletion(practiceId: int)

  // ---------------------------------------------------------------------------
  // Category icons
  // ---------------------------------------------------------------------------

  /** The six practice categories, in the order the icon switch lists them. */
  const Categories: seq<string> :=
    ["COMMUNICATION", "LEADERSHIP", "OWNERSHIP", "TECHNICAL", "PERSUASION", "PERSONAL"]

  /** The icon of each category, position for position with `Categories`. */
  const CategoryIcons: seq<string> := ["💬", "👑", "🔑", "💻", "🎯", "🧘"]

  /** The icon shown for any other category string. */
  const DefaultIcon: string := "📝"

  /** The icon for a category string; total over all strings. */
  function CategoryIcon(category: string): (icon: string)
    ensures icon == DefaultIcon || icon in CategoryIcons
    ensures icon == DefaultIcon <==> category !in Categories
  {
    match category
    case "COMMUNICATION" => "💬"
    case "LEADERSHIP" => "👑"
    case "OWNERSHIP" => "🔑"
    case "TECHNICAL" => "💻"
    case "PERSUASION" => "🎯"
    case "PERSONAL" => "🧘"
    case _ => DefaultIcon
  }

  /** Each category gets the icon at its own position; every other string gets the default. */
  lemma CategoryIconTable(category: string)
    ensures forall i :: 0 <= i < |Categories| && category == Categories[i] ==> CategoryIcon(category) == CategoryIcons[i]
    ensures category !in Categories ==> CategoryIcon(category) == DefaultIcon
  {
  }

  /** The six icons are pairwise distinct and none of them is the default icon. */
  lemma CategoryIconsDistinct()
    ensures |CategoryIcons| == |Categories| == 6
    ensures forall i, j :: 0 <= i < j < |CategoryIcons| ==> CategoryIcons[i] != CategoryIcons[j]
    ensures DefaultIcon !in CategoryIcons
  {
  }

  /** Consequently two categories that share an icon are the same category. */
  lemma CategoryIconInjective(c1: string, c2: string)
    requires c1 in Categories && c2 in Categories
    requires CategoryIcon(c1) == CategoryIcon(c2)
    ensures c1 == c2
  {
  }

  // ---------------------------------------------------------------------------
  // Completion status
  // ---------------------------------------------------------------------------

  /** Whether some completion of today refers to the practice `practiceId` (a `.some` scan). */
  predicate IsCompletedToday(todayCompletions: seq<PracticeCompletion>, practiceId: int)
    ensures IsCompletedToday(todayCompletions, practiceId) <==>
              exists k :: 0 <= k < |todayCompletions| && todayCompletions[k].practiceId == practiceId
  {
    if |todayCompletions| == 0 then false
    else todayCompletions[0].practiceId == practiceId || IsCompletedToday(todayCompletions[1..], practiceId)
  }

  /** Only the set of practice ids that occur in the completions matters, not their order or repetition. */
  lemma IsCompletedTodayById(todayCompletions: seq<PracticeCompletion>, practiceId: int)
    ensures IsCompletedToday(todayCompletions, practiceId) <==>
              practiceId in (set c | c in todayCompletions :: c.practiceId)
  {
  }

  // ---------------------------------------------------------------------------
  // Available practices
  // ---------------------------------------------------------------------------

  /** `sub` is `s` with some elements left out, the rest kept in order. */
  predicate IsSubsequence<T(==)>(sub: seq<T>, s: seq<T>)
    decreases |s|
  {
    |sub| == 0 ||
    (|s| > 0 && ((sub[0] == s[0] && IsSubsequence(sub[1..], s[1..])) || IsSubsequence(sub, s[1..])))
  }

  /** The practices not completed today, in their original order (the `.filter` call). */
  function AvailablePractices(practices: seq<PracticeItem>, todayCompletions: seq<PracticeCompletion>): (available: seq<PracticeItem>)
    ensures |available| <= |practices|
    ensures forall p :: p in available ==> p in practices && !IsCompletedToday(todayCompletions, p.id)
    ensures forall i :: 0 <= i < |practices| && !IsCompletedToday(todayCompletions, practices[i].id) ==>
              practices[i] in available
  {
    if |practices| == 0 then []
    else
      var rest := AvailablePractices(practices[1..], todayCompletions);
      assert practices == [practices[0]] + practices[1..];
      if IsCompletedToday(todayCompletions, practices[0].id) then rest else [practices[0]] + rest
  }

  /** Each practice not completed today is kept as often as it occurs; a completed one is dropped. */
  lemma {:induction false} AvailableCounts(practices: seq<PracticeItem>, todayCompletions: seq<PracticeCompletion>, p: PracticeItem)
    ensures multiset(AvailablePractices(practices, todayCompletions))[p] ==
              (if IsCompletedToday(todayCompletions, p.id) then 0 else multiset(practices)[p])
  {
    if |practices| > 0 {
      AvailableCounts(practices[1..], todayCompletions, p);
      assert practices == [practices[0]] + practices[1..];
    }
  }

  /** The filter keeps the original order: the available list is a subsequence of the practices. */
  lemma {:induction false} AvailableIsSubsequence(practices: seq<PracticeItem>, todayCompletions: seq<PracticeCompletion>)
    ensures IsSubsequence(AvailablePractices(practices, todayCompletions), practices)
  {
    if |practices| > 0 {
      AvailableIsSubsequence(practices[1..], todayCompletions);
    }
  }

  /** Filtering distributes over concatenation, so it acts on each practice independently. */
  lemma {:induction false} AvailableOfConcat(a: seq<PracticeItem>, b: seq<PracticeItem>, todayCompletions: seq<PracticeCompletion>)
    ensures AvailablePractices(a + b, todayCompletions) ==
            AvailablePractices(a, todayCompletions) + AvailablePractices(b, todayCompletions)
  {
    if |a| > 0 {
      assert (a + b)[0] == a[0];
      assert (a + b)[1..] == a[1..] + b;
      AvailableOfConcat(a[1..], b, todayCompletions);
    } else {
      assert a + b == b;
    }
  }

  /** Nothing is available exactly when every practice has been completed today. */
  lemma NoneAvailableIffAllCompleted(practices: seq<PracticeItem>, todayCompletions: seq<PracticeCompletion>)
    ensures |AvailablePractices(practices, todayCompletions)| == 0 <==>
              forall i :: 0 <= i < |practices| ==> IsCompletedToday(todayCompletions, practices[i].id)
  {
  }

  // ---------------------------------------------------------------------------
  // The random draw
  // ---------------------------------------------------------------------------

  /** A value of `Math.random()`, written as the exact fraction num / den. */
  datatype Draw = Draw(num: nat, den: nat)

  /** `Math.random()` lies in [0, 1): the numerator is below the denominator. */
  type UnitDraw = d: Draw | d.num < d.den witness Draw(0, 1)

  /** `Math.floor(r * n)` for r = num / den: always a valid index into a list of length n. */
  function DrawIndex(r: UnitDraw, n: nat): (k: nat)
    requires n > 0
    ensures k < n
  {
    assert r.num * n < r.den * n by {
      MulStrictlyMonotone(r.num, r.den, n);
    }
    (r.num * n) / r.den
  }

  lemma MulStrictlyMonotone(a: nat, b: nat, n: nat)
    requires a < b && n > 0
    ensures a * n < b * n
  {
  }

  /** When the denominator is a multiple m of n, draw num picks index num / m, so every index is
      picked by exactly m of the den equally likely numerators. */
  lemma DrawIndexUniform(r: UnitDraw, n: nat, m: nat)
    requires n > 0 && r.den == n * m
    ensures DrawIndex(r, n) == r.num / m
    ensures forall j :: 0 <= j < n ==> (DrawIndex(r, n) == j <==> j * m <= r.num < (j + 1) * m)
  {
    assert m > 0;
    var q := r.num / m;
    var s := r.num % m;
    ScaleQuotientForm(r.num, m, n, q, s);
    QuotientUnique(r.num * n, n * m, q, s * n);
    forall j | 0 <= j < n
      ensures q == j <==> j * m <= r.num < (j + 1) * m
    {
      MulSuccessor(j, m);
      if j * m <= r.num < (j + 1) * m {
        QuotientUnique(r.num, m, j, r.num - j * m);
      }
    }
  }

  /** Multiplying x = q * m + s by n keeps the quotient form with divisor n * m. */
  lemma ScaleQuotientForm(x: nat, m: nat, n: nat, q: int, s: int)
    requires m > 0 && n > 0 && x == q * m + s && 0 <= s < m
    ensures x * n == q * (n * m) + s * n
    ensures 0 <= s * n < n * m
  {
  }

  lemma MulSuccessor(j: int, m: int)
    ensures (j + 1) * m == j * m + m
  {
  }

  /** The quotient is unique: if x = q * d + s with 0 <= s < d, then x / d == q. */
  lemma QuotientUnique(x: int, d: int, q: int, s: int)
    requires d > 0 && x == q * d + s && 0 <= s < d
    ensures x / d == q
  {
    var q0 := x / d;
    var s0 := x % d;
    assert x == q0 * d + s0 && 0 <= s0 < d;
    if q0 > q {
      MulAtLeast(q0 - q, d);
      MulDiff(q0, q, d);
    } else if q0 < q {
      MulAtLeast(q - q0, d);
      MulDiff(q, q0, d);
    }
  }

  lemma MulAtLeast(k: int, d: int)
    requires k >= 1 && d > 0
    ensures k * d >= d
  {
  }

  lemma MulDiff(a: int, b: int, d: int)
    ensures (a - b) * d == a * d - b * d
  {
  }

  /** Every index can be drawn: the draw j / n picks index j. */
  lemma DrawIndexReachesAll(n: nat, j: nat)
    requires j < n
    ensures DrawIndex(Draw(j, n), n) == j
  {
    DrawIndexUniform(Draw(j, n), n, 1);
  }

  // ---------------------------------------------------------------------------
  // The suggestion
  // ---------------------------------------------------------------------------

  /** The suggested practice, or `None` (`null`) when there is nothing left to suggest. */
  function RandomPractice(practices: seq<PracticeItem>, todayCompletions: seq<PracticeCompletion>, r: UnitDraw): (suggestion: Option<PracticeItem>)
    ensures |practices| == 0 ==> suggestion == None
    ensures suggestion == None <==>
              forall i :: 0 <= i < |practices| ==> IsCompletedToday(todayCompletions, practices[i].id)
    ensures suggestion.Some? ==>
              suggestion.value in practices && !IsCompletedToday(todayCompletions, suggestion.value.id)
  {
    if |practices| == 0 then None
    else
      var available := AvailablePractices(practices, todayCompletions);
      NoneAvailableIffAllCompleted(practices, todayCompletions);
      if |available| == 0 then None
      else Some(available[DrawIndex(r, |available|)])
  }

  /** The early return for an empty list changes nothing: the result is the draw from the available list. */
  lemma RandomPracticeDrawsFromAvailable(practices: seq<PracticeItem>, todayCompletions: seq<PracticeCompletion>, r: UnitDraw)
    ensures var available := AvailablePractices(practices, todayCompletions);
            RandomPractice(practices, todayCompletions, r) ==
              if |available| == 0 then None else Some(available[DrawIndex(r, |available|)])
  {
  }

  /** Every practice not completed today can be suggested, by some draw. */
  lemma EveryAvailablePracticeCanBeSuggested(practices: seq<PracticeItem>, todayCompletions: seq<PracticeCompletion>, p: PracticeItem)
    requires p in practices && !IsCompletedToday(todayCompletions, p.id)
    ensures exists r: UnitDraw :: RandomPractice(practices, todayCompletions, r) == Some(p)
  {
    var available := AvailablePractices(practices, todayCompletions);
    assert p in available;
    var j :| 0 <= j < |available| && available[j] == p;
    DrawIndexReachesAll(|available|, j);
    var r: UnitDraw := Draw(j, |available|);
    assert RandomPractice(practices, todayCompletions, r) == Some(p);
  }

  // ---------------------------------------------------------------------------
  // Logging a completion
  // ---------------------------------------------------------------------------

  /** Today's completions after logging practice `practiceId` and refetching them. */
  function LogCompletion(todayCompletions: seq<PracticeCompletion>, practiceId: int): (refetched: seq<PracticeCompletion>)
    ensures IsCompletedToday(refetched, practiceId)
    ensures forall id :: id != practiceId ==> (IsCompletedToday(refetched, id) <==> IsCompletedToday(todayCompletions, id))
  {
    var refetched := todayCompletions + [PracticeCompletion(practiceId)];
    assert refetched[|todayCompletions|].practiceId == practiceId;
    assert forall k :: 0 <= k < |todayCompletions| ==> refetched[k] == todayCompletions[k];
    refetched
  }

  /** After a completion is logged, the available list loses exactly the items with that id. */
  lemma {:induction false} AvailableAfterCompletion(practices: seq<PracticeItem>, todayCompletions: seq<PracticeCompletion>, practiceId: int)
    ensures AvailablePractices(practices, LogCompletion(todayCompletions, practiceId)) ==
            AvailablePractices(AvailablePractices(practices, todayCompletions), [PracticeCompletion(practiceId)])
  {
    if |practices| > 0 {
      AvailableAfterCompletion(practices[1..], todayCompletions, practiceId);
    }
  }

  /** The worked example: with items 1 (technical) and 2 (leadership) and item 1 done, the
      suggestion is item 2 whatever the draw; once item 2 is done too, there is none. */
  lemma SuggestionExample(r: UnitDraw)
    ensures var one := PracticeItem(1, "TECHNICAL", "", "");
            var two := PracticeItem(2, "LEADERSHIP", "", "");
            var done := [PracticeCompletion(1)];
            && RandomPractice([one, two], done, r) == Some(two)
            && RandomPractice([one, two], LogCompletion(done, 2), r) == None
  {
  }

  // ---------------------------------------------------------------------------
  // Category filter
  // ---------------------------------------------------------------------------

  /** The values offered by the filter select: "" for all categories, then each category. */
  const FilterOptions: seq<string> := [""] + Categories

  /** The select's displayed value, `selectedCategory ?? ''`. */
  function SelectValue(selectedCategory: Option<string>): (value: string)
    ensures value == "" <==> selectedCategory == None || selectedCategory == Some("")
    ensures selectedCategory.Some? ==> value == selectedCategory.value
  {
    match selectedCategory
    case None => ""
    case Some(c) => c
  }

  /** The new filter after choosing `value`, `value || undefined`: the empty string clears the filter. */
  function OnCategoryChange(value: string): (selectedCategory: Option<string>)
    ensures selectedCategory == None <==> value == ""
    ensures selectedCategory != Some("")
  {
    if value == "" then None else Some(value)
  }

  /** Showing a filter and choosing the shown value gives the same filter back. */
  lemma FilterRoundTrip(selectedCategory: Option<string>)
    requires selectedCategory != Some("")
    ensures OnCategoryChange(SelectValue(selectedCategory)) == selectedCategory
  {
  }

  /** Choosing a value and showing the resulting filter displays the chosen value. */
  lemma SelectRoundTrip(value: string)
    ensures SelectValue(OnCategoryChange(value)) == value
  {
  }

  /** Every option of the select yields "no filter" or one of the six categories. */
  lemma FilterOptionsYieldCategories(value: string)
    requires value in FilterOptions
    ensures var selected := OnCategoryChange(value);
            selected == None || selected.value in Categories
  {
  }
}
