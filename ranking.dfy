/** The second half of `generateXPathAlternatives` (xpath_finder/content.js):
    keeping the candidates whose expression is non-empty and valid, boosting
    the ones that mention the tag filter, and ordering by priority, highest
    first. `Array.prototype.sort` is stable, so candidates of equal priority
    keep their order. */
module Ranking {
  import opened Text

  datatype Specificity = Medium | High

  /** One suggested expression; `tagFiltered` is the flag the tag filter sets
      (absent, hence false, on a fresh candidate). */
  datatype Candidate = Candidate(
    xpath: string,
    description: string,
    specificity: Specificity,
    priority: int,
    tagFiltered: bool)

  // ---------------------------------------------------------------------------
  // Stable sort by descending priority

  /** Highest priority first. */
  predicate Sorted(cs: seq<Candidate>) {
    forall i, j :: 0 <= i < j < |cs| ==> cs[i].priority >= cs[j].priority
  }

  /** The candidates of priority `p`, in order. A stable sort keeps each of
      these subsequences as it is. */
  function WithPriority(cs: seq<Candidate>, p: int): seq<Candidate>
    decreases |cs|
  {
    if cs == [] then []
    else (if cs[0].priority == p then [cs[0]] else []) + WithPriority(cs[1..], p)
  }

  lemma {:induction false} WithPriorityAppend(a: seq<Candidate>, b: seq<Candidate>, p: int)
    ensures WithPriority(a + b, p) == WithPriority(a, p) + WithPriority(b, p)
    decreases |a|
  {
    if a == [] {
      assert a + b == b;
    } else {
      WithPriorityAppend(a[1..], b, p);
      WithPriorityCons(a[0], a[1..] + b, p);
      assert a + b == [a[0]] + (a[1..] + b);
    }
  }

  /** A block of one priority is its own subsequence for that priority... */
  lemma {:induction false} WithPriorityAll(cs: seq<Candidate>, p: int)
    requires forall k :: 0 <= k < |cs| ==> cs[k].priority == p
    ensures WithPriority(cs, p) == cs
    decreases |cs|
  {
    if cs != [] {
      WithPriorityAll(cs[1..], p);
      assert [cs[0]] + cs[1..] == cs;
    }
  }

  /** ...and contributes nothing to any other priority. */
  lemma {:induction false} WithPriorityNone(cs: seq<Candidate>, p: int)
    requires forall k :: 0 <= k < |cs| ==> cs[k].priority != p
    ensures WithPriority(cs, p) == []
    decreases |cs|
  {
    if cs != [] {
      WithPriorityNone(cs[1..], p);
    }
  }

  /** The candidates of priority `p` are candidates of the list. */
  lemma {:induction false} WithPriorityMember(cs: seq<Candidate>, p: int, x: Candidate)
    requires x in WithPriority(cs, p)
    ensures x in cs && x.priority == p
    decreases |cs|
  {
    if cs[0] != x || cs[0].priority != p {
      WithPriorityMember(cs[1..], p, x);
    }
  }

  /** A list whose first candidate has priority `p` starts its subsequence for `p`. */
  lemma WithPriorityFirst(cs: seq<Candidate>, p: int)
    requires cs != [] && cs[0].priority == p
    ensures WithPriority(cs, p) != [] && WithPriority(cs, p)[0] == cs[0]
  {
  }

  /** A list whose last candidate has priority `p` ends its subsequence for `p`. */
  lemma {:induction false} WithPriorityLast(cs: seq<Candidate>, p: int)
    requires cs != [] && cs[|cs| - 1].priority == p
    ensures WithPriority(cs, p) != []
    ensures WithPriority(cs, p)[|WithPriority(cs, p)| - 1] == cs[|cs| - 1]
    decreases |cs|
  {
    if |cs| > 1 {
      WithPriorityLast(cs[1..], p);
    }
  }

  /** Inserts `c` after every candidate of higher priority. */
  function Insert(c: Candidate, s: seq<Candidate>): (r: seq<Candidate>)
    requires Sorted(s)
    ensures Sorted(r)
    ensures multiset(r) == multiset(s) + multiset{c}
    ensures |r| == |s| + 1 && (r[0] == c || (s != [] && r[0] == s[0]))
    decreases |s|
  {
    if s == [] || s[0].priority <= c.priority then [c] + s
    else
      var t := Insert(c, s[1..]);
      assert s == [s[0]] + s[1..];
      [s[0]] + t
  }

  /** `cs.sort((a, b) => b.priority - a.priority)`. */
  function SortByPriority(cs: seq<Candidate>): (r: seq<Candidate>)
    ensures Sorted(r)
    ensures multiset(r) == multiset(cs)
    decreases |cs|
  {
    if cs == [] then []
    else
      assert cs == [cs[0]] + cs[1..];
      Insert(cs[0], SortByPriority(cs[1..]))
  }

  lemma WithPriorityCons(x: Candidate, xs: seq<Candidate>, p: int)
    ensures WithPriority([x] + xs, p) == (if x.priority == p then [x] else []) + WithPriority(xs, p)
  {
    assert ([x] + xs)[0] == x && ([x] + xs)[1..] == xs;
  }

  /** Inserting `c` puts it first among the candidates of its own priority... */
  lemma {:induction false} InsertStableSame(c: Candidate, s: seq<Candidate>)
    requires Sorted(s)
    ensures WithPriority(Insert(c, s), c.priority) == [c] + WithPriority(s, c.priority)
    decreases |s|
  {
    var p := c.priority;
    if s == [] || s[0].priority <= p {
      WithPriorityCons(c, s, p);
    } else {
      InsertStableSame(c, s[1..]);
      WithPriorityCons(s[0], Insert(c, s[1..]), p);
      WithPriorityCons(s[0], s[1..], p);
      assert [s[0]] + s[1..] == s;
    }
  }

  /** ...and leaves the candidates of every other priority as they were. */
  lemma {:induction false} InsertStableOther(c: Candidate, s: seq<Candidate>, p: int)
    requires Sorted(s) && p != c.priority
    ensures WithPriority(Insert(c, s), p) == WithPriority(s, p)
    decreases |s|
  {
    if s == [] || s[0].priority <= c.priority {
      WithPriorityCons(c, s, p);
    } else {
      InsertStableOther(c, s[1..], p);
      WithPriorityCons(s[0], Insert(c, s[1..]), p);
      WithPriorityCons(s[0], s[1..], p);
      assert [s[0]] + s[1..] == s;
    }
  }

  /** The sort is stable: for every priority, the candidates of that priority
      come out in the order they went in. */
  lemma {:induction false} SortStable(cs: seq<Candidate>, p: int)
    ensures WithPriority(SortByPriority(cs), p) == WithPriority(cs, p)
    decreases |cs|
  {
    if cs != [] {
      SortStable(cs[1..], p);
      if cs[0].priority == p {
        InsertStableSame(cs[0], SortByPriority(cs[1..]));
      } else {
        InsertStableOther(cs[0], SortByPriority(cs[1..]), p);
      }
      WithPriorityCons(cs[0], cs[1..], p);
      assert [cs[0]] + cs[1..] == cs;
    }
  }

  // ---------------------------------------------------------------------------
  // Keeping the valid candidates

  /** `item.xpath && isValidXPath(item.xpath)`. */
  predicate Usable(c: Candidate, isValid: string -> bool) {
    c.xpath != [] && isValid(c.xpath)
  }

  /** `xpaths.filter((item) => item.xpath && isValidXPath(item.xpath))`. */
  function KeepValid(cs: seq<Candidate>, isValid: string -> bool): (r: seq<Candidate>)
    ensures forall k :: 0 <= k < |r| ==> Usable(r[k], isValid)
    decreases |cs|
  {
    if cs == [] then []
    else (if Usable(cs[0], isValid) then [cs[0]] else []) + KeepValid(cs[1..], isValid)
  }

  /** The kept candidates are exactly the usable ones: each as often as it was
      generated, none added. */
  lemma {:induction false} KeepValidExactly(cs: seq<Candidate>, isValid: string -> bool, c: Candidate)
    ensures multiset(KeepValid(cs, isValid))[c] == if Usable(c, isValid) then multiset(cs)[c] else 0
    decreases |cs|
  {
    if cs != [] {
      KeepValidExactly(cs[1..], isValid, c);
      assert cs == [cs[0]] + cs[1..];
    }
  }

  /** Filtering and picking one priority commute. */
  lemma {:induction false} KeepValidWithPriority(cs: seq<Candidate>, isValid: string -> bool, p: int)
    ensures WithPriority(KeepValid(cs, isValid), p) == KeepValid(WithPriority(cs, p), isValid)
    decreases |cs|
  {
    if cs != [] {
      KeepValidWithPriority(cs[1..], isValid, p);
      var head := if Usable(cs[0], isValid) then [cs[0]] else [];
      WithPriorityAppend(head, KeepValid(cs[1..], isValid), p);
      var same := if cs[0].priority == p then [cs[0]] else [];
      KeepValidAppend(same, WithPriority(cs[1..], p), isValid);
    }
  }

  /** The filter keeps the generated order: filtering a concatenation is the
      concatenation of the filtered parts. */
  lemma {:induction false} KeepValidAppend(a: seq<Candidate>, b: seq<Candidate>, isValid: string -> bool)
    ensures KeepValid(a + b, isValid) == KeepValid(a, isValid) + KeepValid(b, isValid)
    decreases |a|
  {
    if a != [] {
      KeepValidAppend(a[1..], b, isValid);
      assert (a + b)[1..] == a[1..] + b;
    } else {
      assert a + b == b;
    }
  }

  // ---------------------------------------------------------------------------
  // The tag filter

  /** `item.xpath.includes(`//${t}`) || item.xpath.includes(`/${t}`)`: a plain
      substring test over the whole expression, so ancestor steps of a full
      path count, and so does any text inside a quoted value. */
  predicate Matches(x: string, t: string) {
    Includes(x, "//" + t) || Includes(x, "/" + t)
  }

  /** The first test is subsumed by the second. */
  lemma MatchesIff(x: string, t: string)
    ensures Matches(x, t) <==> Includes(x, "/" + t)
  {
    IncludesIff(x, "//" + t);
    IncludesIff(x, "/" + t);
    if Includes(x, "//" + t) {
      var i :| OccursAt(x, "//" + t, i);
      assert x[i + 1..i + 1 + |"/" + t|] == ("//" + t)[1..];
      assert OccursAt(x, "/" + t, i + 1);
    }
  }

  function Matching(cs: seq<Candidate>, t: string): (r: seq<Candidate>)
    ensures forall k :: 0 <= k < |r| ==> Matches(r[k].xpath, t)
    ensures multiset(r) <= multiset(cs)
    decreases |cs|
  {
    if cs == [] then []
    else
      assert cs == [cs[0]] + cs[1..];
      (if Matches(cs[0].xpath, t) then [cs[0]] else []) + Matching(cs[1..], t)
  }

  /** `validXPaths.filter((item) => !item.tagFiltered)` once the matching
      candidates, and only they, have been flagged. */
  function NotMatching(cs: seq<Candidate>, t: string): (r: seq<Candidate>)
    ensures forall k :: 0 <= k < |r| ==> !Matches(r[k].xpath, t)
    ensures multiset(r) <= multiset(cs)
    decreases |cs|
  {
    if cs == [] then []
    else
      assert cs == [cs[0]] + cs[1..];
      (if !Matches(cs[0].xpath, t) then [cs[0]] else []) + NotMatching(cs[1..], t)
  }

  /** `xs.filter(p)`: the reference both tag filters are proved against. */
  function Select<T>(p: T -> bool, xs: seq<T>): seq<T>
    decreases |xs|
  {
    if xs == [] then [] else (if p(xs[0]) then [xs[0]] else []) + Select(p, xs[1..])
  }

  /** Selecting from a concatenation selects from each part, in order. */
  lemma {:induction false} SelectAppend<T>(p: T -> bool, a: seq<T>, b: seq<T>)
    ensures Select(p, a + b) == Select(p, a) + Select(p, b)
    decreases |a|
  {
    if a != [] {
      SelectAppend(p, a[1..], b);
      assert (a + b)[1..] == a[1..] + b;
    } else {
      assert a + b == b;
    }
  }

  /** Selecting keeps each element `p` accepts as often as it occurs, and
      nothing else. */
  lemma {:induction false} SelectCount<T>(p: T -> bool, xs: seq<T>, x: T)
    ensures multiset(Select(p, xs))[x] == if p(x) then multiset(xs)[x] else 0
    decreases |xs|
  {
    if xs != [] {
      SelectCount(p, xs[1..], x);
      assert xs == [xs[0]] + xs[1..];
    }
  }

  /** The test the tag filter applies to one candidate. */
  function Matched(t: string): Candidate -> bool {
    (c: Candidate) => Matches(c.xpath, t)
  }

  /** Its negation. */
  function Unmatched(t: string): Candidate -> bool {
    (c: Candidate) => !Matches(c.xpath, t)
  }

  lemma {:induction false} MatchingIsSelect(cs: seq<Candidate>, t: string)
    ensures Matching(cs, t) == Select(Matched(t), cs)
    decreases |cs|
  {
    if cs != [] {
      MatchingIsSelect(cs[1..], t);
    }
  }

  lemma {:induction false} NotMatchingIsSelect(cs: seq<Candidate>, t: string)
    ensures NotMatching(cs, t) == Select(Unmatched(t), cs)
    decreases |cs|
  {
    if cs != [] {
      NotMatchingIsSelect(cs[1..], t);
    }
  }

  /** The matching candidates are kept, each as often as it occurs, and
      nothing else. */
  lemma MatchingExactly(cs: seq<Candidate>, t: string, c: Candidate)
    ensures multiset(Matching(cs, t))[c] == if Matches(c.xpath, t) then multiset(cs)[c] else 0
  {
    MatchingIsSelect(cs, t);
    SelectCount(Matched(t), cs, c);
  }

  /** The candidates that do not match are kept, each as often as it occurs,
      and nothing else. */
  lemma NotMatchingExactly(cs: seq<Candidate>, t: string, c: Candidate)
    ensures multiset(NotMatching(cs, t))[c] == if Matches(c.xpath, t) then 0 else multiset(cs)[c]
  {
    NotMatchingIsSelect(cs, t);
    SelectCount(Unmatched(t), cs, c);
  }

  /** The filter keeps the order: filtering a concatenation is the
      concatenation of the filtered parts. */
  lemma MatchingAppend(a: seq<Candidate>, b: seq<Candidate>, t: string)
    ensures Matching(a + b, t) == Matching(a, t) + Matching(b, t)
  {
    MatchingIsSelect(a + b, t);
    MatchingIsSelect(a, t);
    MatchingIsSelect(b, t);
    SelectAppend(Matched(t), a, b);
  }

  /** The same for the candidates that do not match. */
  lemma NotMatchingAppend(a: seq<Candidate>, b: seq<Candidate>, t: string)
    ensures NotMatching(a + b, t) == NotMatching(a, t) + NotMatching(b, t)
  {
    NotMatchingIsSelect(a + b, t);
    NotMatchingIsSelect(a, t);
    NotMatchingIsSelect(b, t);
    SelectAppend(Unmatched(t), a, b);
  }

  /** The effect of `item.priority += 100; item.tagFiltered = true` on one candidate. */
  function Boosted(c: Candidate): Candidate {
    c.(priority := c.priority + 100, tagFiltered := true)
  }

  /** `tagFilteredXPaths.forEach(...)`: every matching candidate boosted, in order. */
  function BoostAll(m: seq<Candidate>): (r: seq<Candidate>)
    ensures |r| == |m|
    ensures forall k :: 0 <= k < |r| ==> r[k] == Boosted(m[k])
    decreases |m|
  {
    if m == [] then [] else [Boosted(m[0])] + BoostAll(m[1..])
  }

  /** A filter that is not blank once trimmed. */
  predicate Active(tagFilter: string) {
    Trim(tagFilter) != []
  }

  /** What `generateXPathAlternatives` returns for the valid candidates `valid`. */
  function Rank(valid: seq<Candidate>, tagFilter: string): (r: seq<Candidate>)
    ensures Sorted(r)
  {
    var t := Lower(tagFilter);
    if Active(tagFilter) && |Matching(valid, t)| > 0 then
      SortByPriority(BoostAll(Matching(valid, t)) + NotMatching(valid, t))
    else SortByPriority(valid)
  }

  /** Without an active filter, or when no candidate mentions it, the result
      is the valid candidates sorted: a permutation of them in which every
      priority keeps the generated order. */
  lemma RankUnboosted(valid: seq<Candidate>, tagFilter: string)
    requires !Active(tagFilter) || |Matching(valid, Lower(tagFilter))| == 0
    ensures Rank(valid, tagFilter) == Rank(valid, "")
    ensures multiset(Rank(valid, tagFilter)) == multiset(valid)
    ensures forall p :: WithPriority(Rank(valid, tagFilter), p) == WithPriority(valid, p)
  {
    assert !Active("") by {
      assert Trim("") == [];
    }
    forall p ensures WithPriority(Rank(valid, tagFilter), p) == WithPriority(valid, p) {
      SortStable(valid, p);
    }
  }

  /** How a candidate of the boosted result looks: flagged exactly when its
      expression mentions the filter, flagged ones lifted to 100 and above. */
  predicate Classified(c: Candidate, t: string) {
    if c.tagFiltered then Matches(c.xpath, t) && c.priority >= 100
    else !Matches(c.xpath, t) && c.priority < 100
  }

  /** Generated candidates: priorities below 100, not yet flagged. */
  predicate Fresh(c: Candidate) {
    0 <= c.priority < 100 && !c.tagFiltered
  }

  /** With an active filter that some candidate mentions: the candidates that
      mention it get +100 and the flag, every flagged candidate precedes every
      unflagged one, the result is a permutation of the boosted and the
      untouched candidates, and every priority keeps its order. */
  lemma RankBoosted(valid: seq<Candidate>, tagFilter: string)
    requires Active(tagFilter) && |Matching(valid, Lower(tagFilter))| > 0
    requires forall k :: 0 <= k < |valid| ==> Fresh(valid[k])
    ensures var r := Rank(valid, tagFilter);
            var both := BoostAll(Matching(valid, Lower(tagFilter))) + NotMatching(valid, Lower(tagFilter));
            && multiset(r) == multiset(both)
            && |r| == |valid|
            && (forall k :: 0 <= k < |r| ==> (r[k].tagFiltered <==> Matches(r[k].xpath, Lower(tagFilter))))
            && (forall i, j :: 0 <= i < j < |r| && r[j].tagFiltered ==> r[i].tagFiltered)
            && (forall p :: WithPriority(r, p) == WithPriority(both, p))
  {
    var t := Lower(tagFilter);
    var both := BoostAll(Matching(valid, t)) + NotMatching(valid, t);
    assert Rank(valid, tagFilter) == SortByPriority(both);
    BothClassified(valid, t, both);
    SortClassified(both, t);
    SplitCount(valid, t);
  }

  /** Sorting a classified list: a permutation, flagged exactly when matching,
      flagged first, each priority in its original order. */
  lemma SortClassified(both: seq<Candidate>, t: string)
    requires forall k :: 0 <= k < |both| ==> Classified(both[k], t)
    ensures var r := SortByPriority(both);
            && multiset(r) == multiset(both)
            && |r| == |both|
            && (forall k :: 0 <= k < |r| ==> (r[k].tagFiltered <==> Matches(r[k].xpath, t)))
            && (forall i, j :: 0 <= i < j < |r| && r[j].tagFiltered ==> r[i].tagFiltered)
            && (forall p :: WithPriority(r, p) == WithPriority(both, p))
  {
    var r := SortByPriority(both);
    ClassifiedKept(both, r, t);
    forall p ensures WithPriority(r, p) == WithPriority(both, p) {
      SortStable(both, p);
    }
    assert |r| == |both| by {
      assert |multiset(r)| == |multiset(both)|;
    }
  }

  /** Before sorting: the boosted candidates, then the untouched ones. */
  lemma BothClassified(valid: seq<Candidate>, t: string, both: seq<Candidate>)
    requires forall k :: 0 <= k < |valid| ==> Fresh(valid[k])
    requires both == BoostAll(Matching(valid, t)) + NotMatching(valid, t)
    ensures forall k :: 0 <= k < |both| ==> Classified(both[k], t)
  {
    var m := Matching(valid, t);
    var n := NotMatching(valid, t);
    forall k | 0 <= k < |both| ensures Classified(both[k], t) {
      if k < |m| {
        assert both[k] == Boosted(m[k]);
        assert m[k] in multiset(valid);
      } else {
        assert both[k] == n[k - |m|];
        assert n[k - |m|] in multiset(valid);
      }
    }
  }

  /** Sorting a classified list keeps it classified and puts flagged first. */
  lemma ClassifiedKept(both: seq<Candidate>, r: seq<Candidate>, t: string)
    requires multiset(r) == multiset(both) && Sorted(r)
    requires forall k :: 0 <= k < |both| ==> Classified(both[k], t)
    ensures forall k :: 0 <= k < |r| ==> (r[k].tagFiltered <==> Matches(r[k].xpath, t))
    ensures forall i, j :: 0 <= i < j < |r| && r[j].tagFiltered ==> r[i].tagFiltered
  {
    forall k | 0 <= k < |r| ensures Classified(r[k], t) {
      assert r[k] in multiset(both);
    }
  }

  /** Every valid candidate either matches the filter or does not. */
  lemma {:induction false} SplitCount(cs: seq<Candidate>, t: string)
    ensures |Matching(cs, t)| + |NotMatching(cs, t)| == |cs|
    decreases |cs|
  {
    if cs != [] {
      SplitCount(cs[1..], t);
    }
  }
}
