/** The list of recently picked XPath expressions the content script keeps
    while the user hovers over elements: the best candidate of each hovered
    element is put in front unless already listed, and the list never holds
    more than `MaxRecent` entries. */
module Recent {
  import opened Ranking

  /** `MAX_RECENT_XPATHS`. */
  const MaxRecent: nat := 10

  /** No expression is listed twice. */
  predicate Distinct(l: seq<string>) {
    forall i, j :: 0 <= i < j < |l| ==> l[i] != l[j]
  }

  /** The list after recording `x`: unchanged when `x` is already listed;
      otherwise `x` goes in front and, when that makes the list longer than
      `MaxRecent`, its last (oldest) entry is dropped. */
  function RecentAfter(l: seq<string>, x: string): (r: seq<string>)
    ensures x in r
    ensures x in l ==> r == l
    ensures |r| == if x in l || |l| >= MaxRecent then |l| else |l| + 1
    ensures x !in l ==> r[0] == x && r[1..] == l[..|r| - 1]
    ensures Distinct(l) ==> Distinct(r)
    ensures |l| <= MaxRecent ==> |r| <= MaxRecent
  {
    if x in l then l
    else
      var front := [x] + l;
      assert front[0] == x && front[1..] == l;
      if |front| > MaxRecent then front[..|front| - 1] else front
  }

  /** Recording what is already at the front changes nothing. */
  lemma RecordTwice(l: seq<string>, x: string)
    ensures RecentAfter(RecentAfter(l, x), x) == RecentAfter(l, x)
  {
  }

  /** Every listed expression survives a new entry except, when the list was
      full, the oldest one. */
  lemma OlderKept(l: seq<string>, x: string, k: nat)
    requires k < |l| && (|l| < MaxRecent || k < |l| - 1)
    ensures l[k] in RecentAfter(l, x)
  {
    var r := RecentAfter(l, x);
    if x !in l {
      assert r[k + 1] == r[1..][k] == l[k];
    }
  }

  /** `recentXPaths`, updated in place by the hover handler. */
  class RecentXPaths {
    var items: seq<string>

    /** At most `MaxRecent` expressions, none twice. */
    ghost predicate Valid()
      reads this
    {
      |items| <= MaxRecent && Distinct(items)
    }

    /** `let recentXPaths = [];` */
    constructor ()
      ensures items == [] && Valid()
    {
      items := [];
    }

    /** Records the first (best) of the candidates just generated for the
        hovered element, when there is one. */
    method Record(alternatives: seq<Candidate>)
      modifies this
      ensures items == if alternatives == [] then old(items) else RecentAfter(old(items), alternatives[0].xpath)
      ensures old(Valid()) ==> Valid()
    {
      if |alternatives| > 0 {
        var newXPath := alternatives[0].xpath;
        if newXPath !in items {
          items := [newXPath] + items;
          if |items| > MaxRecent {
            items := items[..|items| - 1];
          }
        }
      }
    }
  }
}
