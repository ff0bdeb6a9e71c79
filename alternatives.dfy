/** `generateXPathAlternatives` (xpath_finder/content.js): the candidate
    expressions for one element, generated block by block (id, classes, text,
    attributes, full path), then filtered, boosted and ordered by `Rank`.

    The functions state what each block yields; the methods are the source's
    pushes and loops, each proved to yield what its function states. The
    global `strictMode` and `tagFilter` are parameters, and so is
    `isValidXPath`, whose answer comes from the browser's XPath engine. */
module Alternatives {
  import opened Wrappers
  import opened Text
  import opened Dom
  import opened XPathLiteral
  import opened ElementPath
  import opened Ranking

  // ---------------------------------------------------------------------------
  // What each block yields

  /** The tags whose text content is worth matching on. */
  predicate IsTextTag(tag: string) {
    || tag == "p" || tag == "h1" || tag == "h2" || tag == "h3" || tag == "h4"
    || tag == "h5" || tag == "h6" || tag == "span" || tag == "a" || tag == "button"
    || tag == "label" || tag == "li"
  }

  /** `element.className.trim().split(/\s+/)` when the class name is a
      non-blank string, no classes otherwise. */
  function ClassNames(e: Element): (r: seq<string>)
    ensures r != [] <==> e.className.Some? && Trim(e.className.value) != []
    ensures forall k :: 0 <= k < |r| ==> r[k] != [] && NoSpace(r[k])
  {
    match e.className
    case None => []
    case Some(cn) =>
      if cn != [] && Trim(cn) != [] then
        SplitTrimmedIsWords(Trim(cn));
        SplitWs(Trim(cn))
      else []
  }

  /** The classes are the words of the trimmed class name, in order: what
      lies between its runs of white space. */
  lemma ClassNamesAreWords(e: Element)
    ensures ClassNames(e) != [] ==> Spaced(Trim(e.className.value), ClassNames(e))
  {
    if ClassNames(e) != [] {
      SplitWsSpaced(Trim(e.className.value));
    }
  }

  /** The id candidate for any tag, when the id is not empty. */
  function IdCandidates(e: Element): seq<Candidate> {
    if e.id == [] then []
    else [Candidate("//*[@id=" + Escape(Some(e.id)) + "]", "By ID", High, 10, false)]
  }

  /** The id candidate for this tag, when the id is not empty. */
  function TagIdCandidates(e: Element, tag: string): seq<Candidate> {
    if e.id == [] then []
    else [Candidate("//" + tag + "[@id=" + Escape(Some(e.id)) + "]", "By tag and ID", High, 9, false)]
  }

  function ClassCondition(cls: string): string {
    "contains(@class, " + Escape(Some(cls)) + ")"
  }

  /** `xs.map(f)`, built from the back as the source's loops build their arrays. */
  function Map<A, B>(f: A -> B, xs: seq<A>): (r: seq<B>)
    ensures |r| == |xs|
    ensures forall k :: 0 <= k < |xs| ==> r[k] == f(xs[k])
    decreases |xs|
  {
    if xs == [] then []
    else
      var init := xs[..|xs| - 1];
      assert forall k :: 0 <= k < |init| ==> init[k] == xs[k];
      Map(f, init) + [f(xs[|xs| - 1])]
  }

  /** `classes.map((cls) => `contains(@class, ...)`)`. */
  function ClassConditions(classes: seq<string>): seq<string> {
    Map(ClassCondition, classes)
  }

  function ClassCandidate(tag: string, cls: string): Candidate {
    Candidate("//" + tag + "[contains(@class, " + Escape(Some(cls)) + ")]",
              "By class \"" + cls + "\"", Medium, 6, false)
  }

  /** `classes.forEach(...)`: one candidate per class, in class order. */
  function EachClassCandidates(tag: string, classes: seq<string>): seq<Candidate> {
    Map((cls: string) => ClassCandidate(tag, cls), classes)
  }

  /** The conjunction of all classes, when there are two or more. */
  function AllClassesCandidates(tag: string, classes: seq<string>): seq<Candidate> {
    if |classes| > 1 then
      [Candidate("//" + tag + "[" + Join(ClassConditions(classes), " and ") + "]",
                 "By all classes", High, 8, false)]
    else []
  }

  function TextCandidates(e: Element, tag: string): seq<Candidate> {
    if IsTextTag(tag) then
      var text := Trim(e.textContent);
      if text != [] && |text| < 50 then
        [Candidate("//" + tag + "[contains(text(), " + Escape(Some(text)) + ")]",
                   "By text content", Medium, 7, false)]
      else []
    else []
  }

  /** `["id", "class"].includes(attr.name) || !attr.value`. */
  predicate Skipped(a: Attribute) {
    a.name == "id" || a.name == "class" || a.value == []
  }

  /** The attribute names that make a candidate. */
  predicate UsefulName(name: string) {
    || name == "name" || name == "type" || StartsWith(name, "data-")
    || name == "placeholder" || name == "title" || name == "value"
  }

  function AttributeCandidate(tag: string, a: Attribute): Candidate {
    Candidate("//" + tag + "[@" + a.name + "=" + Escape(Some(a.value)) + "]",
              "By " + a.name + "=\"" + a.value + "\"", Medium, 5, false)
  }

  /** An attribute that makes a candidate. */
  predicate Used(a: Attribute) {
    !Skipped(a) && UsefulName(a.name)
  }

  /** The attributes that make a candidate, in attribute order. */
  function UsedAttributes(attrs: seq<Attribute>): (r: seq<Attribute>)
    ensures forall k :: 0 <= k < |r| ==> Used(r[k])
    decreases |attrs|
  {
    if attrs == [] then []
    else
      var a := attrs[|attrs| - 1];
      UsedAttributes(attrs[..|attrs| - 1]) + (if Used(a) then [a] else [])
  }

  /** One candidate per attribute that is neither skipped nor useless, in
      attribute order. */
  function AttributeCandidates(tag: string, attrs: seq<Attribute>): (r: seq<Candidate>)
    ensures |r| == |UsedAttributes(attrs)|
    ensures forall k :: 0 <= k < |r| ==> r[k] == AttributeCandidate(tag, UsedAttributes(attrs)[k])
    decreases |attrs|
  {
    if attrs == [] then []
    else
      var a := attrs[|attrs| - 1];
      AttributeCandidates(tag, attrs[..|attrs| - 1])
      + (if !Skipped(a) && UsefulName(a.name) then [AttributeCandidate(tag, a)] else [])
  }

  function FullPathCandidate(e: Element, strict: bool): Candidate
    requires Attached(e)
  {
    Candidate(ElementXPath(Some(e), strict), "Full path", High, 1, false)
  }

  /** The `xpaths` array before filtering, in push order. */
  function Generated(e: Element, strict: bool): seq<Candidate>
    requires Attached(e)
  {
    var tag := Lower(e.tagName);
    var classes := ClassNames(e);
    IdCandidates(e) + TagIdCandidates(e, tag) + AllClassesCandidates(tag, classes)
    + EachClassCandidates(tag, classes) + TextCandidates(e, tag)
    + AttributeCandidates(tag, e.attributes) + [FullPathCandidate(e, strict)]
  }

  /** The pushes of `generateXPathAlternatives`, one block each, and the
      priority every candidate of each block has. */
  function Blocks(e: Element, strict: bool): (bs: seq<seq<Candidate>>)
    requires Attached(e)
    ensures |bs| == |BlockPriorities|
  {
    var tag := Lower(e.tagName);
    var classes := ClassNames(e);
    [ IdCandidates(e), TagIdCandidates(e, tag), AllClassesCandidates(tag, classes),
      EachClassCandidates(tag, classes), TextCandidates(e, tag),
      AttributeCandidates(tag, e.attributes), [FullPathCandidate(e, strict)] ]
  }

  const BlockPriorities: seq<int> := [10, 9, 8, 6, 7, 5, 1]

  /** What `generateXPathAlternatives(element)` returns. */
  function Alternatives(e: Option<Element>, strict: bool, tagFilter: string,
                        isValid: string -> bool): seq<Candidate>
    requires e.Some? ==> Attached(e.value)
  {
    match e
    case None => []
    case Some(el) => Rank(KeepValid(Generated(el, strict), isValid), tagFilter)
  }

  // ---------------------------------------------------------------------------
  // The source's code

  method GenerateXPathAlternatives(e: Option<Element>, strict: bool, tagFilter: string,
                                   isValid: string -> bool) returns (r: seq<Candidate>)
    requires e.Some? ==> Attached(e.value)
    ensures r == Alternatives(e, strict, tagFilter, isValid)
    ensures Sorted(r)
    ensures forall k :: 0 <= k < |r| ==> Usable(r[k], isValid)
  {
    if e.None? {
      return [];
    }
    var el := e.value;
    var tag := Lower(el.tagName);
    var byId, byTagAndId := IdXPaths(el, tag);
    var xpaths := byId + byTagAndId;
    var allClasses, eachClass := ClassXPaths(el, tag);
    xpaths := xpaths + allClasses;
    xpaths := xpaths + eachClass;
    var byText := TextXPaths(el, tag);
    xpaths := xpaths + byText;
    var byAttribute := AttributeXPaths(tag, el.attributes);
    xpaths := xpaths + byAttribute;
    xpaths := xpaths + [Candidate(ElementXPath(Some(el), strict), "Full path", High, 1, false)];
    var validXPaths := KeepValid(xpaths, isValid);
    r := RankCandidates(validXPaths, tagFilter);
    RankKeepsUsable(validXPaths, tagFilter, isValid);
  }

  /** The two id pushes. */
  method IdXPaths(e: Element, tag: string) returns (byId: seq<Candidate>, byTagAndId: seq<Candidate>)
    ensures byId == IdCandidates(e) && byTagAndId == TagIdCandidates(e, tag)
  {
    byId, byTagAndId := [], [];
    if e.id != [] {
      var escapedId := EscapeXPathString(Some(e.id));
      byId := byId + [Candidate("//*[@id=" + escapedId + "]", "By ID", High, 10, false)];
      byTagAndId := byTagAndId + [Candidate("//" + tag + "[@id=" + escapedId + "]", "By tag and ID", High, 9, false)];
    }
  }

  /** The class block: the conjunction, then one candidate per class. */
  method ClassXPaths(e: Element, tag: string) returns (allClasses: seq<Candidate>, eachClass: seq<Candidate>)
    ensures allClasses == AllClassesCandidates(tag, ClassNames(e))
    ensures eachClass == EachClassCandidates(tag, ClassNames(e))
  {
    allClasses, eachClass := [], [];
    if e.className.Some? && e.className.value != [] && Trim(e.className.value) != [] {
      var classes := SplitWs(Trim(e.className.value));
      assert classes == ClassNames(e);
      allClasses := AllClassesXPath(tag, classes);
      eachClass := EachClassXPaths(tag, classes);
    } else {
      assert ClassNames(e) == [];
    }
  }

  /** `if (classes.length > 1) { ... xpaths.push(...) }`. */
  method AllClassesXPath(tag: string, classes: seq<string>) returns (block: seq<Candidate>)
    ensures block == AllClassesCandidates(tag, classes)
  {
    block := [];
    if |classes| > 1 {
      var classConditions := ClassConditionsOf(classes);
      block := block + [Candidate("//" + tag + "[" + Join(classConditions, " and ") + "]",
                                  "By all classes", High, 8, false)];
    }
  }

  /** `classes.map((cls) => `contains(@class, ${escapeXPathString(cls)})`)`. */
  method ClassConditionsOf(classes: seq<string>) returns (conditions: seq<string>)
    ensures conditions == ClassConditions(classes)
  {
    conditions := [];
    for k := 0 to |classes|
      invariant conditions == ClassConditions(classes[..k])
    {
      assert classes[..k + 1][..k] == classes[..k];
      var escaped := EscapeXPathString(Some(classes[k]));
      conditions := conditions + ["contains(@class, " + escaped + ")"];
    }
    assert classes[..|classes|] == classes;
  }

  /** `classes.forEach((cls) => xpaths.push(...))`. */
  method EachClassXPaths(tag: string, classes: seq<string>) returns (block: seq<Candidate>)
    ensures block == EachClassCandidates(tag, classes)
  {
    block := [];
    for k := 0 to |classes|
      invariant block == EachClassCandidates(tag, classes[..k])
    {
      assert classes[..k + 1][..k] == classes[..k];
      var cls := classes[k];
      var escaped := EscapeXPathString(Some(cls));
      block := block + [Candidate("//" + tag + "[contains(@class, " + escaped + ")]",
                                  "By class \"" + cls + "\"", Medium, 6, false)];
    }
    assert classes[..|classes|] == classes;
  }

  method TextXPaths(e: Element, tag: string) returns (block: seq<Candidate>)
    ensures block == TextCandidates(e, tag)
  {
    block := [];
    if IsTextTag(tag) {
      var text := Trim(e.textContent);
      if text != [] && |text| < 50 {
        var escaped := EscapeXPathString(Some(text));
        block := block + [Candidate("//" + tag + "[contains(text(), " + escaped + ")]",
                                    "By text content", Medium, 7, false)];
      }
    }
  }

  method AttributeXPaths(tag: string, attributes: seq<Attribute>) returns (block: seq<Candidate>)
    ensures block == AttributeCandidates(tag, attributes)
  {
    block := [];
    for k := 0 to |attributes|
      invariant block == AttributeCandidates(tag, attributes[..k])
    {
      assert attributes[..k + 1][..k] == attributes[..k];
      var attr := attributes[k];
      if !(attr.name == "id" || attr.name == "class" || attr.value == []) {
        if UsefulName(attr.name) {
          var escaped := EscapeXPathString(Some(attr.value));
          block := block + [Candidate("//" + tag + "[@" + attr.name + "=" + escaped + "]",
                                      "By " + attr.name + "=\"" + attr.value + "\"", Medium, 5, false)];
        }
      }
    }
    assert attributes[..|attributes|] == attributes;
  }

  /** The tag-filter block and the final sort. */
  method RankCandidates(validXPaths: seq<Candidate>, tagFilter: string) returns (r: seq<Candidate>)
    ensures r == Rank(validXPaths, tagFilter)
  {
    if tagFilter != [] && Trim(tagFilter) != [] {
      var filteredTag := Lower(tagFilter);
      var tagFilteredXPaths := Matching(validXPaths, filteredTag);
      if |tagFilteredXPaths| > 0 {
        tagFilteredXPaths := BoostEach(tagFilteredXPaths);
        return SortByPriority(tagFilteredXPaths + NotMatching(validXPaths, filteredTag));
      }
    }
    assert !(Active(tagFilter) && |Matching(validXPaths, Lower(tagFilter))| > 0) by {
      if tagFilter == [] {
        assert Trim(tagFilter) == [];
      }
    }
    return SortByPriority(validXPaths);
  }

  /** `tagFilteredXPaths.forEach((item) => { item.priority += 100; item.tagFiltered = true; })`. */
  method BoostEach(matched: seq<Candidate>) returns (boosted: seq<Candidate>)
    ensures boosted == BoostAll(matched)
  {
    boosted := matched;
    for k := 0 to |boosted|
      invariant |boosted| == |matched|
      invariant forall j :: 0 <= j < k ==> boosted[j] == Boosted(matched[j])
      invariant forall j :: k <= j < |matched| ==> boosted[j] == matched[j]
    {
      var item := boosted[k];
      item := item.(priority := item.priority + 100);
      item := item.(tagFiltered := true);
      boosted := boosted[k := item];
    }
  }

  /** Boosting changes no expression, so every returned candidate is still usable. */
  lemma RankKeepsUsable(valid: seq<Candidate>, tagFilter: string, isValid: string -> bool)
    requires forall k :: 0 <= k < |valid| ==> Usable(valid[k], isValid)
    ensures forall k :: 0 <= k < |Rank(valid, tagFilter)| ==> Usable(Rank(valid, tagFilter)[k], isValid)
  {
    var t := Lower(tagFilter);
    if Active(tagFilter) && |Matching(valid, t)| > 0 {
      var src := BoostAll(Matching(valid, t)) + NotMatching(valid, t);
      BoostedUsable(valid, t, isValid, src);
      SortKeepsUsable(src, isValid);
    } else {
      SortKeepsUsable(valid, isValid);
    }
  }

  lemma BoostedUsable(valid: seq<Candidate>, t: string, isValid: string -> bool, src: seq<Candidate>)
    requires forall k :: 0 <= k < |valid| ==> Usable(valid[k], isValid)
    requires src == BoostAll(Matching(valid, t)) + NotMatching(valid, t)
    ensures forall k :: 0 <= k < |src| ==> Usable(src[k], isValid)
  {
    var m := Matching(valid, t);
    forall k | 0 <= k < |src| ensures Usable(src[k], isValid) {
      if k < |m| {
        assert src[k] == Boosted(m[k]);
        assert m[k] in multiset(valid);
      } else {
        assert src[k] == NotMatching(valid, t)[k - |m|];
        assert src[k] in multiset(valid);
      }
    }
  }

  lemma SortKeepsUsable(src: seq<Candidate>, isValid: string -> bool)
    requires forall k :: 0 <= k < |src| ==> Usable(src[k], isValid)
    ensures forall k :: 0 <= k < |SortByPriority(src)| ==> Usable(SortByPriority(src)[k], isValid)
  {
    var r := SortByPriority(src);
    forall k | 0 <= k < |r| ensures Usable(r[k], isValid) {
      assert r[k] in multiset(src);
    }
  }

  // ---------------------------------------------------------------------------
  // What the generated candidates are

  /** The priorities the generator uses. */
  predicate Tier(p: int) {
    p == 10 || p == 9 || p == 8 || p == 7 || p == 6 || p == 5 || p == 1
  }

  /** `x` is `pre`, then an XPath expression whose string value is `v`, then
      `post`: the value cannot break out of its literal. */
  ghost predicate Quotes(x: string, pre: string, v: string, post: string) {
    exists q :: x == pre + q + post && Decode(q) == Some(v)
  }

  lemma EscapedQuotes(pre: string, v: string, post: string)
    ensures Quotes(pre + Escape(Some(v)) + post, pre, v, post)
  {
    EscapeRoundTrip(Some(v));
  }

  /** A non-empty id gives the any-tag id candidate (10) and the tag-and-id
      one (9), each holding the id as a literal; an empty id gives neither. */
  lemma IdCandidatesSpec(e: Element, tag: string)
    ensures |IdCandidates(e)| == |TagIdCandidates(e, tag)| == (if e.id == [] then 0 else 1)
    ensures e.id != [] ==>
              && IdCandidates(e)[0].priority == 10 && TagIdCandidates(e, tag)[0].priority == 9
              && Quotes(IdCandidates(e)[0].xpath, "//*[@id=", e.id, "]")
              && Quotes(TagIdCandidates(e, tag)[0].xpath, "//" + tag + "[@id=", e.id, "]")
  {
    if e.id != [] {
      EscapedQuotes("//*[@id=", e.id, "]");
      EscapedQuotes("//" + tag + "[@id=", e.id, "]");
    }
  }

  /** One class candidate per class, in class order, each holding its class as
      a literal; the conjunction exactly when there are two or more classes,
      naming every class in order. */
  lemma ClassCandidatesSpec(tag: string, classes: seq<string>)
    ensures |EachClassCandidates(tag, classes)| == |classes|
    ensures forall k :: 0 <= k < |classes| ==>
              && EachClassCandidates(tag, classes)[k].priority == 6
              && EachClassCandidates(tag, classes)[k].description == "By class \"" + classes[k] + "\""
              && Quotes(EachClassCandidates(tag, classes)[k].xpath,
                        "//" + tag + "[contains(@class, ", classes[k], ")]")
    ensures |AllClassesCandidates(tag, classes)| == (if |classes| > 1 then 1 else 0)
    ensures |classes| > 1 ==>
              && AllClassesCandidates(tag, classes)[0].priority == 8
              && AllClassesCandidates(tag, classes)[0].xpath
                 == "//" + tag + "[" + Join(ClassConditions(classes), " and ") + "]"
              && forall k :: 0 <= k < |classes| ==>
                   Quotes(ClassConditions(classes)[k], "contains(@class, ", classes[k], ")")
  {
    forall k | 0 <= k < |classes|
      ensures Quotes(EachClassCandidates(tag, classes)[k].xpath,
                     "//" + tag + "[contains(@class, ", classes[k], ")]")
      ensures Quotes(ClassConditions(classes)[k], "contains(@class, ", classes[k], ")")
    {
      EscapedQuotes("//" + tag + "[contains(@class, ", classes[k], ")]");
      EscapedQuotes("contains(@class, ", classes[k], ")");
    }
  }

  /** The text candidate exists exactly for a text tag whose trimmed text is
      non-empty and shorter than 50 characters, and holds that text. */
  lemma TextCandidatesSpec(e: Element, tag: string)
    ensures |TextCandidates(e, tag)| <= 1
    ensures |TextCandidates(e, tag)| == 1 <==>
              IsTextTag(tag) && Trim(e.textContent) != [] && |Trim(e.textContent)| < 50
    ensures |TextCandidates(e, tag)| == 1 ==>
              && TextCandidates(e, tag)[0].priority == 7
              && Quotes(TextCandidates(e, tag)[0].xpath, "//" + tag + "[contains(text(), ",
                        Trim(e.textContent), ")]")
  {
    if |TextCandidates(e, tag)| == 1 {
      EscapedQuotes("//" + tag + "[contains(text(), ", Trim(e.textContent), ")]");
    }
  }

  /** One candidate per used attribute, in order: never `id` or `class`, never
      an empty value, only `name`, `type`, `data-*`, `placeholder`, `title`
      or `value`; each holds the value as a literal after `@name=`. */
  lemma AttributeCandidatesSpec(tag: string, attrs: seq<Attribute>)
    ensures forall k :: 0 <= k < |AttributeCandidates(tag, attrs)| ==>
              var a := UsedAttributes(attrs)[k];
              && a.name != "id" && a.name != "class" && a.value != []
              && UsefulName(a.name)
              && AttributeCandidates(tag, attrs)[k].priority == 5
              && Quotes(AttributeCandidates(tag, attrs)[k].xpath, "//" + tag + "[@" + a.name + "=", a.value, "]")
  {
    forall k | 0 <= k < |AttributeCandidates(tag, attrs)|
      ensures Quotes(AttributeCandidates(tag, attrs)[k].xpath,
                     "//" + tag + "[@" + UsedAttributes(attrs)[k].name + "=", UsedAttributes(attrs)[k].value, "]")
    {
      var a := UsedAttributes(attrs)[k];
      EscapedQuotes("//" + tag + "[@" + a.name + "=", a.value, "]");
    }
  }

  /** The used attributes are exactly the attributes that make a candidate,
      each as often as it occurs. */
  lemma {:induction false} UsedAttributesExactly(attrs: seq<Attribute>, a: Attribute)
    ensures multiset(UsedAttributes(attrs))[a] == if Used(a) then multiset(attrs)[a] else 0
    decreases |attrs|
  {
    if attrs != [] {
      var init := attrs[..|attrs| - 1];
      UsedAttributesExactly(init, a);
      assert attrs == init + [attrs[|attrs| - 1]];
    }
  }

  /** The used attributes keep the attribute order: those of a concatenation
      are those of the first part followed by those of the second. */
  lemma {:induction false} UsedAttributesAppend(a: seq<Attribute>, b: seq<Attribute>)
    ensures UsedAttributes(a + b) == UsedAttributes(a) + UsedAttributes(b)
    decreases |b|
  {
    if b == [] {
      assert a + b == a;
    } else {
      var init := b[..|b| - 1];
      UsedAttributesAppend(a, init);
      assert (a + b)[..|a + b| - 1] == a + init;
    }
  }

  /** A tag filter `t` boosts the id candidate that names `t` as its tag. */
  lemma TagIdMatches(e: Element, t: string)
    requires e.id != []
    ensures Matches(TagIdCandidates(e, t)[0].xpath, t)
  {
    var x := TagIdCandidates(e, t)[0].xpath;
    assert OccursAt(x, "/" + t, 1) by {
      assert x[1..1 + |"/" + t|] == "/" + t;
    }
    IncludesIff(x, "/" + t);
    MatchesIff(x, t);
  }

  /** A tag filter never boosts the id candidate for any tag when the id holds
      no `/`: whatever quoting the id needs adds no `/`, so that expression holds
      a `/` only in its two leading characters, followed by `/` and `*`, which no
      tag name starts with. */
  lemma IdNotMatched(e: Element, t: string)
    requires e.id != [] && Lacks(e.id, '/')
    requires t != [] && t[0] != '/' && t[0] != '*'
    ensures !Matches(IdCandidates(e)[0].xpath, t)
  {
    EscapeLacks(e.id, '/');
    AnyTagIdNotMatched(Escape(Some(e.id)), t);
  }

  lemma AnyTagIdNotMatched(q: string, t: string)
    requires Lacks(q, '/') && t != [] && t[0] != '/' && t[0] != '*'
    ensures !Matches("//*[@id=" + q + "]", t)
  {
    var x := "//*[@id=" + q + "]";
    forall i | 0 <= i && i + |"/" + t| <= |x|
      ensures !OccursAt(x, "/" + t, i)
    {
      var w := x[i..i + |"/" + t|];
      assert w[0] == x[i] && w[1] == x[i + 1];
      if 8 <= i < 8 + |q| {
        assert x[i] == q[i - 8];
      }
    }
    IncludesIff(x, "/" + t);
    MatchesIff(x, t);
  }

  // ---------------------------------------------------------------------------
  // The generated list as blocks of one priority each

  /** The blocks concatenated left to right. */
  function Concat<T>(bs: seq<seq<T>>): seq<T>
    decreases |bs|
  {
    if bs == [] then [] else Concat(bs[..|bs| - 1]) + bs[|bs| - 1]
  }

  /** Every candidate of `b` has priority `p` and is not flagged. */
  predicate BlockOf(b: seq<Candidate>, p: int) {
    forall k :: 0 <= k < |b| ==> b[k].priority == p && !b[k].tagFiltered
  }

  /** Candidates fresh from the generator: unflagged, of one of its priorities. */
  predicate AllFresh(cs: seq<Candidate>) {
    forall k :: 0 <= k < |cs| ==> Fresh(cs[k]) && Tier(cs[k].priority)
  }

  /** The generated list is its blocks in push order. */
  lemma GeneratedBlocks(e: Element, strict: bool)
    requires Attached(e)
    ensures Generated(e, strict) == Concat(Blocks(e, strict))
  {
    var bs := Blocks(e, strict);
    ConcatSeven(bs[0], bs[1], bs[2], bs[3], bs[4], bs[5], bs[6]);
    assert bs == [bs[0], bs[1], bs[2], bs[3], bs[4], bs[5], bs[6]];
  }

  lemma ConcatSeven<T>(a: seq<T>, b: seq<T>, c: seq<T>, d: seq<T>, e: seq<T>, f: seq<T>, g: seq<T>)
    ensures Concat([a, b, c, d, e, f, g]) == a + b + c + d + e + f + g
  {
    var bs := [a, b, c, d, e, f, g];
    assert bs[..1][..0] == [];
    assert Concat(bs[..1]) == a by {
      assert [] + a == a;
    }
    assert bs[..2][..1] == bs[..1];
    assert Concat(bs[..2]) == a + b;
    assert bs[..3][..2] == bs[..2];
    assert Concat(bs[..3]) == a + b + c;
    assert bs[..4][..3] == bs[..3];
    assert Concat(bs[..4]) == a + b + c + d;
    assert bs[..5][..4] == bs[..4];
    assert Concat(bs[..5]) == a + b + c + d + e;
    assert bs[..6][..5] == bs[..5];
    assert Concat(bs[..6]) == a + b + c + d + e + f;
    assert bs[..7][..6] == bs[..6];
    assert bs[..7] == bs;
  }

  /** Each block has its own priority, and no block is flagged. */
  lemma BlocksShape(e: Element, strict: bool)
    requires Attached(e)
    ensures forall j :: 0 <= j < |Blocks(e, strict)| ==> BlockOf(Blocks(e, strict)[j], BlockPriorities[j])
  {
    var tag := Lower(e.tagName);
    var classes := ClassNames(e);
    var c := EachClassCandidates(tag, classes);
    var f := AttributeCandidates(tag, e.attributes);
    assert BlockOf(c, 6) by {
      forall k | 0 <= k < |c| ensures c[k].priority == 6 && !c[k].tagFiltered {
        assert c[k] == ClassCandidate(tag, classes[k]);
      }
    }
    assert BlockOf(f, 5) by {
      forall k | 0 <= k < |f| ensures f[k].priority == 5 && !f[k].tagFiltered {
        assert f[k] == AttributeCandidate(tag, UsedAttributes(e.attributes)[k]);
      }
    }
  }

  /** Picking priority `ps[i]` out of blocks of distinct priorities gives block `i`. */
  lemma {:induction false} TierOfBlocks(bs: seq<seq<Candidate>>, ps: seq<int>, i: nat)
    requires |bs| == |ps| && i < |ps|
    requires forall j :: 0 <= j < |bs| ==> BlockOf(bs[j], ps[j])
    requires forall j :: 0 <= j < |ps| && j != i ==> ps[j] != ps[i]
    ensures WithPriority(Concat(bs), ps[i]) == bs[i]
    decreases |bs|
  {
    var n := |bs| - 1;
    WithPriorityAppend(Concat(bs[..n]), bs[n], ps[i]);
    if i == n {
      TierAbsent(bs[..n], ps[..n], ps[i]);
      WithPriorityAll(bs[n], ps[i]);
    } else {
      TierOfBlocks(bs[..n], ps[..n], i);
      WithPriorityNone(bs[n], ps[i]);
    }
  }

  /** A priority no block has picks nothing. */
  lemma {:induction false} TierAbsent(bs: seq<seq<Candidate>>, ps: seq<int>, p: int)
    requires |bs| == |ps|
    requires forall j :: 0 <= j < |bs| ==> BlockOf(bs[j], ps[j])
    requires forall j :: 0 <= j < |ps| ==> ps[j] != p
    ensures WithPriority(Concat(bs), p) == []
    decreases |bs|
  {
    if bs != [] {
      var n := |bs| - 1;
      WithPriorityAppend(Concat(bs[..n]), bs[n], p);
      TierAbsent(bs[..n], ps[..n], p);
      WithPriorityNone(bs[n], p);
    }
  }

  /** Blocks of the generator's priorities concatenate to fresh candidates. */
  lemma {:induction false} ConcatFresh(bs: seq<seq<Candidate>>, ps: seq<int>)
    requires |bs| == |ps|
    requires forall j :: 0 <= j < |bs| ==> BlockOf(bs[j], ps[j])
    requires forall j :: 0 <= j < |ps| ==> Tier(ps[j])
    ensures AllFresh(Concat(bs))
    decreases |bs|
  {
    if bs != [] {
      var n := |bs| - 1;
      ConcatFresh(bs[..n], ps[..n]);
      var front := Concat(bs[..n]);
      forall k | 0 <= k < |front + bs[n]|
        ensures Fresh((front + bs[n])[k]) && Tier((front + bs[n])[k].priority)
      {
        if k >= |front| {
          assert (front + bs[n])[k] == bs[n][k - |front|];
        }
      }
    }
  }

  /** For each of its priorities the generator emits exactly one block: 10 the
      any-tag id, 9 the tag and id, 8 the conjunction of classes, 6 each class
      in class order, 7 the text, 5 the attributes in order, 1 the full path;
      any other priority picks nothing. Every candidate is fresh. */
  lemma GeneratedByPriority(e: Element, strict: bool)
    requires Attached(e)
    ensures forall i :: 0 <= i < |BlockPriorities| ==>
              WithPriority(Generated(e, strict), BlockPriorities[i]) == Blocks(e, strict)[i]
    ensures forall p :: !Tier(p) ==> WithPriority(Generated(e, strict), p) == []
    ensures AllFresh(Generated(e, strict))
  {
    GeneratedBlocks(e, strict);
    BlocksShape(e, strict);
    PrioritiesShape();
    ByPriority(Generated(e, strict), Blocks(e, strict), BlockPriorities);
  }

  /** The generator's priorities are distinct, and they are its tiers. */
  lemma PrioritiesShape()
    ensures forall j :: 0 <= j < |BlockPriorities| ==> Tier(BlockPriorities[j])
    ensures forall i, j :: 0 <= i < j < |BlockPriorities| ==> BlockPriorities[i] != BlockPriorities[j]
    ensures forall p :: !Tier(p) ==> p !in BlockPriorities
  {
  }

  /** Blocks of the generator's distinct priorities, concatenated. */
  lemma ByPriority(g: seq<Candidate>, bs: seq<seq<Candidate>>, ps: seq<int>)
    requires g == Concat(bs) && |bs| == |ps|
    requires forall j :: 0 <= j < |bs| ==> BlockOf(bs[j], ps[j])
    requires forall j :: 0 <= j < |ps| ==> Tier(ps[j])
    requires forall i, j :: 0 <= i < j < |ps| ==> ps[i] != ps[j]
    ensures forall i :: 0 <= i < |ps| ==> WithPriority(g, ps[i]) == bs[i]
    ensures forall p :: p !in ps ==> WithPriority(g, p) == []
    ensures AllFresh(g)
  {
    forall i | 0 <= i < |ps| ensures WithPriority(g, ps[i]) == bs[i] {
      TierOfBlocks(bs, ps, i);
    }
    forall p | p !in ps ensures WithPriority(g, p) == [] {
      TierAbsent(bs, ps, p);
    }
    ConcatFresh(bs, ps);
  }

  // ---------------------------------------------------------------------------
  // What the caller sees

  /** The candidates a filter would be applied to. */
  function Valid(e: Element, strict: bool, isValid: string -> bool): seq<Candidate>
    requires Attached(e)
  {
    KeepValid(Generated(e, strict), isValid)
  }

  /** Whether the filter changes anything: it is active and some valid
      candidate's expression mentions it. */
  predicate Filtering(e: Element, strict: bool, tagFilter: string, isValid: string -> bool)
    requires Attached(e)
  {
    Active(tagFilter) && |Matching(Valid(e, strict, isValid), Lower(tagFilter))| > 0
  }

  /** Every valid candidate is fresh. */
  lemma ValidFresh(e: Element, strict: bool, isValid: string -> bool)
    requires Attached(e)
    ensures AllFresh(Valid(e, strict, isValid))
  {
    GeneratedByPriority(e, strict);
    KeepValidFresh(Generated(e, strict), isValid);
  }

  lemma KeepValidFresh(g: seq<Candidate>, isValid: string -> bool)
    requires AllFresh(g)
    ensures AllFresh(KeepValid(g, isValid))
  {
    var v := KeepValid(g, isValid);
    forall k | 0 <= k < |v| ensures Fresh(v[k]) && Tier(v[k].priority) {
      KeepValidExactly(g, isValid, v[k]);
      assert v[k] in multiset(v);
      assert v[k] in multiset(g);
      var j :| 0 <= j < |g| && g[j] == v[k];
    }
  }

  /** Without filtering, the result equals the unfiltered result; it holds
      every usable generated candidate as often as generated and nothing
      else; nothing is flagged; and for each priority it lists the usable
      candidates of that priority's block in generated order. */
  lemma AlternativesUnfiltered(e: Element, strict: bool, tagFilter: string, isValid: string -> bool)
    requires Attached(e)
    requires !Filtering(e, strict, tagFilter, isValid)
    ensures var r := Alternatives(Some(e), strict, tagFilter, isValid);
            && r == Alternatives(Some(e), strict, "", isValid)
            && (forall c :: multiset(r)[c] == if Usable(c, isValid) then multiset(Generated(e, strict))[c] else 0)
            && AllFresh(r)
            && (forall i :: 0 <= i < |BlockPriorities| ==>
                  WithPriority(r, BlockPriorities[i]) == KeepValid(Blocks(e, strict)[i], isValid))
  {
    GeneratedByPriority(e, strict);
    RankedBlocks(Generated(e, strict), Blocks(e, strict), BlockPriorities, isValid, tagFilter);
  }

  /** Ranking the valid part of a fresh list of blocks without filtering. */
  lemma RankedBlocks(g: seq<Candidate>, bs: seq<seq<Candidate>>, ps: seq<int>,
                     isValid: string -> bool, tagFilter: string)
    requires |bs| == |ps|
    requires forall i :: 0 <= i < |ps| ==> WithPriority(g, ps[i]) == bs[i]
    requires AllFresh(g)
    requires !Active(tagFilter) || |Matching(KeepValid(g, isValid), Lower(tagFilter))| == 0
    ensures var r := Rank(KeepValid(g, isValid), tagFilter);
            && r == Rank(KeepValid(g, isValid), "")
            && (forall c :: multiset(r)[c] == if Usable(c, isValid) then multiset(g)[c] else 0)
            && AllFresh(r)
            && (forall i :: 0 <= i < |ps| ==> WithPriority(r, ps[i]) == KeepValid(bs[i], isValid))
  {
    var v := KeepValid(g, isValid);
    var r := Rank(v, tagFilter);
    RankUnboosted(v, tagFilter);
    forall c ensures multiset(r)[c] == if Usable(c, isValid) then multiset(g)[c] else 0 {
      KeepValidExactly(g, isValid, c);
    }
    KeepValidFresh(g, isValid);
    forall k | 0 <= k < |r| ensures Fresh(r[k]) && Tier(r[k].priority) {
      assert r[k] in multiset(v);
      var j :| 0 <= j < |v| && v[j] == r[k];
    }
    forall i | 0 <= i < |ps| ensures WithPriority(r, ps[i]) == KeepValid(bs[i], isValid) {
      KeepValidWithPriority(g, isValid, ps[i]);
    }
  }

  /** Without filtering, a usable any-tag id candidate comes first. */
  lemma IdFirst(e: Element, strict: bool, tagFilter: string, isValid: string -> bool)
    requires Attached(e)
    requires !Filtering(e, strict, tagFilter, isValid)
    requires e.id != [] && Usable(IdCandidates(e)[0], isValid)
    ensures var r := Alternatives(Some(e), strict, tagFilter, isValid);
            r != [] && r[0] == IdCandidates(e)[0]
  {
    GeneratedByPriority(e, strict);
    OuterBlocks(e, strict);
    RankedFirst(Generated(e, strict), Blocks(e, strict), BlockPriorities, isValid, tagFilter, IdCandidates(e)[0]);
  }

  /** Without filtering, a usable full path comes last. */
  lemma FullPathLast(e: Element, strict: bool, tagFilter: string, isValid: string -> bool)
    requires Attached(e)
    requires !Filtering(e, strict, tagFilter, isValid)
    requires Usable(FullPathCandidate(e, strict), isValid)
    ensures var r := Alternatives(Some(e), strict, tagFilter, isValid);
            r != [] && r[|r| - 1] == FullPathCandidate(e, strict)
  {
    GeneratedByPriority(e, strict);
    OuterBlocks(e, strict);
    RankedLast(Generated(e, strict), Blocks(e, strict), BlockPriorities, isValid, tagFilter, 6, FullPathCandidate(e, strict));
  }

  /** The one usable candidate of the first block, priority 10, is ranked first. */
  lemma RankedFirst(g: seq<Candidate>, bs: seq<seq<Candidate>>, ps: seq<int>,
                    isValid: string -> bool, tagFilter: string, c: Candidate)
    requires |bs| == |ps| && |ps| > 0 && ps[0] == 10
    requires forall i :: 0 <= i < |ps| ==> WithPriority(g, ps[i]) == bs[i]
    requires AllFresh(g)
    requires !Active(tagFilter) || |Matching(KeepValid(g, isValid), Lower(tagFilter))| == 0
    requires bs[0] == [c] && Usable(c, isValid)
    ensures var r := Rank(KeepValid(g, isValid), tagFilter);
            r != [] && r[0] == c
  {
    var r := Rank(KeepValid(g, isValid), tagFilter);
    RankedBlocks(g, bs, ps, isValid, tagFilter);
    OnlyCandidate(r, bs, ps, isValid, 0, c);
    TopFirst(r, c, 10);
  }

  /** The one usable candidate of the block of priority 1 is ranked last. */
  lemma RankedLast(g: seq<Candidate>, bs: seq<seq<Candidate>>, ps: seq<int>,
                   isValid: string -> bool, tagFilter: string, i: nat, c: Candidate)
    requires |bs| == |ps| && i < |ps| && ps[i] == 1
    requires forall i :: 0 <= i < |ps| ==> WithPriority(g, ps[i]) == bs[i]
    requires AllFresh(g)
    requires !Active(tagFilter) || |Matching(KeepValid(g, isValid), Lower(tagFilter))| == 0
    requires bs[i] == [c] && Usable(c, isValid)
    ensures var r := Rank(KeepValid(g, isValid), tagFilter);
            r != [] && r[|r| - 1] == c
  {
    var r := Rank(KeepValid(g, isValid), tagFilter);
    RankedBlocks(g, bs, ps, isValid, tagFilter);
    OnlyCandidate(r, bs, ps, isValid, i, c);
    BottomLast(r, c, 1);
  }

  lemma OuterBlocks(e: Element, strict: bool)
    requires Attached(e)
    ensures Blocks(e, strict)[0] == IdCandidates(e)
    ensures Blocks(e, strict)[6] == [FullPathCandidate(e, strict)]
    ensures BlockPriorities[0] == 10 && BlockPriorities[6] == 1
  {
  }

  /** A block holding one usable candidate is all its priority keeps. */
  lemma OnlyCandidate(r: seq<Candidate>, bs: seq<seq<Candidate>>, ps: seq<int>,
                      isValid: string -> bool, i: nat, c: Candidate)
    requires |bs| == |ps| && i < |ps|
    requires forall j :: 0 <= j < |ps| ==> WithPriority(r, ps[j]) == KeepValid(bs[j], isValid)
    requires bs[i] == [c] && Usable(c, isValid)
    ensures WithPriority(r, ps[i]) == [c]
  {
    assert KeepValid([c], isValid) == [c];
  }

  /** In a sorted fresh list, the only candidate of the highest tier is first. */
  lemma TopFirst(r: seq<Candidate>, c: Candidate, p: int)
    requires Sorted(r) && AllFresh(r)
    requires p == 10 && WithPriority(r, p) == [c]
    ensures r != [] && r[0] == c
  {
    WithPriorityMember(r, p, c);
    var j :| 0 <= j < |r| && r[j] == c;
    assert r[0].priority >= p;
    assert Tier(r[0].priority);
    WithPriorityFirst(r, p);
  }

  /** In a sorted fresh list, the only candidate of the lowest tier is last. */
  lemma BottomLast(r: seq<Candidate>, c: Candidate, p: int)
    requires Sorted(r) && AllFresh(r)
    requires p == 1 && WithPriority(r, p) == [c]
    ensures r != [] && r[|r| - 1] == c
  {
    WithPriorityMember(r, p, c);
    var j :| 0 <= j < |r| && r[j] == c;
    assert r[|r| - 1].priority <= p;
    assert Tier(r[|r| - 1].priority);
    WithPriorityLast(r, p);
  }

  /** With filtering, the valid candidates whose expression mentions the
      filter are lifted by 100 and flagged, the others are kept as they are,
      every flagged candidate precedes every unflagged one, and each priority
      keeps the generated order. */
  lemma AlternativesFiltered(e: Element, strict: bool, tagFilter: string, isValid: string -> bool)
    requires Attached(e)
    requires Filtering(e, strict, tagFilter, isValid)
    ensures var r := Alternatives(Some(e), strict, tagFilter, isValid);
            var v := Valid(e, strict, isValid);
            var t := Lower(tagFilter);
            var both := BoostAll(Matching(v, t)) + NotMatching(v, t);
            && multiset(r) == multiset(both)
            && |r| == |v|
            && (forall k :: 0 <= k < |r| ==> (r[k].tagFiltered <==> Matches(r[k].xpath, t)))
            && (forall i, j :: 0 <= i < j < |r| && r[j].tagFiltered ==> r[i].tagFiltered)
            && (forall p :: WithPriority(r, p) == WithPriority(both, p))
  {
    var v := Valid(e, strict, isValid);
    ValidFresh(e, strict, isValid);
    RankBoosted(v, tagFilter);
  }
}
