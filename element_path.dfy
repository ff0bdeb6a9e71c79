/** `getElementXPath` (xpath_finder/content.js): the absolute location path of
    an element, one step per element from the `html` element down, each step
    the lower-cased tag name with the element's position among its same-tag
    siblings, the position dropped only for an only child of its tag outside
    strict mode. `ParsePath` reads such a path back into its steps. */
module ElementPath {
  import opened Wrappers
  import opened Text
  import opened Dom

  /** One location step: a tag name and, when present, the `[i]` predicate. */
  datatype Step = Step(tag: string, index: Option<nat>)

  /** The step for a non-root element. */
  function StepOf(e: Element, strict: bool): (s: Step)
    ensures s.tag == Lower(e.tagName)
    ensures s.index.None? <==> (e.sameTagCount == 1 && !strict)
    ensures s.index.Some? ==> s.index.value == e.position
  {
    if e.sameTagCount == 1 && !strict then Step(Lower(e.tagName), None)
    else Step(Lower(e.tagName), Some(e.position))
  }

  function StepText(s: Step): string {
    "/" + s.tag + match s.index
      case None => ""
      case Some(i) => "[" + NatToDecimal(i) + "]"
  }

  function Render(steps: seq<Step>): string
    decreases |steps|
  {
    if steps == [] then "" else StepText(steps[0]) + Render(steps[1..])
  }

  /** `getElementXPath(element)` with the global `strictMode` as a parameter;
      `None` is a missing element. */
  function ElementXPath(e: Option<Element>, strict: bool): (r: string)
    requires e.Some? ==> Attached(e.value)
    ensures e.None? ==> r == ""
    ensures e.Some? ==> StartsWith(r, "/html")
    decreases e
  {
    match e
    case None => ""
    case Some(el) =>
      if IsHtml(el) then "/html"
      else
        var p := ElementXPath(el.parent, strict);
        assert p[..5] == (p + StepText(StepOf(el, strict)))[..5];
        p + StepText(StepOf(el, strict))
  }

  /** The elements from just below `html` down to `e`, outermost first. */
  function Lineage(e: Element): (r: seq<Element>)
    requires Attached(e)
    ensures forall k :: 0 <= k < |r| ==> !IsHtml(r[k]) && Attached(r[k])
    ensures IsHtml(e) <==> r == []
    ensures r != [] ==> r[|r| - 1] == e
    decreases e
  {
    if IsHtml(e) then [] else Lineage(e.parent.value) + [e]
  }

  /** The steps of `e`'s path, one per element of its lineage. */
  function Steps(e: Element, strict: bool): (r: seq<Step>)
    requires Attached(e)
    ensures |r| == |Lineage(e)|
    ensures forall k :: 0 <= k < |r| ==> r[k] == StepOf(Lineage(e)[k], strict)
    decreases e
  {
    if IsHtml(e) then [] else Steps(e.parent.value, strict) + [StepOf(e, strict)]
  }

  /** The path is `/html` followed by one step per element below `html`. */
  lemma {:induction false} PathIsSteps(e: Element, strict: bool)
    requires Attached(e)
    ensures ElementXPath(Some(e), strict) == "/html" + Render(Steps(e, strict))
    decreases e
  {
    if IsHtml(e) {
      assert "/html" + Render([]) == "/html";
    } else {
      var p := e.parent.value;
      var step := StepOf(e, strict);
      PathIsSteps(p, strict);
      RenderSnoc(Steps(p, strict), step);
      assert ElementXPath(Some(e), strict) == ElementXPath(Some(p), strict) + StepText(step);
      assert Steps(e, strict) == Steps(p, strict) + [step];
      Assoc("/html", Render(Steps(p, strict)), StepText(step));
    }
  }

  /** Every step names the lower-cased tag of its element and carries the
      element's position, which lies between 1 and its same-tag sibling count;
      the position is missing exactly for an only child of its tag outside
      strict mode, so in strict mode every step has one. */
  lemma StepsIndices(e: Element, strict: bool)
    requires Attached(e)
    ensures forall k :: 0 <= k < |Steps(e, strict)| ==>
              var x := Lineage(e)[k];
              && Steps(e, strict)[k].tag == Lower(x.tagName)
              && (Steps(e, strict)[k].index.None? <==> x.sameTagCount == 1 && !strict)
              && (Steps(e, strict)[k].index.Some? ==>
                    1 <= Steps(e, strict)[k].index.value == x.position <= x.sameTagCount)
    ensures strict ==> forall k :: 0 <= k < |Steps(e, strict)| ==> Steps(e, strict)[k].index.Some?
  {
    forall k | 0 <= k < |Steps(e, strict)|
      ensures 1 <= Lineage(e)[k].position <= Lineage(e)[k].sameTagCount
    {
      assert Attached(Lineage(e)[k]) && !IsHtml(Lineage(e)[k]);
    }
  }

  lemma {:induction false} RenderSnoc(steps: seq<Step>, s: Step)
    ensures Render(steps + [s]) == Render(steps) + StepText(s)
    decreases |steps|
  {
    if steps == [] {
      assert steps + [s] == [s];
      assert Render([s]) == StepText(s) + Render([]);
    } else {
      var head, tail, last := StepText(steps[0]), Render(steps[1..]), StepText(s);
      RenderSnoc(steps[1..], s);
      assert (steps + [s])[1..] == steps[1..] + [s];
      assert (steps + [s])[0] == steps[0];
      assert Render(steps + [s]) == head + Render(steps[1..] + [s]);
      Assoc(head, tail, last);
    }
  }

  lemma Assoc<T>(a: seq<T>, b: seq<T>, c: seq<T>)
    ensures a + (b + c) == (a + b) + c
  {
  }

  // ---------------------------------------------------------------------------
  // Reading a path back

  /** A tag name the path syntax can carry: non-empty, without `/` or `[`. */
  predicate IsName(t: string) {
    t != [] && forall k :: 0 <= k < |t| ==> t[k] != '/' && t[k] != '['
  }

  /** The length of the name at the start of `t`: up to the first `/` or `[`. */
  function NameLength(t: string): (n: nat)
    ensures n <= |t|
    decreases |t|
  {
    if t == [] || t[0] == '/' || t[0] == '[' then 0 else 1 + NameLength(t[1..])
  }

  /** The length of the run of decimal digits at the start of `t`. */
  function DigitsLength(t: string): (n: nat)
    ensures n <= |t| && AllDigits(t[..n])
    decreases |t|
  {
    if t == [] || !IsDigit(t[0]) then 0
    else
      var n := 1 + DigitsLength(t[1..]);
      assert t[..n] == [t[0]] + t[1..][..n - 1];
      n
  }

  /** Reads a sequence of steps `/name` or `/name[digits]` that makes up all of `t`. */
  function ParseSteps(t: string): Option<seq<Step>>
    decreases |t|
  {
    if t == [] then Some([])
    else if t[0] != '/' then None
    else
      var body := t[1..];
      var n := NameLength(body);
      var after := body[n..];
      if n == 0 then None
      else if after != [] && after[0] == '[' then
        var m := DigitsLength(after[1..]);
        var rest := after[1..][m..];
        if m == 0 || rest == [] || rest[0] != ']' then None
        else match ParseSteps(rest[1..])
          case None => None
          case Some(ss) => Some([Step(body[..n], Some(DecimalValue(after[1..][..m])))] + ss)
      else match ParseSteps(after)
        case None => None
        case Some(ss) => Some([Step(body[..n], None)] + ss)
  }

  /** Reads an absolute path as `getElementXPath` writes it. */
  function ParsePath(p: string): Option<seq<Step>> {
    if StartsWith(p, "/html") then ParseSteps(p[5..]) else None
  }

  /** Every element below `html` has a tag name that lowers to a name the path
      syntax can carry (true of every HTML tag name). */
  predicate NamesClean(e: Element)
    requires Attached(e)
  {
    forall k :: 0 <= k < |Lineage(e)| ==> IsName(Lower(Lineage(e)[k].tagName))
  }

  /** Round trip: reading back the path of `e` gives its steps, so the path
      determines the tag and position of every element on the way down. */
  lemma PathRoundTrip(e: Element, strict: bool)
    requires Attached(e) && NamesClean(e)
    ensures ParsePath(ElementXPath(Some(e), strict)) == Some(Steps(e, strict))
  {
    var steps := Steps(e, strict);
    PathIsSteps(e, strict);
    var p := "/html" + Render(steps);
    assert p[..5] == "/html" && p[5..] == Render(steps);
    ParseRender(steps);
  }

  lemma {:induction false} ParseRender(steps: seq<Step>)
    requires forall k :: 0 <= k < |steps| ==> IsName(steps[k].tag)
    ensures ParseSteps(Render(steps)) == Some(steps)
    decreases |steps|
  {
    if steps != [] {
      var rest := Render(steps[1..]);
      ParseRender(steps[1..]);
      RenderStart(steps[1..]);
      ParseStep(steps[0], rest);
      assert [steps[0]] + steps[1..] == steps;
    }
  }

  /** A rendered path is empty or starts a new step. */
  lemma RenderStart(steps: seq<Step>)
    ensures Render(steps) == [] || Render(steps)[0] == '/'
  {
  }

  lemma ParseStep(s: Step, rest: string)
    requires IsName(s.tag)
    requires rest == [] || rest[0] == '/'
    ensures ParseSteps(StepText(s) + rest) ==
              match ParseSteps(rest)
              case None => None
              case Some(ss) => Some([s] + ss)
  {
    match s.index
    case None => ParsePlainStep(s.tag, rest);
    case Some(i) => ParseIndexedStep(s.tag, i, rest);
  }

  lemma ParsePlainStep(tag: string, rest: string)
    requires IsName(tag)
    requires rest == [] || rest[0] == '/'
    ensures ParseSteps(StepText(Step(tag, None)) + rest) ==
              match ParseSteps(rest)
              case None => None
              case Some(ss) => Some([Step(tag, None)] + ss)
  {
    var t := StepText(Step(tag, None)) + rest;
    var body := t[1..];
    assert body == tag + rest;
    NameLengthOf(tag, rest);
    assert body[..|tag|] == tag && body[|tag|..] == rest;
  }

  lemma ParseIndexedStep(tag: string, i: nat, rest: string)
    requires IsName(tag)
    requires rest == [] || rest[0] == '/'
    ensures ParseSteps(StepText(Step(tag, Some(i))) + rest) ==
              match ParseSteps(rest)
              case None => None
              case Some(ss) => Some([Step(tag, Some(i))] + ss)
  {
    var t := StepText(Step(tag, Some(i))) + rest;
    var d := NatToDecimal(i);
    var tail := "]" + rest;
    var after := "[" + (d + tail);
    assert t[0] == '/' && t[1..] == tag + after by {
      Nest("/", tag, "[", d, "]", rest);
    }
    assert NameLength(tag + after) == |tag| && (tag + after)[..|tag|] == tag
              && (tag + after)[|tag|..] == after by {
      NameLengthOf(tag, after);
      Split(tag, after);
    }
    assert after[0] == '[' && after[1..] == d + tail;
    assert DigitsLength(d + tail) == |d| && (d + tail)[..|d|] == d && (d + tail)[|d|..] == tail by {
      DigitsLengthOf(d, tail);
      Split(d, tail);
    }
    assert tail != [] && tail[0] == ']' && tail[1..] == rest;
    assert DecimalValue(d) == i by {
      DecimalRoundTrip(i);
    }
  }

  /** Regrouping the text of an indexed step, stated generically so that the
      characters are never compared. */
  lemma Nest<T>(a: seq<T>, b: seq<T>, c: seq<T>, d: seq<T>, e: seq<T>, f: seq<T>)
    ensures a + b + (c + d + e) + f == a + (b + (c + (d + (e + f))))
  {
  }

  lemma Split<T>(a: seq<T>, b: seq<T>)
    ensures (a + b)[..|a|] == a && (a + b)[|a|..] == b
  {
  }

  lemma {:induction false} NameLengthOf(name: string, rest: string)
    requires forall k :: 0 <= k < |name| ==> name[k] != '/' && name[k] != '['
    requires rest == [] || rest[0] == '/' || rest[0] == '['
    ensures NameLength(name + rest) == |name|
    decreases |name|
  {
    if name == [] {
      assert name + rest == rest;
    } else {
      assert (name + rest)[1..] == name[1..] + rest;
      NameLengthOf(name[1..], rest);
    }
  }

  lemma {:induction false} DigitsLengthOf(d: string, rest: string)
    requires AllDigits(d)
    requires rest != [] && rest[0] == ']'
    ensures DigitsLength(d + rest) == |d|
    decreases |d|
  {
    if d == [] {
      assert d + rest == rest;
    } else {
      assert (d + rest)[1..] == d[1..] + rest;
      DigitsLengthOf(d[1..], rest);
    }
  }

  /** Paths of elements whose steps differ are different strings. */
  lemma PathsDistinguish(e1: Element, e2: Element, strict: bool)
    requires Attached(e1) && NamesClean(e1) && Attached(e2) && NamesClean(e2)
    requires Steps(e1, strict) != Steps(e2, strict)
    ensures ElementXPath(Some(e1), strict) != ElementXPath(Some(e2), strict)
  {
    PathRoundTrip(e1, strict);
    PathRoundTrip(e2, strict);
  }
}
