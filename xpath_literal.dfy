/** `escapeXPathString` (xpath_finder/content.js): turning an arbitrary value into
    an XPath 1.0 string literal (section 3.7 of the W3C XPath 1.0 Recommendation,
    production [29] Literal), falling back to a `concat(...)` call when the value
    holds both quote characters, for which no single literal exists.

    `Escape` is the specification, `EscapeXPathString` the loop of the source, and
    `Decode` an independent evaluator of the expressions `Escape` produces; the
    round trip `Decode(Escape(Some(s))) == Some(s)` is the property that matters. */
module XPathLiteral {
  import opened Wrappers
  import opened Text

  const Apostrophe: char := '\''
  const QuotationMark: char := '"'

  predicate IsQuote(c: char) {
    c == Apostrophe || c == QuotationMark
  }

  /** `!s.includes(c)` for a single character. */
  predicate Lacks(s: string, c: char) {
    forall k :: 0 <= k < |s| ==> s[k] != c
  }

  predicate NoQuote(s: string) {
    forall k :: 0 <= k < |s| ==> !IsQuote(s[k])
  }

  /** The pieces `concat(...)` is built from, left to right: every maximal
      quote-free run, and every quote character on its own. */
  function Segments(s: string): seq<string> {
    Scan([], s)
  }

  /** The segments of `run + t`, where `run` is a quote-free run read so far:
      a run is closed by the next quote character or by the end of the text. */
  function Scan(run: string, t: string): seq<string>
    decreases |t|
  {
    if t == [] then Pending(run)
    else if IsQuote(t[0]) then Pending(run) + ([[t[0]]] + Scan([], t[1..]))
    else Scan(run + [t[0]], t[1..])
  }

  /** The run read so far, as a segment if it is not empty. */
  function Pending(run: string): seq<string> {
    if run == [] then [] else [run]
  }

  /** A segment: a single quote character, or a non-empty run without quotes. */
  predicate IsSegment(seg: string) {
    seg == [Apostrophe] || seg == [QuotationMark] || (seg != [] && NoQuote(seg))
  }

  predicate IsRun(seg: string) {
    seg != [] && NoQuote(seg)
  }

  /** The literal standing for one segment: `"'"` for an apostrophe, otherwise
      the segment between apostrophes (so a quotation mark becomes `'"'`). */
  function Lit(seg: string): string {
    if seg == [Apostrophe] then [QuotationMark, Apostrophe, QuotationMark]
    else [Apostrophe] + seg + [Apostrophe]
  }

  function Lits(segs: seq<string>): (parts: seq<string>)
    ensures |parts| == |segs|
    decreases |segs|
  {
    if segs == [] then [] else [Lit(segs[0])] + Lits(segs[1..])
  }

  /** The specification of `escapeXPathString`. `None` is any value that is not a string. */
  function Escape(v: Option<string>): string {
    match v
    case None => "''"
    case Some(s) =>
      if Lacks(s, Apostrophe) && Lacks(s, QuotationMark) then [Apostrophe] + s + [Apostrophe]
      else if Lacks(s, QuotationMark) then [QuotationMark] + s + [QuotationMark]
      else if Lacks(s, Apostrophe) then [Apostrophe] + s + [Apostrophe]
      else "concat(" + Join(Lits(Segments(s)), ", ") + ")"
  }

  // ---------------------------------------------------------------------------
  // The source's loop

  /** `escapeXPathString`: the four-way case split on the quote characters the
      value holds; with both, `concat(` + the loop's parts joined by `, ` + `)`. */
  method EscapeXPathString(v: Option<string>) returns (r: string)
    ensures r == Escape(v)
    ensures Decode(r) == Some(if v.Some? then v.value else "")
  {
    EscapeRoundTrip(v);
    if v.None? {
      return "''";
    }
    var str := v.value;
    if Lacks(str, Apostrophe) && Lacks(str, QuotationMark) {
      return [Apostrophe] + str + [Apostrophe];
    }
    if Lacks(str, QuotationMark) {
      return [QuotationMark] + str + [QuotationMark];
    }
    if Lacks(str, Apostrophe) {
      return [Apostrophe] + str + [Apostrophe];
    }
    r := "concat(";
    var parts := ConcatArguments(str);
    r := r + Join(parts, ", ");
    r := r + ")";
  }

  /** The loop of `escapeXPathString` for a value holding both quote characters:
      one pass that collects the quote-free run in `currentPart` and pushes a
      literal for it, and one for every quote character met. */
  method ConcatArguments(str: string) returns (parts: seq<string>)
    ensures parts == Lits(Segments(str))
  {
    parts := [];
    var currentPart: string := "";
    for i := 0 to |str|
      invariant NoQuote(currentPart)
      invariant parts + Lits(Scan(currentPart, str[i..])) == Lits(Segments(str))
    {
      var c := str[i];
      assert str[i..][0] == c && str[i..][1..] == str[i + 1..];
      LitForms(currentPart);
      if c == Apostrophe || c == QuotationMark {
        if |currentPart| > 0 {
          ScanQuoteAfterRun(currentPart, str[i..]);
          PushTwo(parts, Lit(currentPart), Lit([c]), Lits(Scan([], str[i + 1..])), Lits(Segments(str)));
          parts := parts + [[Apostrophe] + currentPart + [Apostrophe]];
          currentPart := "";
        } else {
          ScanQuoteAlone(str[i..]);
          PushOne(parts, Lit([c]), Lits(Scan([], str[i + 1..])), Lits(Segments(str)));
        }
        if c == Apostrophe {
          parts := parts + [[QuotationMark, Apostrophe, QuotationMark]];
        } else {
          parts := parts + [[Apostrophe, QuotationMark, Apostrophe]];
        }
      } else {
        currentPart := currentPart + [c];
      }
    }
    assert str[|str|..] == [];
    if |currentPart| > 0 {
      ScanEndRun(currentPart);
      LitForms(currentPart);
      parts := parts + [[Apostrophe] + currentPart + [Apostrophe]];
    }
  }

  /** A quote closing a non-empty run: one literal for the run, one for the quote. */
  lemma ScanQuoteAfterRun(run: string, t: string)
    requires t != [] && IsQuote(t[0]) && run != []
    ensures Lits(Scan(run, t)) == [Lit(run)] + ([Lit([t[0]])] + Lits(Scan([], t[1..])))
  {
    var q := t[0];
    var rest := Scan([], t[1..]);
    assert Scan(run, t) == [run] + ([[q]] + rest);
    LitsCons([q], rest);
    LitsCons(run, [[q]] + rest);
  }

  /** A quote with no run before it: one literal for the quote. */
  lemma ScanQuoteAlone(t: string)
    requires t != [] && IsQuote(t[0])
    ensures Lits(Scan([], t)) == [Lit([t[0]])] + Lits(Scan([], t[1..]))
  {
    var q := t[0];
    var rest := Scan([], t[1..]);
    assert Scan([], t) == [] + ([[q]] + rest);
    assert [] + ([[q]] + rest) == [[q]] + rest;
    LitsCons([q], rest);
  }

  /** The literals the loop pushes: `"'"`, `'"'`, and a run between apostrophes. */
  lemma LitForms(run: string)
    ensures Lit([Apostrophe]) == [QuotationMark, Apostrophe, QuotationMark]
    ensures Lit([QuotationMark]) == [Apostrophe, QuotationMark, Apostrophe]
    ensures NoQuote(run) ==> Lit(run) == [Apostrophe] + run + [Apostrophe]
  {
    assert [QuotationMark] != [Apostrophe];
    if NoQuote(run) && run == [Apostrophe] {
      assert IsQuote(run[0]);
    }
  }

  /** The end of `Scan`: the pending run, if any, is the last literal. */
  lemma ScanEndRun(run: string)
    requires run != []
    ensures Lits(Scan(run, [])) == [Lit(run)]
  {
    LitsCons(run, []);
  }

  /** Pushing one item, stated generically so that the strings are never compared. */
  lemma PushOne<T>(done: seq<T>, a: T, rest: seq<T>, whole: seq<T>)
    requires done + ([a] + rest) == whole
    ensures (done + [a]) + rest == whole
  {
  }

  /** Pushing two items, stated generically so that the strings are never compared. */
  lemma PushTwo<T>(done: seq<T>, a: T, b: T, rest: seq<T>, whole: seq<T>)
    requires done + ([a] + ([b] + rest)) == whole
    ensures (done + [a] + [b]) + rest == whole
  {
    assert done + [a] + [b] + rest == done + ([a] + ([b] + rest));
  }

  lemma LitsCons(x: string, xs: seq<string>)
    ensures Lits([x] + xs) == [Lit(x)] + Lits(xs)
  {
    assert ([x] + xs)[0] == x && ([x] + xs)[1..] == xs;
  }

  // ---------------------------------------------------------------------------
  // What the segments are

  /** Put back together, the segments give the input. */
  lemma SegmentsFlatten(s: string)
    ensures Flatten(Segments(s)) == s
  {
    ScanFlatten([], s);
    assert [] + s == s;
  }

  lemma {:induction false} ScanFlatten(run: string, t: string)
    ensures Flatten(Scan(run, t)) == run + t
    decreases |t|
  {
    if t == [] {
      PendingFlatten(run);
      assert run + t == run;
    } else if IsQuote(t[0]) {
      ScanFlatten([], t[1..]);
      assert [] + t[1..] == t[1..];
      QuoteFlatten(run, t[0], Scan([], t[1..]), t[1..]);
      assert [t[0]] + t[1..] == t;
    } else {
      ScanFlatten(run + [t[0]], t[1..]);
      assert run + [t[0]] + t[1..] == run + t;
    }
  }

  lemma PendingFlatten(run: string)
    ensures Flatten(Pending(run)) == run
  {
    if run != [] {
      assert Flatten([run]) == run + Flatten([]);
    }
  }

  /** A quote closing the pending run, stated over any segments `rest` of the remainder. */
  lemma QuoteFlatten(run: string, q: char, rest: seq<string>, tail: string)
    requires Flatten(rest) == tail
    ensures Flatten(Pending(run) + ([[q]] + rest)) == run + ([q] + tail)
  {
    assert Flatten([[q]] + rest) == [q] + tail by {
      assert ([[q]] + rest)[1..] == rest;
    }
    FlattenAppend(Pending(run), [[q]] + rest);
    PendingFlatten(run);
  }

  lemma {:induction false} FlattenAppend(a: seq<string>, b: seq<string>)
    ensures Flatten(a + b) == Flatten(a) + Flatten(b)
    decreases |a|
  {
    if a == [] {
      assert a + b == b;
    } else {
      FlattenAppend(a[1..], b);
      assert (a + b)[1..] == a[1..] + b;
    }
  }

  /** Segments as `concat` needs them: each a single quote or a non-empty
      quote-free run, and no run directly followed by another (every run is
      maximal). */
  predicate WellFormed(segs: seq<string>) {
    && (forall k :: 0 <= k < |segs| ==> IsSegment(segs[k]))
    && (forall k :: 0 <= k < |segs| - 1 ==> !(IsRun(segs[k]) && IsRun(segs[k + 1])))
  }

  lemma WellFormedCons(x: string, xs: seq<string>)
    requires IsSegment(x) && WellFormed(xs)
    requires IsRun(x) ==> xs == [] || !IsRun(xs[0])
    ensures WellFormed([x] + xs)
  {
    var ys := [x] + xs;
    forall k | 0 <= k < |ys| ensures IsSegment(ys[k]) {
      if k > 0 {
        assert ys[k] == xs[k - 1];
      }
    }
    forall k | 0 <= k < |ys| - 1 ensures !(IsRun(ys[k]) && IsRun(ys[k + 1])) {
      if k > 0 {
        assert ys[k] == xs[k - 1] && ys[k + 1] == xs[k];
      }
    }
  }

  lemma SegmentsWellFormed(s: string)
    ensures WellFormed(Segments(s))
  {
    ScanWellFormed([], s);
  }

  lemma {:induction false} ScanWellFormed(run: string, t: string)
    requires NoQuote(run)
    ensures WellFormed(Scan(run, t))
    decreases |t|
  {
    if t == [] {
      if run != [] {
        WellFormedCons(run, []);
      }
    } else if IsQuote(t[0]) {
      var rest := Scan([], t[1..]);
      ScanWellFormed([], t[1..]);
      assert [t[0]] == [Apostrophe] || [t[0]] == [QuotationMark];
      assert !IsRun([t[0]]) by { assert [t[0]][0] == t[0]; }
      WellFormedCons([t[0]], rest);
      if run != [] {
        assert ([[t[0]]] + rest)[0] == [t[0]];
        WellFormedCons(run, [[t[0]]] + rest);
      } else {
        assert Scan(run, t) == [[t[0]]] + rest;
      }
    } else {
      ScanWellFormed(run + [t[0]], t[1..]);
    }
  }

  /** Each quote character of the input shows up as a segment of its own. */
  lemma SegmentsKeepQuote(s: string, q: char)
    requires IsQuote(q) && !Lacks(s, q)
    ensures exists k :: 0 <= k < |Segments(s)| && Segments(s)[k] == [q]
  {
    ScanKeepsQuote([], s, q);
    var k :| 0 <= k < |Scan([], s)| && Scan([], s)[k] == [q];
    assert Segments(s)[k] == [q];
  }

  lemma {:induction false} ScanKeepsQuote(run: string, t: string, q: char)
    requires IsQuote(q) && !Lacks(t, q)
    ensures exists k :: 0 <= k < |Scan(run, t)| && Scan(run, t)[k] == [q]
    decreases |t|
  {
    var p := Pending(run);
    if t[0] == q {
      var r := Scan(run, t);
      assert r == p + ([[q]] + Scan([], t[1..]));
      assert r[|p|] == [q];
    } else {
      var j :| 0 <= j < |t| && t[j] == q;
      assert t[1..][j - 1] == q;
      if IsQuote(t[0]) {
        var rest := Scan([], t[1..]);
        ScanKeepsQuote([], t[1..], q);
        var k :| 0 <= k < |rest| && rest[k] == [q];
        var r := Scan(run, t);
        assert r == p + ([[t[0]]] + rest);
        assert r[|p| + 1 + k] == [q];
      } else {
        assert Scan(run, t) == Scan(run + [t[0]], t[1..]);
        ScanKeepsQuote(run + [t[0]], t[1..], q);
      }
    }
  }

  /** A literal the XPath grammar accepts: a delimiter, a body free of that
      delimiter, and the same delimiter again. */
  predicate IsLiteral(p: string) {
    |p| >= 2 && IsQuote(p[0]) && p[|p| - 1] == p[0] && Lacks(p[1..|p| - 1], p[0])
  }

  /** The string value of a literal: its body. */
  function Unquote(p: string): string
    requires |p| >= 2
  {
    p[1..|p| - 1]
  }

  lemma LitOfSegment(seg: string)
    requires IsSegment(seg)
    ensures IsLiteral(Lit(seg)) && Unquote(Lit(seg)) == seg && |Lit(seg)| >= 3
  {
    var p := Lit(seg);
    assert p[1..|p| - 1] == seg;
  }

  /** The three kinds of `concat` argument: `"'"`, `'"'`, or a non-empty
      quote-free run between apostrophes. */
  predicate IsConcatPart(p: string) {
    || p == [QuotationMark, Apostrophe, QuotationMark]
    || p == [Apostrophe, QuotationMark, Apostrophe]
    || (|p| >= 3 && p[0] == Apostrophe && p[|p| - 1] == Apostrophe && IsRun(p[1..|p| - 1]))
  }

  /** With both quote characters present, the output is `concat(` + parts joined
      by `, ` + `)`, with at least two parts (as XPath's `concat` demands), every
      part a literal of one of the three kinds, and the bodies of the parts, in
      order, are the segments, which spell the input. */
  lemma EscapeBothQuotes(s: string)
    requires !Lacks(s, Apostrophe) && !Lacks(s, QuotationMark)
    ensures Escape(Some(s)) == "concat(" + Join(Lits(Segments(s)), ", ") + ")"
    ensures |Lits(Segments(s))| >= 2
    ensures forall k :: 0 <= k < |Segments(s)| ==>
              && IsConcatPart(Lits(Segments(s))[k])
              && IsLiteral(Lits(Segments(s))[k])
              && Unquote(Lits(Segments(s))[k]) == Segments(s)[k]
    ensures Flatten(Segments(s)) == s
  {
    var segs := Segments(s);
    SegmentsFlatten(s);
    SegmentsWellFormed(s);
    assert forall k :: 0 <= k < |segs| ==> IsSegment(segs[k]);
    SegmentsKeepQuote(s, Apostrophe);
    SegmentsKeepQuote(s, QuotationMark);
    assert |segs| >= 2 by {
      var i :| 0 <= i < |segs| && segs[i] == [Apostrophe];
      var j :| 0 <= j < |segs| && segs[j] == [QuotationMark];
      assert i != j;
    }
    forall k | 0 <= k < |segs|
      ensures IsConcatPart(Lits(segs)[k]) && IsLiteral(Lits(segs)[k]) && Unquote(Lits(segs)[k]) == segs[k]
    {
      LitsAt(segs, k);
      LitOfSegment(segs[k]);
    }
  }

  lemma {:induction false} LitsAt(segs: seq<string>, k: nat)
    requires k < |segs|
    ensures Lits(segs)[k] == Lit(segs[k])
    decreases k
  {
    if k > 0 {
      LitsAt(segs[1..], k - 1);
    }
  }

  /** Without both quote characters the output is one literal whose body is the
      input, delimited by `"` exactly when the input holds `'`. */
  lemma EscapeSingleLiteral(s: string)
    requires Lacks(s, Apostrophe) || Lacks(s, QuotationMark)
    ensures IsLiteral(Escape(Some(s))) && Unquote(Escape(Some(s))) == s
    ensures Escape(Some(s))[0] == (if Lacks(s, Apostrophe) then Apostrophe else QuotationMark)
  {
    var e := Escape(Some(s));
    assert e[1..|e| - 1] == s;
  }

  // ---------------------------------------------------------------------------
  // Evaluating what Escape produces

  /** Reads a literal body up to the closing delimiter `q`; yields the body and
      what follows the delimiter. */
  function LiteralBody(t: string, q: char): (r: Option<(string, string)>)
    ensures r.Some? ==> |r.value.1| < |t|
    decreases |t|
  {
    if t == [] then None
    else if t[0] == q then Some(([], t[1..]))
    else match LiteralBody(t[1..], q)
      case None => None
      case Some(br) => Some(([t[0]] + br.0, br.1))
  }

  /** Reads one XPath literal at the start of `t`: its value and the rest of `t`. */
  function ParseLiteral(t: string): (r: Option<(string, string)>)
    ensures r.Some? ==> |r.value.1| < |t|
  {
    if t != [] && IsQuote(t[0]) then LiteralBody(t[1..], t[0]) else None
  }

  /** Reads the arguments of a `concat` call after its `(`: literals separated
      by `, ` and closed by `)`, which must end the text. */
  function ParseArgs(t: string): Option<seq<string>>
    decreases |t|
  {
    match ParseLiteral(t)
    case None => None
    case Some(vr) =>
      if vr.1 == ")" then Some([vr.0])
      else if |vr.1| >= 2 && vr.1[..2] == ", " then
        match ParseArgs(vr.1[2..])
        case None => None
        case Some(vs) => Some([vr.0] + vs)
      else None
  }

  /** The string value of an XPath expression that is a single literal or a
      `concat` of two or more literals; `None` for any other text. */
  function Decode(e: string): Option<string> {
    if |e| >= 7 && e[..7] == "concat(" then
      match ParseArgs(e[7..])
      case Some(vs) => if |vs| >= 2 then Some(Flatten(vs)) else None
      case None => None
    else
      match ParseLiteral(e)
      case Some(vr) => if vr.1 == [] then Some(vr.0) else None
      case None => None
  }

  lemma {:induction false} LiteralBodyFinds(body: string, q: char, tail: string)
    requires Lacks(body, q)
    ensures LiteralBody(body + [q] + tail, q) == Some((body, tail))
    decreases |body|
  {
    var t := body + [q] + tail;
    if body == [] {
      assert t == [q] + tail;
    } else {
      assert t[0] == body[0] && t[1..] == body[1..] + [q] + tail;
      LiteralBodyFinds(body[1..], q, tail);
      assert [body[0]] + body[1..] == body;
    }
  }

  lemma ParseLitOf(seg: string, tail: string)
    requires IsSegment(seg)
    ensures ParseLiteral(Lit(seg) + tail) == Some((seg, tail))
  {
    var p := Lit(seg);
    var q := p[0];
    assert p == [q] + seg + [q];
    assert (p + tail)[1..] == seg + [q] + tail;
    LiteralBodyFinds(seg, q, tail);
  }

  lemma {:induction false} ParseArgsOfJoin(segs: seq<string>)
    requires |segs| >= 1
    requires forall k :: 0 <= k < |segs| ==> IsSegment(segs[k])
    ensures ParseArgs(Join(Lits(segs), ", ") + ")") == Some(segs)
    decreases |segs|
  {
    var parts := Lits(segs);
    if |segs| == 1 {
      assert parts[0] == Lit(segs[0]);
      assert Join(parts, ", ") == Lit(segs[0]);
      assert segs == [segs[0]];
      ParseLitOf(segs[0], ")");
    } else {
      var rest := Join(Lits(segs[1..]), ", ") + ")";
      assert parts[1..] == Lits(segs[1..]);
      assert Join(parts, ", ") + ")" == Lit(segs[0]) + (", " + rest);
      ParseLitOf(segs[0], ", " + rest);
      assert (", " + rest)[..2] == ", " && (", " + rest)[2..] == rest;
      ParseArgsOfJoin(segs[1..]);
      assert [segs[0]] + segs[1..] == segs;
    }
  }

  /** Round trip: the escaped form evaluates to the value it was made from (the
      empty string for a value that is not a string). */
  lemma EscapeRoundTrip(v: Option<string>)
    ensures Decode(Escape(v)) == Some(if v.Some? then v.value else "")
  {
    match v
    case None =>
      var e := Escape(v);
      LiteralBodyFinds("", Apostrophe, "");
      assert e[1..] == [] + [Apostrophe] + [];
    case Some(s) =>
      if !Lacks(s, Apostrophe) && !Lacks(s, QuotationMark) {
        ConcatRoundTrip(s);
      } else {
        LiteralRoundTrip(s);
      }
  }

  lemma ConcatRoundTrip(s: string)
    requires !Lacks(s, Apostrophe) && !Lacks(s, QuotationMark)
    ensures Decode(Escape(Some(s))) == Some(s)
  {
    var e := Escape(Some(s));
    var segs := Segments(s);
    SegmentsWellFormed(s);
    EscapeBothQuotes(s);
    ParseArgsOfJoin(segs);
    assert e[..7] == "concat(";
    assert e[7..] == Join(Lits(segs), ", ") + ")";
  }

  lemma LiteralRoundTrip(s: string)
    requires Lacks(s, Apostrophe) || Lacks(s, QuotationMark)
    ensures Decode(Escape(Some(s))) == Some(s)
  {
    var e := Escape(Some(s));
    var q := e[0];
    assert e == [q] + s + [q];
    assert !(|e| >= 7 && e[..7] == "concat(") by { assert IsQuote(e[0]); }
    assert e[1..] == s + [q] + [];
    LiteralBodyFinds(s, q, []);
  }

  // ---------------------------------------------------------------------------
  // Characters the escaped form adds

  /** Escaping adds no character but the quotes and those of `concat(`, `, ` and
      `)`: a character outside those that the value lacks, its escaped form lacks. */
  lemma EscapeLacks(s: string, c: char)
    requires Lacks(s, c) && !IsQuote(c) && Lacks("concat(), ", c)
    ensures Lacks(Escape(Some(s)), c)
  {
    if !Lacks(s, Apostrophe) && !Lacks(s, QuotationMark) {
      assert "concat(), " == "concat(" + ")" + ", ";
      LacksAppend("concat(" + ")", ", ", c);
      LacksAppend("concat(", ")", c);
      var segs := Segments(s);
      SegmentsFlatten(s);
      FlattenLacks(segs, c);
      LitsLack(segs, c);
      JoinLacks(Lits(segs), ", ", c);
      LacksAppend("concat(" + Join(Lits(segs), ", "), ")", c);
      LacksAppend("concat(", Join(Lits(segs), ", "), c);
    } else {
      var q := Escape(Some(s))[0];
      LacksAppend([q] + s, [q], c);
      LacksAppend([q], s, c);
    }
  }

  lemma LacksAppend(a: string, b: string, c: char)
    ensures Lacks(a + b, c) <==> Lacks(a, c) && Lacks(b, c)
  {
    if Lacks(a, c) && Lacks(b, c) {
      forall k | 0 <= k < |a + b|
        ensures (a + b)[k] != c
      {
        if k >= |a| {
          assert (a + b)[k] == b[k - |a|];
        }
      }
    }
    if Lacks(a + b, c) {
      forall k | 0 <= k < |a|
        ensures a[k] != c
      {
        assert (a + b)[k] == a[k];
      }
      forall k | 0 <= k < |b|
        ensures b[k] != c
      {
        assert (a + b)[|a| + k] == b[k];
      }
    }
  }

  lemma {:induction false} FlattenLacks(parts: seq<string>, c: char)
    requires Lacks(Flatten(parts), c)
    ensures forall k :: 0 <= k < |parts| ==> Lacks(parts[k], c)
    decreases |parts|
  {
    if parts != [] {
      LacksAppend(parts[0], Flatten(parts[1..]), c);
      FlattenLacks(parts[1..], c);
      forall k | 1 <= k < |parts|
        ensures Lacks(parts[k], c)
      {
        assert parts[k] == parts[1..][k - 1];
      }
    }
  }

  lemma LitsLack(segs: seq<string>, c: char)
    requires !IsQuote(c)
    requires forall k :: 0 <= k < |segs| ==> Lacks(segs[k], c)
    ensures forall k :: 0 <= k < |segs| ==> Lacks(Lits(segs)[k], c)
  {
    forall k | 0 <= k < |segs|
      ensures Lacks(Lits(segs)[k], c)
    {
      LitsAt(segs, k);
      if segs[k] != [Apostrophe] {
        LacksAppend([Apostrophe] + segs[k], [Apostrophe], c);
        LacksAppend([Apostrophe], segs[k], c);
      }
    }
  }

  lemma {:induction false} JoinLacks(parts: seq<string>, sep: string, c: char)
    requires Lacks(sep, c)
    requires forall k :: 0 <= k < |parts| ==> Lacks(parts[k], c)
    ensures Lacks(Join(parts, sep), c)
    decreases |parts|
  {
    if |parts| > 1 {
      JoinLacks(parts[1..], sep, c);
      LacksAppend(parts[0] + sep, Join(parts[1..], sep), c);
      LacksAppend(parts[0], sep, c);
    }
  }
}
