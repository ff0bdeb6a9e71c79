/** The JavaScript string operations the XPath engine relies on, stated over
    `seq<char>`: `trim`, `split(/\s+/)`, `toLowerCase` (ASCII letters only),
    `includes`, `startsWith`, `Array.prototype.join` and the decimal rendering
    of a number inside a template literal. */
module Text {

  /** The characters JavaScript treats as white space in `String.prototype.trim`
      and in the regular-expression class `\s`: the ECMAScript WhiteSpace and
      LineTerminator code points. */
  predicate IsSpace(c: char) {
    var n := c as int;
    n == 0x20 || (0x09 <= n <= 0x0D) || n == 0xA0 || n == 0x1680
    || (0x2000 <= n <= 0x200A) || n == 0x2028 || n == 0x2029
    || n == 0x202F || n == 0x205F || n == 0x3000 || n == 0xFEFF
  }

  /** No white space anywhere in `s`. */
  predicate NoSpace(s: string) {
    forall k :: 0 <= k < |s| ==> !IsSpace(s[k])
  }

  /** `s.trimStart()`: the suffix of `s` left after dropping its leading white space. */
  function TrimStart(s: string): (r: string)
    ensures |r| <= |s| && r == s[|s| - |r|..]
    ensures r == [] || !IsSpace(r[0])
    ensures forall k :: 0 <= k < |s| - |r| ==> IsSpace(s[k])
  {
    if s != [] && IsSpace(s[0]) then TrimStart(s[1..]) else s
  }

  /** `s.trimEnd()`: the prefix of `s` left after dropping its trailing white space. */
  function TrimEnd(s: string): (r: string)
    ensures |r| <= |s| && r == s[..|r|]
    ensures r == [] || !IsSpace(r[|r| - 1])
    ensures forall k :: |r| <= k < |s| ==> IsSpace(s[k])
  {
    if s != [] && IsSpace(s[|s| - 1]) then TrimEnd(s[..|s| - 1]) else s
  }

  /** `s.trim()`: the slice of `s` between its leading and trailing white space. */
  function Trim(s: string): (r: string)
    ensures r == [] || (!IsSpace(r[0]) && !IsSpace(r[|r| - 1]))
    ensures r == [] <==> forall k :: 0 <= k < |s| ==> IsSpace(s[k])
    ensures exists i, j :: 0 <= i <= j <= |s| && r == s[i..j]
              && (forall k :: 0 <= k < i ==> IsSpace(s[k]))
              && (forall k :: j <= k < |s| ==> IsSpace(s[k]))
  {
    var t := TrimStart(s);
    var r := TrimEnd(t);
    TrimBounds(s, t, r);
    r
  }

  /** Dropping white space from the front of `s`, leaving `t`, then from the
      back of `t`, leaving `r`, cuts `s` between two runs of white space. */
  lemma TrimBounds(s: string, t: string, r: string)
    requires |t| <= |s| && t == s[|s| - |t|..] && (t == [] || !IsSpace(t[0]))
    requires forall k :: 0 <= k < |s| - |t| ==> IsSpace(s[k])
    requires |r| <= |t| && r == t[..|r|] && (r == [] || !IsSpace(r[|r| - 1]))
    requires forall k :: |r| <= k < |t| ==> IsSpace(t[k])
    ensures r == [] || (!IsSpace(r[0]) && !IsSpace(r[|r| - 1]))
    ensures r == [] <==> forall k :: 0 <= k < |s| ==> IsSpace(s[k])
    ensures exists i, j :: 0 <= i <= j <= |s| && r == s[i..j]
              && (forall k :: 0 <= k < i ==> IsSpace(s[k]))
              && (forall k :: j <= k < |s| ==> IsSpace(s[k]))
  {
    var i := |s| - |t|;
    var j := i + |r|;
    if r != [] {
      assert r[0] == t[0];
    }
    if t != [] {
      assert t[0] == s[i];
    }
    forall k | j <= k < |s|
      ensures IsSpace(s[k])
    {
      assert s[k] == t[k - i];
    }
    assert r == s[i..j];
  }

  /** The position of the first white-space character of `s`, or `|s|` when there is none. */
  function IndexOfSpace(s: string): (i: nat)
    ensures i <= |s| && (i < |s| ==> IsSpace(s[i]))
    ensures NoSpace(s[..i])
  {
    if s == [] || IsSpace(s[0]) then 0 else 1 + IndexOfSpace(s[1..])
  }

  /** `s.split(/\s+/)`: the fields of `s` between maximal runs of white space.
      Like the JavaScript method it yields `[""]` for the empty string and an
      empty first (last) field when `s` starts (ends) with white space. */
  function SplitWs(s: string): (r: seq<string>)
    ensures |r| >= 1
    ensures forall k :: 0 <= k < |r| ==> NoSpace(r[k])
    decreases |s|
  {
    var i := IndexOfSpace(s);
    if i == |s| then
      assert s[..i] == s;
      [s]
    else
      [s[..i]] + SplitWs(TrimStart(s[i..]))
  }

  /** Every character of `w` is white space. */
  predicate AllSpace(w: string) {
    forall k :: 0 <= k < |w| ==> IsSpace(w[k])
  }

  /** `fs[0] + seps[0] + fs[1] + ... + seps[n - 1] + fs[n]`. */
  function Interleave(fs: seq<string>, seps: seq<string>): string
    requires |fs| == |seps| + 1
    decreases |seps|
  {
    if seps == [] then fs[0] else fs[0] + seps[0] + Interleave(fs[1..], seps[1..])
  }

  /** `seps` can stand between the fields `fs`: one non-empty run of white
      space between each two fields. */
  predicate Separators(fs: seq<string>, seps: seq<string>) {
    |seps| + 1 == |fs| && forall k :: 0 <= k < |seps| ==> seps[k] != [] && AllSpace(seps[k])
  }

  /** Fields as `split(/\s+/)` yields them: at least one, none holding white
      space, and only the first and the last possibly empty. */
  predicate Fields(fs: seq<string>) {
    && |fs| >= 1
    && (forall k :: 0 <= k < |fs| ==> NoSpace(fs[k]))
    && (forall k :: 0 < k < |fs| - 1 ==> fs[k] != [])
  }

  /** `s` is made of the fields `fs` separated by runs of white space (the
      first or last field is empty when `s` starts or ends with white space).
      These are the fields `split(/\s+/)` is meant to find. */
  ghost predicate Spaced(s: string, fs: seq<string>) {
    Fields(fs) && exists seps :: Separators(fs, seps) && s == Interleave(fs, seps)
  }

  /** Dropping leading white space from a run of white space followed by a
      string that does not start with white space leaves that string. */
  lemma TrimStartRun(w: string, t: string)
    requires AllSpace(w) && (t == [] || !IsSpace(t[0]))
    ensures TrimStart(w + t) == t
  {
    assert (w + t)[|w|..] == t;
  }

  /** What `TrimStart` drops from a string starting with white space is a
      non-empty run of white space. */
  lemma DroppedRun(u: string, rest: string) returns (sep: string)
    requires u != [] && IsSpace(u[0])
    requires |rest| <= |u| && rest == u[|u| - |rest|..] && (rest == [] || !IsSpace(rest[0]))
    requires forall k :: 0 <= k < |u| - |rest| ==> IsSpace(u[k])
    ensures u == sep + rest && sep != [] && AllSpace(sep)
  {
    sep := u[..|u| - |rest|];
    assert u == sep + rest;
  }

  /** A field and a separator put in front of interleaved fields. */
  lemma SeparatorsStep(s: string, f: string, u: string, sep: string, rest: string,
                       fs: seq<string>, seps: seq<string>, r: seq<string>)
    requires s == f + u && u == sep + rest && sep != [] && AllSpace(sep)
    requires Separators(fs, seps) && rest == Interleave(fs, seps) && r == [f] + fs
    ensures Separators(r, [sep] + seps) && s == Interleave(r, [sep] + seps)
  {
    assert r[1..] == fs && ([sep] + seps)[1..] == seps;
    assert f + (sep + rest) == f + sep + rest;
  }

  /** The pieces of `f + sep + t` found back by position. */
  lemma Pieces(s: string, f: string, sep: string, t: string)
    requires s == f + sep + t && sep != []
    ensures s[..|f|] == f && s[|f|..] == sep + t && s[|f|] == sep[0]
  {
  }

  /** A field without white space put in front of fields whose first one is
      not empty, unless it is the only one. */
  lemma FieldsCons(f: string, fs: seq<string>)
    requires NoSpace(f) && Fields(fs) && (|fs| > 1 ==> fs[0] != [])
    ensures Fields([f] + fs)
  {
    var gs := [f] + fs;
    assert forall k :: 0 < k < |gs| ==> gs[k] == fs[k - 1];
  }

  /** Interleaved fields with their first field and separator taken off. */
  lemma FieldsTail(s: string, fs: seq<string>, seps: seq<string>) returns (t: string)
    requires Fields(fs) && Separators(fs, seps) && s == Interleave(fs, seps) && |fs| > 1
    ensures s == fs[0] + seps[0] + t && t == Interleave(fs[1..], seps[1..])
    ensures Fields(fs[1..]) && Separators(fs[1..], seps[1..])
    ensures t == [] || !IsSpace(t[0])
  {
    t := Interleave(fs[1..], seps[1..]);
    if |fs| > 2 {
      assert t == fs[1] + seps[1] + Interleave(fs[2..], seps[2..]);
      assert t[0] == fs[1][0];
    }
    assert forall k :: 0 < k < |fs[1..]| - 1 ==> fs[1..][k] == fs[k + 1];
  }

  /** A string that does not start with white space has a non-empty first
      field, unless it is its only field. */
  lemma SplitWsHead(s: string)
    requires s == [] || !IsSpace(s[0])
    ensures |SplitWs(s)| > 1 ==> SplitWs(s)[0] != []
  {
    if s != [] {
      assert IndexOfSpace(s) > 0;
    }
  }

  /** A string without white space is its only field. */
  lemma SplitWsWhole(s: string) returns (seps: seq<string>)
    requires IndexOfSpace(s) == |s|
    ensures Separators(SplitWs(s), seps) && s == Interleave(SplitWs(s), seps)
  {
    assert s[..|s|] == s;
    seps := [];
  }

  /** The first field of `s` in front of the fields of what follows the
      first run of white space. */
  lemma SplitWsFront(s: string, i: nat, rest: string)
    requires i == IndexOfSpace(s) && i < |s| && rest == TrimStart(s[i..])
    ensures SplitWs(s) == [s[..i]] + SplitWs(rest)
  {
  }

  /** The run of white space at `i` and what follows it. */
  lemma RunAt(s: string, i: nat, rest: string) returns (sep: string)
    requires i < |s| && IsSpace(s[i]) && rest == TrimStart(s[i..])
    ensures s == s[..i] + s[i..] && s[i..] == sep + rest && sep != [] && AllSpace(sep)
  {
    sep := DroppedRun(s[i..], rest);
  }

  /** The runs of white space between the fields `SplitWs` finds. */
  lemma {:induction false} SplitWsSeparators(s: string) returns (seps: seq<string>)
    ensures Separators(SplitWs(s), seps) && s == Interleave(SplitWs(s), seps)
    decreases |s|
  {
    var i := IndexOfSpace(s);
    if i == |s| {
      seps := SplitWsWhole(s);
    } else {
      var rest := TrimStart(s[i..]);
      var tail := SplitWsSeparators(rest);
      SplitWsFront(s, i, rest);
      var sep := RunAt(s, i, rest);
      SeparatorsStep(s, s[..i], s[i..], sep, rest, SplitWs(rest), tail, SplitWs(s));
      seps := [sep] + tail;
    }
  }

  /** `SplitWs` yields fields: no white space, no empty one inside. */
  lemma {:induction false} SplitWsFields(s: string)
    ensures Fields(SplitWs(s))
    decreases |s|
  {
    var i := IndexOfSpace(s);
    if i < |s| {
      var rest := TrimStart(s[i..]);
      SplitWsFields(rest);
      SplitWsHead(rest);
      assert SplitWs(s) == [s[..i]] + SplitWs(rest);
      FieldsCons(s[..i], SplitWs(rest));
    }
  }

  /** The fields `SplitWs` finds are separated by runs of white space. */
  lemma SplitWsSpaced(s: string)
    ensures Spaced(s, SplitWs(s))
  {
    var seps := SplitWsSeparators(s);
    SplitWsFields(s);
  }

  /** The first white space of `s` is at `n` (at `|s|` when there is none). */
  lemma {:induction false} IndexOfSpaceAt(s: string, n: nat)
    requires n <= |s| && NoSpace(s[..n]) && (n < |s| ==> IsSpace(s[n]))
    ensures IndexOfSpace(s) == n
    decreases n
  {
    if n > 0 {
      assert s[..n][0] == s[0];
      assert s[1..][..n - 1] == s[..n][1..];
      IndexOfSpaceAt(s[1..], n - 1);
    }
  }

  /** A single field is what `SplitWs` finds in it. */
  lemma OneFieldIsSplit(s: string, fs: seq<string>, seps: seq<string>)
    requires Fields(fs) && Separators(fs, seps) && s == Interleave(fs, seps) && |fs| == 1
    ensures fs == SplitWs(s)
  {
    assert s == fs[0] && s[..|s|] == s;
    IndexOfSpaceAt(s, |s|);
  }

  /** The first field of interleaved fields is the first field `SplitWs`
      finds, and the rest of the string is what remains once the run of
      white space after it is dropped. */
  lemma FirstFieldIsSplit(s: string, fs: seq<string>, seps: seq<string>) returns (t: string)
    requires Fields(fs) && Separators(fs, seps) && s == Interleave(fs, seps) && |fs| > 1
    ensures t == Interleave(fs[1..], seps[1..]) && Fields(fs[1..]) && Separators(fs[1..], seps[1..])
    ensures fs[1..] == SplitWs(t) ==> fs == SplitWs(s)
  {
    t := FieldsTail(s, fs, seps);
    var n := |fs[0]|;
    Pieces(s, fs[0], seps[0], t);
    IndexOfSpaceAt(s, n);
    TrimStartRun(seps[0], t);
    assert SplitWs(s) == [fs[0]] + SplitWs(t);
    assert fs == [fs[0]] + fs[1..];
  }

  /** Fields interleaved with runs of white space are what `SplitWs` finds. */
  lemma {:induction false} InterleavedIsSplit(s: string, fs: seq<string>, seps: seq<string>)
    requires Fields(fs) && Separators(fs, seps) && s == Interleave(fs, seps)
    ensures fs == SplitWs(s)
    decreases |fs|
  {
    if |fs| == 1 {
      OneFieldIsSplit(s, fs, seps);
    } else {
      var t := FirstFieldIsSplit(s, fs, seps);
      InterleavedIsSplit(t, fs[1..], seps[1..]);
    }
  }

  /** `SplitWs` finds the only such fields: any split of `s` into fields
      separated by runs of white space is the one `SplitWs` yields. */
  lemma SpacedIsSplit(s: string, fs: seq<string>)
    requires Spaced(s, fs)
    ensures fs == SplitWs(s)
  {
    var seps :| Separators(fs, seps) && s == Interleave(fs, seps);
    InterleavedIsSplit(s, fs, seps);
  }

  /** Splitting a trimmed, non-blank string yields non-empty words only: this is
      why the class names of an element are never empty. */
  lemma {:induction false} SplitTrimmedIsWords(s: string)
    requires s != [] && !IsSpace(s[0]) && !IsSpace(s[|s| - 1])
    ensures forall k :: 0 <= k < |SplitWs(s)| ==> SplitWs(s)[k] != []
    decreases |s|
  {
    var i := IndexOfSpace(s);
    if i < |s| {
      var rest := TrimStart(s[i..]);
      assert s[|s| - 1] == s[i..][|s| - i - 1];
      assert rest != [] && rest[|rest| - 1] == s[|s| - 1];
      SplitTrimmedIsWords(rest);
      assert SplitWs(s) == [s[..i]] + SplitWs(rest);
    }
  }

  /** ASCII `toLowerCase` of one character. */
  function LowerChar(c: char): char {
    if 'A' <= c <= 'Z' then (c as int + 32) as char else c
  }

  /** `s.toLowerCase()` restricted to ASCII letters (HTML tag names are ASCII). */
  function Lower(s: string): string {
    seq(|s|, i requires 0 <= i < |s| => LowerChar(s[i]))
  }

  /** `s.startsWith(p)`. */
  predicate StartsWith(s: string, p: string) {
    |p| <= |s| && s[..|p|] == p
  }

  /** `sub` occurs in `s` at position `i`. */
  ghost predicate OccursAt(s: string, sub: string, i: int) {
    0 <= i && i + |sub| <= |s| && s[i..i + |sub|] == sub
  }

  /** `s.includes(sub)`, by scanning the start positions left to right. */
  function Includes(s: string, sub: string): bool
    decreases |s|
  {
    if |sub| > |s| then false
    else if s[..|sub|] == sub then true
    else Includes(s[1..], sub)
  }

  /** `Includes` holds exactly when `sub` occurs somewhere in `s`. */
  lemma {:induction false} IncludesIff(s: string, sub: string)
    ensures Includes(s, sub) <==> exists i :: OccursAt(s, sub, i)
    decreases |s|
  {
    if |sub| > |s| {
    } else if s[..|sub|] == sub {
      assert OccursAt(s, sub, 0);
    } else {
      IncludesIff(s[1..], sub);
      if Includes(s[1..], sub) {
        var i :| OccursAt(s[1..], sub, i);
        assert s[1..][i..i + |sub|] == s[i + 1..i + 1 + |sub|];
        assert OccursAt(s, sub, i + 1);
      }
      if exists i :: OccursAt(s, sub, i) {
        var i :| OccursAt(s, sub, i);
        assert i != 0;
        assert s[1..][i - 1..i - 1 + |sub|] == s[i..i + |sub|];
        assert OccursAt(s[1..], sub, i - 1);
      }
    }
  }

  /** `parts.join(sep)`. */
  function Join(parts: seq<string>, sep: string): string
    decreases |parts|
  {
    if |parts| == 0 then ""
    else if |parts| == 1 then parts[0]
    else parts[0] + sep + Join(parts[1..], sep)
  }

  /** The concatenation of all `parts` (the JavaScript `parts.join("")`). */
  function Flatten(parts: seq<string>): string
    decreases |parts|
  {
    if parts == [] then "" else parts[0] + Flatten(parts[1..])
  }

  predicate IsDigit(c: char) {
    '0' <= c <= '9'
  }

  predicate AllDigits(s: string) {
    forall k :: 0 <= k < |s| ==> IsDigit(s[k])
  }

  function DigitChar(d: nat): (c: char)
    requires d < 10
    ensures IsDigit(c)
  {
    ('0' as int + d) as char
  }

  /** The decimal rendering of a natural number, as `${n}` produces it. */
  function NatToDecimal(n: nat): (r: string)
    ensures r != [] && AllDigits(r)
    decreases n
  {
    if n < 10 then [DigitChar(n)] else NatToDecimal(n / 10) + [DigitChar(n % 10)]
  }

  /** The number a string of decimal digits denotes. */
  function DecimalValue(d: string): nat
    requires AllDigits(d)
    decreases |d|
  {
    if d == [] then 0 else 10 * DecimalValue(d[..|d| - 1]) + (d[|d| - 1] as int - '0' as int)
  }

  /** Reading back the decimal rendering gives the number. */
  lemma {:induction false} DecimalRoundTrip(n: nat)
    ensures DecimalValue(NatToDecimal(n)) == n
    decreases n
  {
    if n >= 10 {
      DecimalRoundTrip(n / 10);
      var d := NatToDecimal(n);
      assert d[..|d| - 1] == NatToDecimal(n / 10);
    }
  }
}
