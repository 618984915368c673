/**
 * The JavaScript string built-ins that the editing form relies on: the `\s`
 * character class, trimming, `Array.prototype.join`, `String.prototype.indexOf`,
 * `String.prototype.replace` with a string pattern (first occurrence only, with
 * the `$`-patterns of ECMA-262 GetSubstitution), and decimal digit strings.
 */
module JsStrings {

  datatype Option<+T> = None | Some(value: T)

  // ---------------------------------------------------------------------------
  // Whitespace: the `\s` class of ECMAScript regular expressions
  // ---------------------------------------------------------------------------

  /** WhiteSpace or LineTerminator as ECMA-262 defines them (what `\s` matches). */
  predicate IsSpace(c: char) {
    || c == '\t' || c == '\n' || c == '\U{000B}' || c == '\U{000C}' || c == '\r'
    || c == ' ' || c == '\U{00A0}' || c == '\U{1680}'
    || ('\U{2000}' <= c <= '\U{200A}')
    || c == '\U{2028}' || c == '\U{2029}' || c == '\U{202F}' || c == '\U{205F}'
    || c == '\U{3000}' || c == '\U{FEFF}'
  }

  predicate AllSpace(s: string) {
    forall i :: 0 <= i < |s| ==> IsSpace(s[i])
  }

  /** Drops the leading run of whitespace (`/^\s*` ). */
  function TrimStart(s: string): (r: string)
    ensures |r| <= |s|
  {
    if s != [] && IsSpace(s[0]) then TrimStart(s[1..]) else s
  }

  /** Drops the trailing run of whitespace (`\s*$/`). */
  function TrimEnd(s: string): (r: string)
    ensures |r| <= |s|
  {
    if s != [] && IsSpace(s[|s| - 1]) then TrimEnd(s[..|s| - 1]) else s
  }

  /**
   * What `TrimStart` removes is whitespace, what it keeps is the rest of the
   * text, and the kept text does not start with whitespace.
   */
  lemma {:induction false} TrimStartSplit(s: string)
    ensures var r := TrimStart(s);
            s == s[..|s| - |r|] + r && AllSpace(s[..|s| - |r|]) && (r == [] || !IsSpace(r[0]))
  {
    if s != [] && IsSpace(s[0]) {
      TrimStartSplit(s[1..]);
      var r := TrimStart(s);
      assert s[..|s| - |r|] == [s[0]] + s[1..][..|s[1..]| - |r|];
    }
  }

  /**
   * What `TrimEnd` removes is whitespace, what it keeps is the front of the
   * text, and the kept text does not end with whitespace.
   */
  lemma {:induction false} TrimEndSplit(s: string)
    ensures var r := TrimEnd(s);
            s == r + s[|r|..] && AllSpace(s[|r|..]) && (r == [] || !IsSpace(r[|r| - 1]))
  {
    if s != [] && IsSpace(s[|s| - 1]) {
      var p := s[..|s| - 1];
      TrimEndSplit(p);
      var r := TrimEnd(p);
      assert TrimEnd(s) == r;
      var dropped := s[|r|..];
      assert dropped == p[|r|..] + [s[|s| - 1]];
      forall i | 0 <= i < |dropped| ensures IsSpace(dropped[i]) {
        if i < |dropped| - 1 {
          assert dropped[i] == p[|r|..][i];
        }
      }
      assert s == r + dropped;
    }
  }

  lemma AppendAssoc(a: string, b: string, c: string)
    ensures a + (b + c) == a + b + c
  {
  }

  /** `s.replace(/^\s+|\s+$/g, "")`: the leading and the trailing whitespace removed. */
  function Trim(s: string): string {
    TrimEnd(TrimStart(s))
  }

  /** The trimmed text is empty exactly when every character is whitespace. */
  lemma TrimEmptyIffAllSpace(s: string)
    ensures Trim(s) == [] <==> AllSpace(s)
  {
    var a := TrimStart(s);
    TrimStartSplit(s);
    TrimEndSplit(a);
  }

  /** Leading whitespace added before a text is trimmed away with the text's own. */
  lemma TrimStartOfSpacePrefix(w: string, s: string)
    requires AllSpace(w)
    ensures TrimStart(w + s) == TrimStart(s)
  {
    if w != [] {
      assert (w + s)[1..] == w[1..] + s;
      TrimStartOfSpacePrefix(w[1..], s);
    } else {
      assert w + s == s;
    }
  }

  /** Trailing whitespace added after a text is trimmed away with the text's own. */
  lemma TrimEndOfSpaceSuffix(s: string, w: string)
    requires AllSpace(w)
    ensures TrimEnd(s + w) == TrimEnd(s)
  {
    if w != [] {
      assert (s + w)[..|s + w| - 1] == s + w[..|w| - 1];
      TrimEndOfSpaceSuffix(s, w[..|w| - 1]);
    } else {
      assert s + w == s;
    }
  }

  // ---------------------------------------------------------------------------
  // Concatenation and Array.prototype.join
  // ---------------------------------------------------------------------------

  /** The strings of `xs` one after the other. */
  function Concat(xs: seq<string>): string {
    if xs == [] then "" else xs[0] + Concat(xs[1..])
  }

  lemma {:induction false} ConcatAppend(xs: seq<string>, ys: seq<string>)
    ensures Concat(xs + ys) == Concat(xs) + Concat(ys)
  {
    if xs == [] {
      assert xs + ys == ys;
    } else {
      assert (xs + ys)[1..] == xs[1..] + ys;
      ConcatAppend(xs[1..], ys);
    }
  }

  /** `xs.join(sep)`. */
  function Join(sep: string, xs: seq<string>): string {
    if |xs| == 0 then ""
    else if |xs| == 1 then xs[0]
    else xs[0] + sep + Join(sep, xs[1..])
  }

  /** Joining two non-empty lists puts one separator between the two joins. */
  lemma {:induction false} JoinAppend(sep: string, xs: seq<string>, ys: seq<string>)
    requires xs != [] && ys != []
    ensures Join(sep, xs + ys) == Join(sep, xs) + sep + Join(sep, ys)
  {
    if |xs| == 1 {
      assert (xs + ys)[1..] == ys;
    } else {
      assert (xs + ys)[1..] == xs[1..] + ys;
      JoinAppend(sep, xs[1..], ys);
    }
  }

  /** A join of non-empty strings is empty only for the empty list. */
  lemma {:induction false} JoinNonEmpty(sep: string, xs: seq<string>)
    requires forall i :: 0 <= i < |xs| ==> xs[i] != []
    ensures Join(sep, xs) == [] <==> xs == []
  {
    if |xs| > 1 {
      assert |Join(sep, xs)| >= |xs[0]|;
    }
  }

  // ---------------------------------------------------------------------------
  // String.prototype.indexOf and String.prototype.replace
  // ---------------------------------------------------------------------------

  predicate OccursAt(s: string, pat: string, i: nat) {
    i + |pat| <= |s| && s[i..i + |pat|] == pat
  }

  /** `s.indexOf(pat, from)`; None stands for -1. */
  function IndexFrom(s: string, pat: string, from: nat): (r: Option<nat>)
    requires from <= |s|
    decreases |s| - from
    ensures r.Some? ==> from <= r.value && OccursAt(s, pat, r.value)
    ensures forall j: nat :: from <= j && (r.None? || j < r.value) ==> !OccursAt(s, pat, j)
  {
    if OccursAt(s, pat, from) then Some(from)
    else if from == |s| then None
    else IndexFrom(s, pat, from + 1)
  }

  /** `s.indexOf(pat)`: the first occurrence of `pat` in `s`. */
  function IndexOf(s: string, pat: string): (r: Option<nat>)
    ensures r.Some? ==> OccursAt(s, pat, r.value)
    ensures forall j: nat :: (r.None? || j < r.value) ==> !OccursAt(s, pat, j)
  {
    IndexFrom(s, pat, 0)
  }

  /**
   * ECMA-262 GetSubstitution for a string pattern (no capture groups):
   * `$$` gives `$`, `$&` the matched text, `` $` `` the text before the match,
   * `$'` the text after it; every other `$` is kept as it is.
   */
  function Expand(template: string, matched: string, before: string, after: string): string
  {
    if |template| >= 2 && template[0] == '$' && template[1] in "$&`'" then
      (if template[1] == '$' then "$"
       else if template[1] == '&' then matched
       else if template[1] == '`' then before
       else after)
      + Expand(template[2..], matched, before, after)
    else if template == [] then ""
    else [template[0]] + Expand(template[1..], matched, before, after)
  }

  /** A replacement text without `$` is inserted as it is. */
  lemma {:induction false} ExpandVerbatim(template: string, matched: string, before: string, after: string)
    requires '$' !in template
    ensures Expand(template, matched, before, after) == template
  {
    if template != [] {
      ExpandVerbatim(template[1..], matched, before, after);
    }
  }

  /**
   * `s.replace(pat, rep)` with a string pattern: only the FIRST occurrence of
   * `pat` is replaced; without an occurrence `s` is returned unchanged.
   */
  function Replace(s: string, pat: string, rep: string): (r: string)
  {
    match IndexOf(s, pat)
    case None => s
    case Some(p) => s[..p] + Expand(rep, pat, s[..p], s[p + |pat|..]) + s[p + |pat|..]
  }

  /** Replacement happens at the first occurrence and leaves the rest of the text alone. */
  lemma ReplaceAtFirst(pre: string, pat: string, post: string, rep: string)
    requires forall j :: 0 <= j < |pre| ==> !OccursAt(pre + pat + post, pat, j)
    requires '$' !in rep
    ensures Replace(pre + pat + post, pat, rep) == pre + rep + post
  {
    var s := pre + pat + post;
    assert OccursAt(s, pat, |pre|) by {
      assert s[|pre|..|pre| + |pat|] == pat;
    }
    var p := IndexOf(s, pat).value;
    assert p == |pre|;
    assert s[..p] == pre;
    assert s[p + |pat|..] == post;
    ExpandVerbatim(rep, pat, pre, post);
  }

  /** A text that is exactly the pattern becomes the replacement. */
  lemma ReplaceWhole(pat: string, rep: string)
    requires '$' !in rep
    ensures Replace(pat, pat, rep) == rep
  {
    ReplaceAtFirst([], pat, [], rep);
    assert [] + pat + [] == pat;
    assert [] + rep + [] == rep;
  }

  /** Without an occurrence of the pattern the text is returned as it is. */
  lemma ReplaceAbsent(s: string, pat: string, rep: string)
    requires forall j :: !OccursAt(s, pat, j)
    ensures Replace(s, pat, rep) == s
  {
  }

  // ---------------------------------------------------------------------------
  // Decimal digit strings: template literals `${i}` and parseInt
  // ---------------------------------------------------------------------------

  predicate IsDigit(c: char) {
    '0' <= c <= '9'
  }

  predicate AllDigits(s: string) {
    forall i :: 0 <= i < |s| ==> IsDigit(s[i])
  }

  function DigitChar(d: nat): (c: char)
    requires d < 10
    ensures IsDigit(c)
  {
    ('0' as int + d) as char
  }

  /** The decimal spelling of `n`, as `${n}` gives it for a small integer. */
  function Decimal(n: nat): (r: string)
    ensures r != [] && AllDigits(r)
  {
    if n < 10 then [DigitChar(n)] else Decimal(n / 10) + [DigitChar(n % 10)]
  }

  /** The value of a string of decimal digits, as `parseInt` reads it. */
  function DigitsValue(s: string): nat
    requires AllDigits(s)
  {
    if s == [] then 0
    else DigitsValue(s[..|s| - 1]) * 10 + (s[|s| - 1] as int - '0' as int)
  }

  /** Reading back the decimal spelling of `n` gives `n`. */
  lemma {:induction false} DigitsValueOfDecimal(n: nat)
    ensures DigitsValue(Decimal(n)) == n
  {
    if n >= 10 {
      var s := Decimal(n);
      assert s[..|s| - 1] == Decimal(n / 10);
      DigitsValueOfDecimal(n / 10);
    }
  }

  /** Different numbers have different decimal spellings. */
  lemma DecimalInjective(a: nat, b: nat)
    requires Decimal(a) == Decimal(b)
    ensures a == b
  {
    DigitsValueOfDecimal(a);
    DigitsValueOfDecimal(b);
  }
}
