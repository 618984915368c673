/**
 * The correctness criterion of an answer part: the text `_relerr < 0.01`
 * that the simplified controls edit. Its grammar is the regular expression
 *
 *   /^\s*(_relerr|_err)\s*(<|==)\s*([-+]?[0-9]*\.?[0-9]+([eE][-+]?[0-9]+)?)\s*$/
 *
 * whose three captures seed the error-kind selector, the comparison selector
 * and the tolerance field; `formMerge` writes them back as `type op tol`.
 * The tolerance is kept as the matched text and never converted to a number.
 */
module Criteria {
  import opened JsStrings

  datatype ErrorKind = RelativeError | AbsoluteError
  datatype Comparison = Below | Equal

  function KindText(k: ErrorKind): string {
    match k
    case RelativeError => "_relerr"
    case AbsoluteError => "_err"
  }

  function OpText(o: Comparison): string {
    match o
    case Below => "<"
    case Equal => "=="
  }

  /** The three captured components. */
  datatype Criterion = Criterion(kind: ErrorKind, op: Comparison, tolerance: string)

  // ---------------------------------------------------------------------------
  // The numeral `[-+]?[0-9]*\.?[0-9]+([eE][-+]?[0-9]+)?`
  // ---------------------------------------------------------------------------

  datatype Sign = NoSign | Plus | Minus

  function SignText(s: Sign): string {
    match s
    case NoSign => ""
    case Plus => "+"
    case Minus => "-"
  }

  datatype Exponent = Exponent(upper: bool, sign: Sign, digits: string)

  /** One way of reading a text as the numeral of the grammar, part by part. */
  datatype Numeral = Numeral(sign: Sign, whole: string, point: bool, fraction: string, exponent: Option<Exponent>)

  /** `[0-9]*` for the whole part, `[0-9]+` for the fraction and for the exponent digits. */
  predicate WellFormedNumeral(n: Numeral) {
    && AllDigits(n.whole)
    && AllDigits(n.fraction) && n.fraction != []
    && (n.exponent.Some? ==> AllDigits(n.exponent.value.digits) && n.exponent.value.digits != [])
  }

  function ExponentText(e: Option<Exponent>): string {
    match e
    case None => ""
    case Some(x) => (if x.upper then "E" else "e") + SignText(x.sign) + x.digits
  }

  function NumeralText(n: Numeral): string {
    SignText(n.sign) + n.whole + (if n.point then "." else "") + n.fraction + ExponentText(n.exponent)
  }

  /**
   * The states of a scan of `[-+]?[0-9]*\.?[0-9]+([eE][-+]?[0-9]+)?`, named by
   * what has been read so far: `Whole` is a run of digits with no point (which
   * the pattern reads as `[0-9]+`), `Point` a point not yet followed by a digit,
   * `Marker` the `e` or `E`, `MarkerSign` the exponent's sign.
   */
  datatype Scan = Start | Signed | Whole | Point | Fraction | Marker | MarkerSign | ExponentDigits | Reject

  function Step(q: Scan, c: char): Scan {
    if IsDigit(c) then
      match q
      case Start | Signed | Whole => Whole
      case Point | Fraction => Fraction
      case Marker | MarkerSign | ExponentDigits => ExponentDigits
      case Reject => Reject
    else if c == '.' then
      if q == Start || q == Signed || q == Whole then Point else Reject
    else if c == '+' || c == '-' then
      if q == Start then Signed else if q == Marker then MarkerSign else Reject
    else if c == 'e' || c == 'E' then
      if q == Whole || q == Fraction then Marker else Reject
    else Reject
  }

  /** The state after reading all of `t` from `q`. */
  function Run(q: Scan, t: string): Scan {
    if t == [] then q else Step(Run(q, t[..|t| - 1]), t[|t| - 1])
  }

  /** The states where the whole text may end. */
  predicate Accepting(q: Scan) {
    q == Whole || q == Fraction || q == ExponentDigits
  }

  /** The whole of `t` is the numeral of the criterion pattern. */
  predicate IsNumeral(t: string) {
    Accepting(Run(Start, t))
  }

  /** The part of a numeral read so far, as the reading stands in state `q`. */
  predicate Reached(q: Scan, n: Numeral) {
    && AllDigits(n.whole) && AllDigits(n.fraction)
    && (n.exponent.Some? ==> AllDigits(n.exponent.value.digits))
    && match q
       case Start => n == Numeral(NoSign, "", false, "", None)
       case Signed => n.sign != NoSign && n.whole == [] && !n.point && n.fraction == [] && n.exponent.None?
       case Whole => n.whole == [] && !n.point && n.fraction != [] && n.exponent.None?
       case Point => n.point && n.fraction == [] && n.exponent.None?
       case Fraction => n.point && n.fraction != [] && n.exponent.None?
       case Marker =>
         n.fraction != [] && n.exponent.Some? && n.exponent.value.sign == NoSign && n.exponent.value.digits == []
       case MarkerSign =>
         n.fraction != [] && n.exponent.Some? && n.exponent.value.sign != NoSign && n.exponent.value.digits == []
       case ExponentDigits => n.fraction != [] && n.exponent.Some? && n.exponent.value.digits != []
       case Reject => false
  }

  function SignOf(c: char): Sign {
    if c == '+' then Plus else Minus
  }

  /** The part read so far, once `c` has been read in state `q`. */
  function Extend(q: Scan, n: Numeral, c: char): Numeral
    requires Reached(q, n) && Step(q, c) != Reject
  {
    if IsDigit(c) then
      if q == Marker || q == MarkerSign || q == ExponentDigits then
        n.(exponent := Some(n.exponent.value.(digits := n.exponent.value.digits + [c])))
      else n.(fraction := n.fraction + [c])
    else if c == '.' then Numeral(n.sign, n.fraction, true, "", None)
    else if c == '+' || c == '-' then
      if q == Start then n.(sign := SignOf(c))
      else n.(exponent := Some(n.exponent.value.(sign := SignOf(c))))
    else n.(exponent := Some(Exponent(c == 'E', NoSign, "")))
  }

  lemma ExtendReached(q: Scan, n: Numeral, c: char)
    requires Reached(q, n) && Step(q, c) != Reject
    ensures Reached(Step(q, c), Extend(q, n, c))
    ensures NumeralText(Extend(q, n, c)) == NumeralText(n) + [c]
  {
    if IsDigit(c) {
      if q == Marker || q == MarkerSign || q == ExponentDigits {
        ExtendExponentDigit(q, n, c);
      } else {
        ExtendMantissaDigit(q, n, c);
      }
    } else if c == '.' {
      ExtendPoint(q, n);
    } else if c == '+' || c == '-' {
      ExtendSign(q, n, c);
    } else {
      ExtendMarker(q, n, c);
    }
  }

  lemma ExtendExponentDigit(q: Scan, n: Numeral, c: char)
    requires Reached(q, n) && IsDigit(c) && (q == Marker || q == MarkerSign || q == ExponentDigits)
    ensures Reached(Step(q, c), Extend(q, n, c))
    ensures NumeralText(Extend(q, n, c)) == NumeralText(n) + [c]
  {
    var m := Extend(q, n, c);
    var x := n.exponent.value;
    var mark := if x.upper then "E" else "e";
    var front := SignText(n.sign) + n.whole + (if n.point then "." else "") + n.fraction;
    AppendAssoc(mark + SignText(x.sign), x.digits, [c]);
    assert ExponentText(m.exponent) == ExponentText(n.exponent) + [c];
    AppendAssoc(front, ExponentText(n.exponent), [c]);
  }

  lemma ExtendMantissaDigit(q: Scan, n: Numeral, c: char)
    requires Reached(q, n) && IsDigit(c) && (q == Start || q == Signed || q == Whole || q == Point || q == Fraction)
    ensures Reached(Step(q, c), Extend(q, n, c))
    ensures NumeralText(Extend(q, n, c)) == NumeralText(n) + [c]
  {
    var m := Extend(q, n, c);
    var front := SignText(n.sign) + n.whole + (if n.point then "." else "");
    assert n.exponent.None?;
    assert NumeralText(n) == front + n.fraction + "";
    assert NumeralText(m) == front + (n.fraction + [c]) + "";
    AppendAssoc(front, n.fraction, [c]);
  }

  lemma ExtendPoint(q: Scan, n: Numeral)
    requires Reached(q, n) && Step(q, '.') != Reject
    ensures Reached(Step(q, '.'), Extend(q, n, '.'))
    ensures NumeralText(Extend(q, n, '.')) == NumeralText(n) + ['.']
  {
    var m := Extend(q, n, '.');
    assert n.whole == [] && !n.point && n.exponent.None?;
    assert NumeralText(m) == SignText(n.sign) + n.fraction + "." + "" + "";
  }

  lemma ExtendSign(q: Scan, n: Numeral, c: char)
    requires Reached(q, n) && (c == '+' || c == '-') && Step(q, c) != Reject
    ensures Reached(Step(q, c), Extend(q, n, c))
    ensures NumeralText(Extend(q, n, c)) == NumeralText(n) + [c]
  {
    var m := Extend(q, n, c);
    if q == Start {
      assert NumeralText(m) == SignText(m.sign);
    } else {
      var x := n.exponent.value;
      var mark := if x.upper then "E" else "e";
      var front := SignText(n.sign) + n.whole + (if n.point then "." else "") + n.fraction;
      assert ExponentText(n.exponent) == mark;
      assert ExponentText(m.exponent) == mark + [c];
      AppendAssoc(front, mark, [c]);
    }
  }

  lemma ExtendMarker(q: Scan, n: Numeral, c: char)
    requires Reached(q, n) && (c == 'e' || c == 'E') && Step(q, c) != Reject
    ensures Reached(Step(q, c), Extend(q, n, c))
    ensures NumeralText(Extend(q, n, c)) == NumeralText(n) + [c]
  {
    var m := Extend(q, n, c);
    var front := SignText(n.sign) + n.whole + (if n.point then "." else "") + n.fraction;
    assert n.exponent.None?;
    assert NumeralText(n) == front + "";
    assert ExponentText(m.exponent) == [c];
  }

  /** A state that has not rejected has read the front of some numeral (soundness, step by step). */
  lemma {:induction false} RunReached(p: string) returns (n: Numeral)
    requires Run(Start, p) != Reject
    ensures Reached(Run(Start, p), n) && NumeralText(n) == p
  {
    if p == [] {
      n := Numeral(NoSign, "", false, "", None);
    } else {
      var front, c := p[..|p| - 1], p[|p| - 1];
      assert p == front + [c];
      var m := RunReached(front);
      n := Extend(Run(Start, front), m, c);
      ExtendReached(Run(Start, front), m, c);
    }
  }

  /** Every text the scan accepts is spelt by a well-formed numeral. */
  lemma NumeralSound(t: string) returns (n: Numeral)
    requires IsNumeral(t)
    ensures WellFormedNumeral(n) && NumeralText(n) == t
  {
    n := RunReached(t);
  }

  lemma {:induction false} RunAppend(q: Scan, a: string, b: string)
    ensures Run(q, a + b) == Run(Run(q, a), b)
  {
    if b == [] {
      assert a + b == a;
    } else {
      assert (a + b)[..|a + b| - 1] == a + b[..|b| - 1];
      RunAppend(q, a, b[..|b| - 1]);
    }
  }

  /** A run of digits leads where a single digit does. */
  lemma {:induction false} RunDigits(q: Scan, d: string)
    requires d != [] && AllDigits(d)
    ensures Run(q, d) == Step(q, '0')
  {
    if |d| > 1 {
      RunDigits(q, d[..|d| - 1]);
    } else {
      assert d[..0] == [];
    }
  }

  lemma RunSign(q: Scan, s: Sign)
    ensures Run(q, SignText(s)) == if s == NoSign then q else Step(q, '+')
  {
    if s != NoSign {
      assert SignText(s)[..0] == [];
    }
  }

  /** The mantissa of a well-formed numeral leaves the scan after a digit, with or without a point. */
  lemma MantissaRun(n: Numeral)
    requires WellFormedNumeral(n)
    ensures var q := Run(Start, SignText(n.sign) + n.whole + (if n.point then "." else "") + n.fraction);
            q == Whole || q == Fraction
  {
    var st := SignText(n.sign);
    var dot := if n.point then "." else "";
    RunSign(Start, n.sign);
    RunAppend(Start, st, n.whole);
    if n.whole != [] {
      RunDigits(Run(Start, st), n.whole);
    }
    var q1 := Run(Start, st + n.whole);
    assert q1 == Start || q1 == Signed || q1 == Whole;
    RunAppend(Start, st + n.whole, dot);
    if n.point {
      assert dot[..0] == [];
    }
    RunAppend(Start, st + n.whole + dot, n.fraction);
    RunDigits(Run(Start, st + n.whole + dot), n.fraction);
  }

  /** After a mantissa, a well-formed exponent (or none) ends the scan in an accepting state. */
  lemma ExponentRun(q: Scan, e: Option<Exponent>)
    requires q == Whole || q == Fraction
    requires e.Some? ==> AllDigits(e.value.digits) && e.value.digits != []
    ensures Accepting(Run(q, ExponentText(e)))
  {
    if e.Some? {
      var x := e.value;
      var mark := if x.upper then "E" else "e";
      assert ExponentText(e) == mark + SignText(x.sign) + x.digits;
      assert mark[..0] == [];
      RunAppend(q, mark, SignText(x.sign));
      RunSign(Marker, x.sign);
      RunAppend(q, mark + SignText(x.sign), x.digits);
      RunDigits(Run(q, mark + SignText(x.sign)), x.digits);
    }
  }

  /** Every well-formed numeral is accepted by the scan (completeness). */
  lemma NumeralComplete(n: Numeral)
    requires WellFormedNumeral(n)
    ensures IsNumeral(NumeralText(n))
  {
    var mantissa := SignText(n.sign) + n.whole + (if n.point then "." else "") + n.fraction;
    assert NumeralText(n) == mantissa + ExponentText(n.exponent);
    RunAppend(Start, mantissa, ExponentText(n.exponent));
    MantissaRun(n);
    ExponentRun(Run(Start, mantissa), n.exponent);
  }

  /** The characters a numeral is spelt with; none of them is whitespace. */
  predicate NumeralChar(c: char) {
    IsDigit(c) || c in "+-.eE"
  }

  lemma NumeralCharNotSpace(c: char)
    requires NumeralChar(c)
    ensures !IsSpace(c)
  {
  }

  lemma NumeralTextChars(n: Numeral)
    requires WellFormedNumeral(n)
    ensures NumeralText(n) != []
    ensures forall i :: 0 <= i < |NumeralText(n)| ==> NumeralChar(NumeralText(n)[i])
  {
    var t := NumeralText(n);
    var dot := if n.point then "." else "";
    var x := ExponentText(n.exponent);
    var head := SignText(n.sign) + n.whole + dot;
    assert t == head + n.fraction + x;
    forall i | 0 <= i < |t| ensures NumeralChar(t[i]) {
      if i < |head| {
        assert t[i] == head[i];
        if i >= |SignText(n.sign)| + |n.whole| {
          assert head[i] == dot[i - |SignText(n.sign)| - |n.whole|];
        } else if i >= |SignText(n.sign)| {
          assert head[i] == n.whole[i - |SignText(n.sign)|];
        }
      } else if i < |head| + |n.fraction| {
        assert t[i] == n.fraction[i - |head|];
      } else {
        assert t[i] == x[i - |head| - |n.fraction|];
        if n.exponent.Some? {
          var ex := n.exponent.value;
          var k := i - |head| - |n.fraction|;
          if k >= 1 + |SignText(ex.sign)| {
            assert x[k] == ex.digits[k - 1 - |SignText(ex.sign)|];
          }
        }
      }
    }
  }

  /** A numeral has no whitespace at either end, so trimming leaves it alone. */
  lemma NumeralTrimmed(n: Numeral)
    requires WellFormedNumeral(n)
    ensures TrimStart(NumeralText(n)) == NumeralText(n)
    ensures TrimEnd(NumeralText(n)) == NumeralText(n)
  {
    var t := NumeralText(n);
    NumeralTextChars(n);
    NumeralCharNotSpace(t[0]);
    NumeralCharNotSpace(t[|t| - 1]);
  }

  // ---------------------------------------------------------------------------
  // The criterion and its regular expression
  // ---------------------------------------------------------------------------

  /** `(_relerr|_err)` at the start of `a`. */
  function ReadKind(a: string): (r: Option<(ErrorKind, string)>)
    ensures r.Some? ==> a == KindText(r.value.0) + r.value.1
  {
    if |a| >= 7 && a[..7] == "_relerr" then
      assert a == a[..7] + a[7..];
      Some((RelativeError, a[7..]))
    else if |a| >= 4 && a[..4] == "_err" then
      assert a == a[..4] + a[4..];
      Some((AbsoluteError, a[4..]))
    else None
  }

  /** `(<|==)` at the start of `a`. */
  function ReadComparison(a: string): (r: Option<(Comparison, string)>)
    ensures r.Some? ==> a == OpText(r.value.0) + r.value.1
  {
    if |a| >= 1 && a[0] == '<' then
      assert a == a[..1] + a[1..];
      Some((Below, a[1..]))
    else if |a| >= 2 && a[..2] == "==" then
      assert a == a[..2] + a[2..];
      Some((Equal, a[2..]))
    else None
  }

  /**
   * `re.exec(value)` for the criterion expression (editing.js:49): None when
   * the whole text does not match, otherwise captures 1, 2 and 3. The match
   * is read in three stages: the error kind, the comparison, the tolerance.
   */
  function MatchCriterion(s: string): Option<Criterion> {
    match ReadKind(TrimStart(s))
    case None => None
    case Some((kind, rest)) => MatchComparison(kind, rest)
  }

  /** `\s*(<|==)` and what follows it, once the error kind has been read. */
  function MatchComparison(kind: ErrorKind, rest: string): Option<Criterion> {
    match ReadComparison(TrimStart(rest))
    case None => None
    case Some((op, rest')) => MatchTolerance(kind, op, rest')
  }

  /** `\s*(numeral)\s*$`, once the error kind and the comparison have been read. */
  function MatchTolerance(kind: ErrorKind, op: Comparison, rest: string): Option<Criterion> {
    var tolerance := Trim(rest);
    if IsNumeral(tolerance) then Some(Criterion(kind, op, tolerance)) else None
  }

  lemma ReadKindOf(k: ErrorKind, after: string)
    ensures ReadKind(KindText(k) + after) == Some((k, after))
  {
    var a := KindText(k) + after;
    assert a[..|KindText(k)|] == KindText(k);
    assert a[|KindText(k)|..] == after;
    assert a[1] == KindText(k)[1];
  }

  lemma ReadComparisonOf(o: Comparison, after: string)
    ensures ReadComparison(OpText(o) + after) == Some((o, after))
  {
    var a := OpText(o) + after;
    assert a[..|OpText(o)|] == OpText(o);
    assert a[|OpText(o)|..] == after;
    assert a[0] == OpText(o)[0];
  }

  /** Whitespace, then an error kind: the match goes on with the text after the kind. */
  lemma KindStage(w: string, k: ErrorKind, after: string)
    requires AllSpace(w)
    ensures MatchCriterion(w + KindText(k) + after) == MatchComparison(k, after)
  {
    var a := KindText(k) + after;
    AppendAssoc(w, KindText(k), after);
    TrimStartOfSpacePrefix(w, a);
    assert a[0] == '_';
    ReadKindOf(k, after);
  }

  /** Whitespace, then a comparison: the match goes on with the text after it. */
  lemma OpStage(k: ErrorKind, w: string, o: Comparison, after: string)
    requires AllSpace(w)
    ensures MatchComparison(k, w + OpText(o) + after) == MatchTolerance(k, o, after)
  {
    var a := OpText(o) + after;
    AppendAssoc(w, OpText(o), after);
    TrimStartOfSpacePrefix(w, a);
    assert a[0] == OpText(o)[0];
    ReadComparisonOf(o, after);
  }

  /** A numeral between whitespace is the tolerance, without the whitespace. */
  lemma ToleranceStage(k: ErrorKind, o: Comparison, w: string, n: Numeral, w': string)
    requires AllSpace(w) && AllSpace(w') && WellFormedNumeral(n)
    ensures MatchTolerance(k, o, w + NumeralText(n) + w') == Some(Criterion(k, o, NumeralText(n)))
  {
    var nt := NumeralText(n);
    AppendAssoc(w, nt, w');
    TrimStartOfSpacePrefix(w, nt + w');
    NumeralTextChars(n);
    NumeralCharNotSpace(nt[0]);
    assert (nt + w')[0] == nt[0];
    TrimEndOfSpaceSuffix(nt, w');
    NumeralTrimmed(n);
    NumeralComplete(n);
  }

  /**
   * A text of the grammar, piece by piece: whitespace, kind, whitespace,
   * comparison, whitespace, numeral, whitespace.
   */
  datatype Spelling = Spelling(lead: string, kind: ErrorKind, gap1: string, op: Comparison,
                               gap2: string, tolerance: Numeral, trail: string)

  predicate InGrammar(c: Spelling) {
    && AllSpace(c.lead) && AllSpace(c.gap1) && AllSpace(c.gap2) && AllSpace(c.trail)
    && WellFormedNumeral(c.tolerance)
  }

  function SpellingText(c: Spelling): string {
    c.lead + KindText(c.kind) + c.gap1 + OpText(c.op) + c.gap2 + NumeralText(c.tolerance) + c.trail
  }

  function Captures(c: Spelling): Criterion {
    Criterion(c.kind, c.op, NumeralText(c.tolerance))
  }

  /** Every text of the grammar matches, with the components it was spelt with. */
  lemma MatchComplete(c: Spelling)
    requires InGrammar(c)
    ensures MatchCriterion(SpellingText(c)) == Some(Captures(c))
  {
    var tail := c.gap2 + NumeralText(c.tolerance) + c.trail;
    var afterKind := c.gap1 + OpText(c.op) + tail;
    assert SpellingText(c) == c.lead + KindText(c.kind) + afterKind;
    KindStage(c.lead, c.kind, afterKind);
    OpStage(c.kind, c.gap1, c.op, tail);
    ToleranceStage(c.kind, c.op, c.gap2, c.tolerance, c.trail);
  }

  /** The whitespace and the numeral that a successful tolerance stage consumed. */
  lemma ToleranceParts(k: ErrorKind, o: Comparison, rest: string) returns (gap: string, n: Numeral, trail: string)
    requires MatchTolerance(k, o, rest).Some?
    ensures AllSpace(gap) && AllSpace(trail) && WellFormedNumeral(n)
    ensures rest == gap + NumeralText(n) + trail
    ensures MatchTolerance(k, o, rest) == Some(Criterion(k, o, NumeralText(n)))
  {
    var d := TrimStart(rest);
    TrimStartSplit(rest);
    TrimEndSplit(d);
    gap := rest[..|rest| - |d|];
    var tol := TrimEnd(d);
    trail := d[|tol|..];
    n := NumeralSound(tol);
    assert rest == gap + d;
    assert d == tol + trail;
    AppendAssoc(gap, tol, trail);
  }

  /** The whitespace and the comparison that a successful comparison stage consumed. */
  lemma ComparisonParts(k: ErrorKind, rest: string) returns (gap: string, o: Comparison, after: string)
    requires ReadComparison(TrimStart(rest)).Some?
    ensures AllSpace(gap) && rest == gap + OpText(o) + after
    ensures MatchComparison(k, rest) == MatchTolerance(k, o, after)
  {
    var b := TrimStart(rest);
    TrimStartSplit(rest);
    gap := rest[..|rest| - |b|];
    o, after := ReadComparison(b).value.0, ReadComparison(b).value.1;
    assert rest == gap + b;
  }

  /** The whitespace and the error kind that a successful match starts with. */
  lemma KindParts(s: string) returns (lead: string, k: ErrorKind, after: string)
    requires ReadKind(TrimStart(s)).Some?
    ensures AllSpace(lead) && s == lead + KindText(k) + after
    ensures MatchCriterion(s) == MatchComparison(k, after)
  {
    var a := TrimStart(s);
    TrimStartSplit(s);
    lead := s[..|s| - |a|];
    k, after := ReadKind(a).value.0, ReadKind(a).value.1;
    assert s == lead + a;
  }

  /** Every text that matches is a text of the grammar, and the captures are its components. */
  lemma MatchSound(s: string)
    requires MatchCriterion(s).Some?
    ensures exists c :: InGrammar(c) && SpellingText(c) == s && Captures(c) == MatchCriterion(s).value
  {
    var lead, k, rest := KindParts(s);
    var gap1, o, rest' := ComparisonParts(k, rest);
    var gap2, n, trail := ToleranceParts(k, o, rest');
    var c := Spelling(lead, k, gap1, o, gap2, n, trail);
    SpellingTextOf(c, rest, rest');
    assert MatchCriterion(s) == Some(Captures(c));
    assert InGrammar(c);
  }

  /** The spelling, regrouped as the three stages of the match read it. */
  lemma SpellingTextOf(c: Spelling, afterKind: string, afterOp: string)
    requires afterOp == c.gap2 + NumeralText(c.tolerance) + c.trail
    requires afterKind == c.gap1 + OpText(c.op) + afterOp
    ensures SpellingText(c) == c.lead + KindText(c.kind) + afterKind
  {
  }

  // ---------------------------------------------------------------------------
  // formMerge and the round trip
  // ---------------------------------------------------------------------------

  /** `formMerge` (editing.js:147-154): the three control values joined by single spaces. */
  function FormMerge(errorType: string, errorOp: string, errorVal: string): string {
    errorType + " " + errorOp + " " + errorVal
  }

  /**
   * Merging the selected kind and comparison with whatever is typed in the
   * tolerance field gives a text that matches exactly when the trimmed field is
   * a numeral, and then the captures are the selections and the trimmed field.
   */
  lemma MergeThenMatch(k: ErrorKind, o: Comparison, v: string)
    ensures MatchCriterion(FormMerge(KindText(k), OpText(o), v))
         == if IsNumeral(Trim(v)) then Some(Criterion(k, o, Trim(v))) else None
  {
    var kt, ot := KindText(k), OpText(o);
    var afterKind := " " + ot + " " + v;
    AppendAssoc(kt, " " + ot + " ", v);
    AppendAssoc(kt, " " + ot, " ");
    AppendAssoc(kt, " ", ot);
    assert "" + kt == kt;
    KindStage("", k, afterKind);
    AppendAssoc(" " + ot, " ", v);
    OpStage(k, " ", o, " " + v);
    TrimStartOfSpacePrefix(" ", v);
  }

  /** Round trip: re-serialising the captures of a matching text reproduces the same captures. */
  lemma MatchThenMerge(s: string)
    requires MatchCriterion(s).Some?
    ensures var c := MatchCriterion(s).value;
            MatchCriterion(FormMerge(KindText(c.kind), OpText(c.op), c.tolerance)) == Some(c)
  {
    var c := MatchCriterion(s).value;
    var n := NumeralSound(c.tolerance);
    NumeralTrimmed(n);
    MergeThenMatch(c.kind, c.op, c.tolerance);
  }

  // ---------------------------------------------------------------------------
  // formulasFormCorrectness: which controls are shown, and the default
  // ---------------------------------------------------------------------------

  datatype Mode = RawInput | Structured(criterion: Criterion)

  /** The text in the `correctness[i]` field and the controls shown for it. */
  datatype Widget = Widget(field: string, mode: Mode)

  const DefaultField: string := "_relerr < 0.01"
  const DefaultCriterion: Criterion := Criterion(RelativeError, Below, "0.01")

  /** The default text is itself in the grammar, with the default components. */
  lemma DefaultMatches()
    ensures MatchCriterion(DefaultField) == Some(DefaultCriterion)
  {
    var n := Numeral(NoSign, "0", true, "01", None);
    assert NumeralText(n) == "0.01";
    var c := Spelling("", RelativeError, " ", Below, " ", n, "");
    assert SpellingText(c) == DefaultField;
    assert InGrammar(c);
    MatchComplete(c);
  }

  /**
   * `formulasFormCorrectness(id, checked)` (editing.js:47-57, 106-107): in expert
   * mode (`checked`) the raw field is shown unchanged; otherwise a matching text
   * seeds the structured controls, a blank text is replaced by the default, and
   * any other text falls back to the raw field, kept as it is.
   */
  function ShowCorrectness(value: string, checked: bool): (w: Widget)
    ensures w.mode.Structured? ==> MatchCriterion(w.field) == Some(w.mode.criterion)
    ensures w.field == value || (!checked && AllSpace(value) && w.field == DefaultField)
    ensures w.mode.RawInput? <==> checked || (MatchCriterion(value).None? && !AllSpace(value))
    ensures !checked && AllSpace(value) ==> w == Widget(DefaultField, Structured(DefaultCriterion))
  {
    TrimEmptyIffAllSpace(value);
    DefaultMatches();
    assert AllSpace(value) ==> MatchCriterion(value).None? by {
      if AllSpace(value) {
        BlankDoesNotMatch(value);
      }
    }
    if checked then Widget(value, RawInput)
    else match MatchCriterion(value)
      case Some(c) => Widget(value, Structured(c))
      case None =>
        if Trim(value) == [] then Widget(DefaultField, Structured(DefaultCriterion))
        else Widget(value, RawInput)
  }

  /** A blank text never matches the grammar itself: it always takes the default branch. */
  lemma BlankDoesNotMatch(value: string)
    requires AllSpace(value)
    ensures MatchCriterion(value).None?
  {
    TrimStartSplit(value);
  }
}
