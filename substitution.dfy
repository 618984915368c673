/**
 * Placeholder substitution in the question preview: every `{name}` or
 * `{name[index]}` of the text is looked up in the variable mapping and, when
 * it resolves, the first occurrence of its spelling is replaced by the
 * value's text. Also the rule that puts each part's text into the preview.
 */
module Substitution {
  import opened JsStrings
  import opened JsValues

  // ---------------------------------------------------------------------------
  // The placeholder pattern \{([A-Za-z][A-Za-z0-9_]*)(\[([0-9]+)\])?\}
  // ---------------------------------------------------------------------------

  predicate IsLetter(c: char) {
    ('A' <= c <= 'Z') || ('a' <= c <= 'z')
  }

  predicate IsIdentChar(c: char) {
    IsLetter(c) || IsDigit(c) || c == '_'
  }

  /** A placeholder: the variable name and, when present, the digits of the index. */
  datatype Placeholder = Placeholder(name: string, index: Option<string>)

  predicate ValidPlaceholder(ph: Placeholder) {
    && |ph.name| >= 1 && IsLetter(ph.name[0])
    && (forall k :: 1 <= k < |ph.name| ==> IsIdentChar(ph.name[k]))
    && (ph.index.Some? ==> ph.index.value != [] && AllDigits(ph.index.value))
  }

  /** The text a placeholder is written as. */
  function Spell(ph: Placeholder): string {
    "{" + ph.name + (if ph.index.Some? then "[" + ph.index.value + "]" else "") + "}"
  }

  /** The end of the run of identifier characters starting at `i`. */
  function IdentEnd(s: string, i: nat): (e: nat)
    requires i <= |s|
    decreases |s| - i
    ensures i <= e <= |s| && (e == |s| || !IsIdentChar(s[e]))
    ensures forall k :: i <= k < e ==> IsIdentChar(s[k])
  {
    if i < |s| && IsIdentChar(s[i]) then IdentEnd(s, i + 1) else i
  }

  /** The end of the run of decimal digits starting at `i`. */
  function DigitsEnd(s: string, i: nat): (e: nat)
    requires i <= |s|
    decreases |s| - i
    ensures i <= e <= |s| && (e == |s| || !IsDigit(s[e]))
    ensures forall k :: i <= k < e ==> IsDigit(s[k])
  {
    if i < |s| && IsDigit(s[i]) then DigitsEnd(s, i + 1) else i
  }

  /**
   * The placeholder the pattern matches at the very start of `s`, if any. The
   * pattern has no choice points: the identifier and the digits are maximal
   * runs, and a `[` that does not open a complete index makes the match fail.
   */
  function ReadPlaceholder(s: string): Option<Placeholder> {
    if |s| < 2 || s[0] != '{' || !IsLetter(s[1]) then None
    else
      var e := IdentEnd(s, 2);
      if e < |s| && s[e] == '}' then Some(Placeholder(s[1..e], None))
      else if e < |s| && s[e] == '[' then
        var d := DigitsEnd(s, e + 1);
        if d > e + 1 && d + 1 < |s| && s[d] == ']' && s[d + 1] == '}' then Some(Placeholder(s[1..e], Some(s[e + 1..d])))
        else None
      else None
  }

  /** What is read is a well-formed placeholder, spelled out at the start of the text. */
  lemma ReadSound(s: string)
    requires ReadPlaceholder(s).Some?
    ensures var ph := ReadPlaceholder(s).value;
            ValidPlaceholder(ph) && |Spell(ph)| <= |s| && s[..|Spell(ph)|] == Spell(ph)
  {
    var ph := ReadPlaceholder(s).value;
    var e := IdentEnd(s, 2);
    assert ph.name == s[1..e];
    if ph.index.None? {
      assert s[..|Spell(ph)|] == "{" + s[1..e] + "}";
    } else {
      var d := DigitsEnd(s, e + 1);
      assert ph.index.value == s[e + 1..d];
      assert s[..e] == "{" + s[1..e];
      assert s[e..d + 2] == "[" + s[e + 1..d] + "]" + "}";
      assert s[..d + 2] == s[..e] + s[e..d + 2];
    }
  }

  lemma {:induction false} IdentEndAt(s: string, i: nat, e: nat)
    requires i <= e < |s| && !IsIdentChar(s[e])
    requires forall k :: i <= k < e ==> IsIdentChar(s[k])
    ensures IdentEnd(s, i) == e
    decreases e - i
  {
    if i < e {
      IdentEndAt(s, i + 1, e);
    }
  }

  lemma {:induction false} DigitsEndAt(s: string, i: nat, e: nat)
    requires i <= e < |s| && !IsDigit(s[e])
    requires forall k :: i <= k < e ==> IsDigit(s[k])
    ensures DigitsEnd(s, i) == e
    decreases e - i
  {
    if i < e {
      DigitsEndAt(s, i + 1, e);
    }
  }

  /** The spelling of a well-formed placeholder opens with `{`, then exactly its name as the identifier run. */
  lemma NamePrefix(ph: Placeholder, rest: string)
    requires ValidPlaceholder(ph)
    ensures var s := Spell(ph) + rest; var e := 1 + |ph.name|;
            e < |s| && s[0] == '{' && IsLetter(s[1]) && s[1..e] == ph.name && IdentEnd(s, 2) == e
            && s[e..] == (if ph.index.Some? then "[" + ph.index.value + "]" else "") + "}" + rest
  {
    var tail := (if ph.index.Some? then "[" + ph.index.value + "]" else "") + "}" + rest;
    var s := Spell(ph) + rest;
    assert s == "{" + ph.name + tail;
    var e := 1 + |ph.name|;
    assert s[1..e] == ph.name;
    assert s[e..] == tail;
    assert s[e] == tail[0];
    forall k | 2 <= k < e ensures IsIdentChar(s[k]) {
      assert s[k] == ph.name[k - 1];
    }
    IdentEndAt(s, 2, e);
  }

  /** A well-formed placeholder is read back from its spelling, whatever follows it. */
  lemma ReadSpell(ph: Placeholder, rest: string)
    requires ValidPlaceholder(ph)
    ensures ReadPlaceholder(Spell(ph) + rest) == Some(ph)
  {
    var s := Spell(ph) + rest;
    var e := 1 + |ph.name|;
    NamePrefix(ph, rest);
    var tail := s[e..];
    if ph.index.Some? {
      var ix := ph.index.value;
      var d := e + 1 + |ix|;
      assert tail == "[" + ix + "]" + "}" + rest;
      assert s[e] == tail[0] == '[';
      assert s[d] == tail[1 + |ix|] == ']';
      assert s[d + 1] == tail[2 + |ix|] == '}';
      assert s[e + 1..d] == tail[1..1 + |ix|] == ix;
      forall k | e + 1 <= k < d ensures IsDigit(s[k]) {
        assert s[k] == ix[k - e - 1];
      }
      DigitsEndAt(s, e + 1, d);
      assert ReadPlaceholder(s) == Some(Placeholder(s[1..e], Some(s[e + 1..d])));
    } else {
      assert s[e] == tail[0] == '}';
      assert ReadPlaceholder(s) == Some(Placeholder(s[1..e], None));
    }
  }

  // ---------------------------------------------------------------------------
  // text.match(/…/g): all matches, left to right, without overlap
  // ---------------------------------------------------------------------------

  /** The matched texts from position `p` on. */
  function MatchesFrom(text: string, p: nat): seq<string>
    requires p <= |text|
    decreases |text| - p
  {
    if p == |text| then []
    else match ReadPlaceholder(text[p..])
      case Some(ph) =>
        ReadSound(text[p..]);
        [Spell(ph)] + MatchesFrom(text, p + |Spell(ph)|)
      case None => MatchesFrom(text, p + 1)
  }

  /** `text.match(/\{([A-Za-z][A-Za-z0-9_]*)(\[([0-9]+)\])?\}/g)`, with no match as the empty list. */
  function Matches(text: string): seq<string> {
    MatchesFrom(text, 0)
  }

  /** Every match is the spelling of a well-formed placeholder, so re-reading it with `exec` never fails. */
  lemma {:induction false} MatchesAreSpellings(text: string, p: nat)
    requires p <= |text|
    decreases |text| - p
    ensures forall m :: m in MatchesFrom(text, p) ==>
              ReadPlaceholder(m).Some? && ValidPlaceholder(ReadPlaceholder(m).value) && Spell(ReadPlaceholder(m).value) == m
  {
    if p < |text| {
      match ReadPlaceholder(text[p..])
      case Some(ph) =>
        ReadSound(text[p..]);
        ReadAlone(ph);
        var rest := MatchesFrom(text, p + |Spell(ph)|);
        MatchesAreSpellings(text, p + |Spell(ph)|);
        assert MatchesFrom(text, p) == [Spell(ph)] + rest;
        forall m | m in MatchesFrom(text, p)
          ensures ReadPlaceholder(m).Some? && ValidPlaceholder(ReadPlaceholder(m).value) && Spell(ReadPlaceholder(m).value) == m
        {
          if m != Spell(ph) {
            assert m in rest;
          }
        }
      case None =>
        MatchesAreSpellings(text, p + 1);
    }
  }

  /** A text without `{` has no placeholder. */
  lemma {:induction false} NoBraceNoMatches(text: string, p: nat)
    requires p <= |text| && '{' !in text
    decreases |text| - p
    ensures MatchesFrom(text, p) == []
  {
    if p < |text| {
      assert text[p..][0] == text[p];
      NoBraceNoMatches(text, p + 1);
    }
  }

  /** A lone placeholder is one match. */
  lemma LoneMatch(ph: Placeholder)
    requires ValidPlaceholder(ph)
    ensures Matches(Spell(ph)) == [Spell(ph)]
  {
    var s := Spell(ph);
    ReadSpell(ph, []);
    assert s + [] == s;
    assert s[0..] == s;
    assert MatchesFrom(s, |s|) == [];
    assert MatchesFrom(s, 0) == [s] + MatchesFrom(s, |s|);
  }

  // ---------------------------------------------------------------------------
  // substituteVariablesInText
  // ---------------------------------------------------------------------------

  /** The object-to-value mapping built by getVariablesMapping. */
  type Mapping = map<string, Value>

  /**
   * The text a placeholder is replaced by, or None when it is skipped: a null
   * value is skipped; an array without an index gives `value[NaN]`, that is
   * `undefined`; an index past the end is skipped; any other value is used
   * as it is, and an index on a non-array is ignored.
   */
  function Resolve(check: NullCheck, fmt: NumberFormat, mapping: Mapping, ph: Placeholder): Option<string>
    requires ValidPlaceholder(ph)
  {
    var value := Lookup(mapping, ph.name);
    if ValueIsNull(check, value) then None
    else if value.Arr? then
      if ph.index.None? then Some(ValueText(Undefined, fmt))
      else
        var idx := DigitsValue(ph.index.value);
        if idx >= |value.items| then None else Some(ValueText(value.items[idx], fmt))
    else Some(ValueText(value, fmt))
  }

  /** One iteration of the loop over the matches. */
  function SubstituteOne(check: NullCheck, fmt: NumberFormat, mapping: Mapping, text: string, m: string): string {
    match ReadPlaceholder(m)
    case None => text
    case Some(ph) =>
      ReadSound(m);
      match Resolve(check, fmt, mapping, ph)
      case None => text
      case Some(rep) => Replace(text, m, rep)
  }

  /** The text after the loop has handled the given matches in order. */
  function SubstituteAll(check: NullCheck, fmt: NumberFormat, mapping: Mapping, text: string, ms: seq<string>): string {
    if ms == [] then text
    else SubstituteOne(check, fmt, mapping, SubstituteAll(check, fmt, mapping, text, ms[..|ms| - 1]), ms[|ms| - 1])
  }

  /** What `substituteVariablesInText(text, mapping)` returns. */
  function SubstituteOf(check: NullCheck, fmt: NumberFormat, mapping: Mapping, text: string): string {
    SubstituteAll(check, fmt, mapping, text, Matches(text))
  }

  /** A spelled placeholder, alone, is read back. */
  lemma ReadAlone(ph: Placeholder)
    requires ValidPlaceholder(ph)
    ensures ReadPlaceholder(Spell(ph)) == Some(ph)
  {
    ReadSpell(ph, []);
    assert Spell(ph) + [] == Spell(ph);
  }

  /** The loop's step on the spelling of a placeholder depends only on how the placeholder resolves. */
  lemma SubstituteSpelled(check: NullCheck, fmt: NumberFormat, mapping: Mapping, text: string, ph: Placeholder)
    requires ValidPlaceholder(ph)
    ensures SubstituteOne(check, fmt, mapping, text, Spell(ph))
         == match Resolve(check, fmt, mapping, ph) case None => text case Some(rep) => Replace(text, Spell(ph), rep)
  {
    ReadAlone(ph);
  }

  lemma SubstituteAllStep(check: NullCheck, fmt: NumberFormat, mapping: Mapping, text: string, ms: seq<string>, i: nat)
    requires i < |ms|
    ensures SubstituteAll(check, fmt, mapping, text, ms[..i + 1])
         == SubstituteOne(check, fmt, mapping, SubstituteAll(check, fmt, mapping, text, ms[..i]), ms[i])
  {
    assert ms[..i + 1][..i] == ms[..i];
  }

  /** `substituteVariablesInText(text, mapping)` (editing.js:603-627). */
  method SubstituteVariables(check: NullCheck, fmt: NumberFormat, text: string, mapping: Mapping) returns (r: string)
    ensures r == SubstituteOf(check, fmt, mapping, text)
  {
    var matches := Matches(text);
    if |matches| == 0 {
      return text;
    }
    r := text;
    for i := 0 to |matches|
      invariant r == SubstituteAll(check, fmt, mapping, text, matches[..i])
    {
      SubstituteAllStep(check, fmt, mapping, text, matches, i);
      var d := ReadPlaceholder(matches[i]);
      if d.None? {
        continue;
      }
      ReadSound(matches[i]);
      ghost var resolved := Resolve(check, fmt, mapping, d.value);
      var value := Lookup(mapping, d.value.name);
      if ValueIsNull(check, value) {
        assert resolved.None?;
        continue;
      }
      if value.Arr? {
        if d.value.index.None? {
          value := Undefined;
        } else {
          var idx := DigitsValue(d.value.index.value);
          if idx >= |value.items| {
            assert resolved.None?;
            continue;
          }
          value := value.items[idx];
        }
      }
      assert resolved == Some(ValueText(value, fmt));
      r := Replace(r, matches[i], ValueText(value, fmt));
    }
    assert matches[..|matches|] == matches;
  }

  /** Without a placeholder the text comes back as it is; in particular without a `{`. */
  lemma NoPlaceholderUnchanged(check: NullCheck, fmt: NumberFormat, mapping: Mapping, text: string)
    requires Matches(text) == [] || '{' !in text
    ensures SubstituteOf(check, fmt, mapping, text) == text
  {
    if '{' !in text {
      NoBraceNoMatches(text, 0);
    }
  }

  /** `text` with the placeholder `ph` first occurring after `pre`. */
  predicate FirstAfter(pre: string, ph: Placeholder, post: string) {
    forall j :: 0 <= j < |pre| ==> !OccursAt(pre + Spell(ph) + post, Spell(ph), j)
  }

  /** `{name}` with a non-null, non-array value is replaced by that value's text. */
  lemma ScalarReplaced(check: NullCheck, fmt: NumberFormat, mapping: Mapping, pre: string, ph: Placeholder, post: string)
    requires ValidPlaceholder(ph) && FirstAfter(pre, ph, post)
    requires ph.name in mapping && !ValueIsNull(check, mapping[ph.name]) && !mapping[ph.name].Arr?
    requires '$' !in ValueText(mapping[ph.name], fmt)
    ensures SubstituteOne(check, fmt, mapping, pre + Spell(ph) + post, Spell(ph)) == pre + ValueText(mapping[ph.name], fmt) + post
  {
    SubstituteSpelled(check, fmt, mapping, pre + Spell(ph) + post, ph);
    assert Resolve(check, fmt, mapping, ph) == Some(ValueText(mapping[ph.name], fmt));
    ReplaceAtFirst(pre, Spell(ph), post, ValueText(mapping[ph.name], fmt));
  }

  /** `{name[i]}` with an array value and `i` below its length is replaced by element `i`. */
  lemma IndexedReplaced(check: NullCheck, fmt: NumberFormat, mapping: Mapping, pre: string, ph: Placeholder, post: string)
    requires ValidPlaceholder(ph) && FirstAfter(pre, ph, post) && ph.index.Some?
    requires ph.name in mapping && mapping[ph.name].Arr?
    requires DigitsValue(ph.index.value) < |mapping[ph.name].items|
    requires '$' !in ValueText(mapping[ph.name].items[DigitsValue(ph.index.value)], fmt)
    ensures SubstituteOne(check, fmt, mapping, pre + Spell(ph) + post, Spell(ph))
         == pre + ValueText(mapping[ph.name].items[DigitsValue(ph.index.value)], fmt) + post
  {
    var v := ValueText(mapping[ph.name].items[DigitsValue(ph.index.value)], fmt);
    SubstituteSpelled(check, fmt, mapping, pre + Spell(ph) + post, ph);
    assert Resolve(check, fmt, mapping, ph) == Some(v);
    ReplaceAtFirst(pre, Spell(ph), post, v);
  }

  /** `{name[i]}` with `i` at or past the end of the array, and a placeholder whose value is null, stay as they are. */
  lemma SkippedLeftVerbatim(check: NullCheck, fmt: NumberFormat, mapping: Mapping, text: string, ph: Placeholder)
    requires ValidPlaceholder(ph) && ph.name in mapping
    requires mapping[ph.name].Null?
          || (mapping[ph.name].Arr? && ph.index.Some? && DigitsValue(ph.index.value) >= |mapping[ph.name].items|)
    ensures SubstituteOne(check, fmt, mapping, text, Spell(ph)) == text
  {
    SubstituteSpelled(check, fmt, mapping, text, ph);
    assert Resolve(check, fmt, mapping, ph).None?;
  }

  /**
   * As written (`=== null`), a placeholder whose name is not in the mapping is
   * replaced by the text `undefined`.
   */
  lemma UnknownNameBecomesUndefined(fmt: NumberFormat, mapping: Mapping, pre: string, ph: Placeholder, post: string)
    requires ValidPlaceholder(ph) && FirstAfter(pre, ph, post) && ph.name !in mapping
    ensures SubstituteOne(StrictNull, fmt, mapping, pre + Spell(ph) + post, Spell(ph)) == pre + "undefined" + post
  {
    SubstituteSpelled(StrictNull, fmt, mapping, pre + Spell(ph) + post, ph);
    assert Resolve(StrictNull, fmt, mapping, ph) == Some("undefined");
    ReplaceAtFirst(pre, Spell(ph), post, "undefined");
  }

  /** With `== null`, a placeholder whose name is not in the mapping stays as it is. */
  lemma UnknownNameLeftVerbatim(fmt: NumberFormat, mapping: Mapping, text: string, ph: Placeholder)
    requires ValidPlaceholder(ph) && ph.name !in mapping
    ensures SubstituteOne(LooseNull, fmt, mapping, text, Spell(ph)) == text
  {
    SubstituteSpelled(LooseNull, fmt, mapping, text, ph);
    assert Resolve(LooseNull, fmt, mapping, ph).None?;
  }

  /** A text that is a single placeholder of a scalar variable becomes the variable's text. */
  lemma LonePlaceholderReplaced(check: NullCheck, fmt: NumberFormat, mapping: Mapping, ph: Placeholder)
    requires ValidPlaceholder(ph)
    requires ph.name in mapping && !ValueIsNull(check, mapping[ph.name]) && !mapping[ph.name].Arr?
    requires '$' !in ValueText(mapping[ph.name], fmt)
    ensures SubstituteOf(check, fmt, mapping, Spell(ph)) == ValueText(mapping[ph.name], fmt)
  {
    var m := Spell(ph);
    var v := ValueText(mapping[ph.name], fmt);
    LoneStep(check, fmt, mapping, ph);
    SubstituteSpelled(check, fmt, mapping, m, ph);
    assert Resolve(check, fmt, mapping, ph) == Some(v);
    ReplaceWhole(m, v);
  }

  /** A text that is a single placeholder goes through the loop once. */
  lemma LoneStep(check: NullCheck, fmt: NumberFormat, mapping: Mapping, ph: Placeholder)
    requires ValidPlaceholder(ph)
    ensures SubstituteOf(check, fmt, mapping, Spell(ph)) == SubstituteOne(check, fmt, mapping, Spell(ph), Spell(ph))
  {
    var m := Spell(ph);
    LoneMatch(ph);
    SubstituteAllStep(check, fmt, mapping, m, [m], 0);
    assert [m][..1] == [m] && [m][..0] == [];
  }

  /** Positions before `q` holding no `{` start no match. */
  lemma {:induction false} SkipBraceless(text: string, p: nat, q: nat)
    requires p <= q <= |text|
    requires forall k :: p <= k < q ==> text[k] != '{'
    decreases q - p
    ensures MatchesFrom(text, p) == MatchesFrom(text, q)
  {
    if p < q {
      assert text[p..][0] == text[p];
      SkipBraceless(text, p + 1, q);
    }
  }

  /** A placeholder with no other `{` before or after it is the text's only match. */
  lemma MatchesAround(pre: string, ph: Placeholder, post: string)
    requires ValidPlaceholder(ph) && '{' !in pre && '{' !in post
    ensures Matches(pre + Spell(ph) + post) == [Spell(ph)]
  {
    var text := pre + Spell(ph) + post;
    var e := |pre| + |Spell(ph)|;
    forall k | 0 <= k < |pre| ensures text[k] != '{' {
      assert text[k] == pre[k];
    }
    SkipBraceless(text, 0, |pre|);
    assert text[|pre|..] == Spell(ph) + post;
    ReadSpell(ph, post);
    assert MatchesFrom(text, |pre|) == [Spell(ph)] + MatchesFrom(text, e);
    forall k | e <= k < |text| ensures text[k] != '{' {
      assert text[k] == post[k - e];
    }
    SkipBraceless(text, e, |text|);
  }

  /** Without a `{` before it, the placeholder's first occurrence is its own. */
  lemma BracelessFirst(pre: string, ph: Placeholder, post: string)
    requires '{' !in pre
    ensures FirstAfter(pre, ph, post)
  {
    var text := pre + Spell(ph) + post;
    forall j | 0 <= j < |pre| ensures !OccursAt(text, Spell(ph), j) {
      assert text[j] == pre[j] != '{' == Spell(ph)[0];
      assert text[j..j + |Spell(ph)|][0] == text[j];
    }
  }

  /**
   * A text holding one placeholder and no other `{`: the placeholder is
   * replaced by the text it resolves to, or the text stays as it is when the
   * placeholder is skipped.
   */
  lemma SubstituteInText(check: NullCheck, fmt: NumberFormat, mapping: Mapping, pre: string, ph: Placeholder, post: string)
    requires ValidPlaceholder(ph) && '{' !in pre && '{' !in post
    ensures Resolve(check, fmt, mapping, ph).None? ==> SubstituteOf(check, fmt, mapping, pre + Spell(ph) + post) == pre + Spell(ph) + post
    ensures Resolve(check, fmt, mapping, ph).Some? && '$' !in Resolve(check, fmt, mapping, ph).value ==>
              SubstituteOf(check, fmt, mapping, pre + Spell(ph) + post) == pre + Resolve(check, fmt, mapping, ph).value + post
  {
    var text := pre + Spell(ph) + post;
    MatchesAround(pre, ph, post);
    SubstituteAllStep(check, fmt, mapping, text, [Spell(ph)], 0);
    assert [Spell(ph)][..1] == [Spell(ph)] && [Spell(ph)][..0] == [];
    SubstituteSpelled(check, fmt, mapping, text, ph);
    match Resolve(check, fmt, mapping, ph)
    case None =>
    case Some(rep) =>
      if '$' !in rep {
        BracelessFirst(pre, ph, post);
        ReplaceAtFirst(pre, Spell(ph), post, rep);
      }
  }

  /**
   * The whole substitution on a text with one placeholder: a scalar is put in
   * its place, an array element in range likewise, and a null value or an
   * index past the end leaves the text as it is.
   */
  lemma PlaceholderInText(check: NullCheck, fmt: NumberFormat, mapping: Mapping, pre: string, ph: Placeholder, post: string)
    requires ValidPlaceholder(ph) && '{' !in pre && '{' !in post && ph.name in mapping
    ensures var v := mapping[ph.name];
            !ValueIsNull(check, v) && !v.Arr? && '$' !in ValueText(v, fmt) ==>
              SubstituteOf(check, fmt, mapping, pre + Spell(ph) + post) == pre + ValueText(v, fmt) + post
    ensures var v := mapping[ph.name];
            v.Arr? && ph.index.Some? && DigitsValue(ph.index.value) < |v.items|
            && '$' !in ValueText(v.items[DigitsValue(ph.index.value)], fmt) ==>
              SubstituteOf(check, fmt, mapping, pre + Spell(ph) + post)
              == pre + ValueText(v.items[DigitsValue(ph.index.value)], fmt) + post
    ensures var v := mapping[ph.name];
            v.Null? || (v.Arr? && ph.index.Some? && DigitsValue(ph.index.value) >= |v.items|) ==>
              SubstituteOf(check, fmt, mapping, pre + Spell(ph) + post) == pre + Spell(ph) + post
  {
    SubstituteInText(check, fmt, mapping, pre, ph, post);
  }

  /** `Result: {ans}` with `ans` equal to 5 reads `Result: 5`. */
  lemma ScalarExample(check: NullCheck, fmt: NumberFormat)
    requires fmt.show(5.0) == "5"
    ensures SubstituteOf(check, fmt, map["ans" := Num(5.0)], "Result: {ans}") == "Result: 5"
  {
    var ph := Placeholder("ans", None);
    assert ValidPlaceholder(ph);
    assert Resolve(check, fmt, map["ans" := Num(5.0)], ph) == Some("5");
    assert "Result: " + Spell(ph) + "" == "Result: {ans}";
    SubstituteInText(check, fmt, map["ans" := Num(5.0)], "Result: ", ph, "");
  }

  /** `{arr[2]}` with `arr` equal to `[1, 2, 3]` reads `3`. */
  lemma IndexExample(check: NullCheck, fmt: NumberFormat)
    requires fmt.show(3.0) == "3"
    ensures SubstituteOf(check, fmt, map["arr" := Arr([Num(1.0), Num(2.0), Num(3.0)])], "{arr[2]}") == "3"
  {
    var mapping := map["arr" := Arr([Num(1.0), Num(2.0), Num(3.0)])];
    var ph := Placeholder("arr", Some("2"));
    assert ValidPlaceholder(ph);
    assert DigitsValue("2") == 2 by {
      assert "2"[..0] == [];
    }
    assert Resolve(check, fmt, mapping, ph) == Some("3");
    assert "" + Spell(ph) + "" == "{arr[2]}";
    SubstituteInText(check, fmt, mapping, "", ph, "");
  }

  /** `{arr[9]}` with `arr` equal to `[1, 2, 3]` stays as it is. */
  lemma OutOfRangeExample(check: NullCheck, fmt: NumberFormat)
    ensures SubstituteOf(check, fmt, map["arr" := Arr([Num(1.0), Num(2.0), Num(3.0)])], "{arr[9]}") == "{arr[9]}"
  {
    var mapping := map["arr" := Arr([Num(1.0), Num(2.0), Num(3.0)])];
    var ph := Placeholder("arr", Some("9"));
    assert ValidPlaceholder(ph);
    assert DigitsValue("9") == 9 by {
      assert "9"[..0] == [];
    }
    assert Resolve(check, fmt, mapping, ph).None?;
    assert "" + Spell(ph) + "" == "{arr[9]}";
    SubstituteInText(check, fmt, mapping, "", ph, "");
  }

  // ---------------------------------------------------------------------------
  // Texts with several placeholders
  // ---------------------------------------------------------------------------

  /** `segs[0] + mids[0] + segs[1] + ... + mids[n - 1] + segs[n]`. */
  function Weave(segs: seq<string>, mids: seq<string>): string
    requires |segs| == |mids| + 1
    decreases |mids|
  {
    if mids == [] then segs[0] else segs[0] + mids[0] + Weave(segs[1..], mids[1..])
  }

  /** The spellings of the placeholders, in order. */
  function Spells(phs: seq<Placeholder>): (r: seq<string>)
    ensures |r| == |phs| && forall i :: 0 <= i < |phs| ==> r[i] == Spell(phs[i])
  {
    seq(|phs|, i requires 0 <= i < |phs| => Spell(phs[i]))
  }

  predicate AllValid(phs: seq<Placeholder>) {
    forall i :: 0 <= i < |phs| ==> ValidPlaceholder(phs[i])
  }

  predicate AllBraceless(segs: seq<string>) {
    forall i :: 0 <= i < |segs| ==> '{' !in segs[i]
  }

  /** What the loop leaves where a placeholder was: its value's text, or the placeholder itself when it is skipped. */
  function Outcome(check: NullCheck, fmt: NumberFormat, mapping: Mapping, ph: Placeholder): string
    requires ValidPlaceholder(ph)
  {
    match Resolve(check, fmt, mapping, ph)
    case None => Spell(ph)
    case Some(rep) => rep
  }

  function Outcomes(check: NullCheck, fmt: NumberFormat, mapping: Mapping, phs: seq<Placeholder>): (r: seq<string>)
    requires AllValid(phs)
    ensures |r| == |phs| && forall i :: 0 <= i < |phs| ==> r[i] == Outcome(check, fmt, mapping, phs[i])
  {
    seq(|phs|, i requires 0 <= i < |phs| => Outcome(check, fmt, mapping, phs[i]))
  }

  /** Spelling the placeholders from `i` on is dropping the first `i` spellings. */
  lemma SpellsDrop(phs: seq<Placeholder>, i: nat)
    requires i <= |phs|
    ensures Spells(phs)[i..] == Spells(phs[i..])
  {
    var sp := Spells(phs);
    forall k | 0 <= k < |phs| - i ensures sp[i..][k] == Spells(phs[i..])[k] {
      assert sp[i..][k] == sp[i + k];
    }
  }

  /** The outcomes of the first `i` placeholders are the first `i` outcomes. */
  lemma OutcomesTake(check: NullCheck, fmt: NumberFormat, mapping: Mapping, phs: seq<Placeholder>, i: nat)
    requires AllValid(phs) && i <= |phs|
    ensures AllValid(phs[..i])
    ensures Outcomes(check, fmt, mapping, phs)[..i] == Outcomes(check, fmt, mapping, phs[..i])
  {
    var os := Outcomes(check, fmt, mapping, phs);
    forall k | 0 <= k < i ensures os[..i][k] == Outcomes(check, fmt, mapping, phs[..i])[k] {
      assert os[..i][k] == os[k];
    }
  }

  /** A value's text that holds neither a `{` (it cannot be mistaken for a placeholder) nor a `$` (no pattern is expanded). */
  predicate PlainValue(check: NullCheck, fmt: NumberFormat, mapping: Mapping, ph: Placeholder)
    requires ValidPlaceholder(ph)
  {
    Resolve(check, fmt, mapping, ph).Some? ==>
      '{' !in Resolve(check, fmt, mapping, ph).value && '$' !in Resolve(check, fmt, mapping, ph).value
  }

  predicate AllPlain(check: NullCheck, fmt: NumberFormat, mapping: Mapping, phs: seq<Placeholder>)
    requires AllValid(phs)
  {
    forall i :: 0 <= i < |phs| ==> PlainValue(check, fmt, mapping, phs[i])
  }

  /** The `{` of a spelling is its first character only. */
  lemma SpellOneBrace(ph: Placeholder)
    requires ValidPlaceholder(ph)
    ensures Spell(ph)[0] == '{'
    ensures forall k :: 1 <= k < |Spell(ph)| ==> Spell(ph)[k] != '{'
  {
    var tail := if ph.index.Some? then "[" + ph.index.value + "]" else "";
    assert Spell(ph) == "{" + ph.name + tail + "}";
    forall k | 1 <= k < |Spell(ph)| ensures Spell(ph)[k] != '{' {
      if k <= |ph.name| {
        assert Spell(ph)[k] == ph.name[k - 1];
        assert k - 1 == 0 || IsIdentChar(ph.name[k - 1]);
      } else if k < |Spell(ph)| - 1 {
        assert Spell(ph)[k] == tail[k - 1 - |ph.name|];
        if ph.index.Some? && 0 < k - 1 - |ph.name| < |tail| - 1 {
          assert tail[k - 1 - |ph.name|] == ph.index.value[k - 2 - |ph.name|];
        }
      }
    }
  }

  /** Where a spelling occurs, the pattern reads that very placeholder. */
  lemma ReadWhereSpelled(t: string, k: nat, ph: Placeholder)
    requires ValidPlaceholder(ph) && k <= |t|
    ensures OccursAt(t, Spell(ph), k) ==> ReadPlaceholder(t[k..]) == Some(ph)
  {
    if OccursAt(t, Spell(ph), k) {
      assert t[k..] == Spell(ph) + t[k + |Spell(ph)|..];
      ReadSpell(ph, t[k + |Spell(ph)|..]);
    }
  }

  /** A spelling occurs only where there is a `{`. */
  lemma OccursAtBrace(t: string, k: nat, ph: Placeholder)
    requires ValidPlaceholder(ph)
    ensures OccursAt(t, Spell(ph), k) ==> t[k] == '{'
  {
    SpellOneBrace(ph);
    if OccursAt(t, Spell(ph), k) {
      assert t[k..k + |Spell(ph)|][0] == t[k];
    }
  }

  /** Cutting a woven text at its `i`-th middle. */
  lemma {:induction false} WeaveSplit(segs: seq<string>, mids: seq<string>, i: nat)
    requires |segs| == |mids| + 1 && i < |mids|
    decreases i
    ensures Weave(segs, mids) == Weave(segs[..i + 1], mids[..i]) + mids[i] + Weave(segs[i + 1..], mids[i + 1..])
  {
    if i == 0 {
      assert Weave(segs[..1], mids[..0]) == segs[0];
      assert segs[1..] == segs[i + 1..] && mids[1..] == mids[i + 1..];
    } else {
      var w := Weave(segs[1..], mids[1..]);
      WeaveSplit(segs[1..], mids[1..], i - 1);
      assert segs[1..][..i] == segs[..i + 1][1..] && mids[1..][..i - 1] == mids[..i][1..];
      assert segs[1..][i..] == segs[i + 1..] && mids[1..][i..] == mids[i + 1..];
      var a := Weave(segs[..i + 1][1..], mids[..i][1..]);
      var b := Weave(segs[i + 1..], mids[i + 1..]);
      assert w == a + mids[i] + b;
      assert Weave(segs[..i + 1], mids[..i]) == segs[0] + mids[0] + a;
      calc {
        Weave(segs, mids);
        segs[0] + mids[0] + (a + mids[i] + b);
        { AppendAssoc(segs[0] + mids[0], a + mids[i], b); AppendAssoc(segs[0] + mids[0], a, mids[i]); }
        segs[0] + mids[0] + a + mids[i] + b;
      }
    }
  }

  /** Spelling the placeholders between texts without `{` gives exactly those matches, in order. */
  lemma {:induction false} WovenMatches(t: string, off: nat, segs: seq<string>, phs: seq<Placeholder>)
    requires |segs| == |phs| + 1 && AllBraceless(segs) && AllValid(phs)
    requires off <= |t| && t[off..] == Weave(segs, Spells(phs))
    decreases |phs|
    ensures MatchesFrom(t, off) == Spells(phs)
  {
    if phs == [] {
      assert t[off..] == segs[0] + [];
      SkipSegment(t, off, segs[0], []);
    } else {
      var sp := Spell(phs[0]);
      var rest := Weave(segs[1..], Spells(phs[1..]));
      WeaveSpellsHead(segs, phs);
      SkipSegment(t, off, segs[0], sp + rest);
      var e := off + |segs[0]|;
      MatchSpelled(t, e, phs[0], rest);
      WovenMatches(t, e + |sp|, segs[1..], phs[1..]);
      assert MatchesFrom(t, e) == [sp] + Spells(phs[1..]);
    }
  }

  /** The woven spellings begin with the first segment and the first spelling. */
  lemma WeaveSpellsHead(segs: seq<string>, phs: seq<Placeholder>)
    requires |segs| == |phs| + 1 && AllValid(phs) && phs != []
    ensures Spells(phs) == [Spell(phs[0])] + Spells(phs[1..])
    ensures Weave(segs, Spells(phs)) == segs[0] + (Spell(phs[0]) + Weave(segs[1..], Spells(phs[1..])))
  {
    var sp := Spells(phs);
    SpellsDrop(phs, 1);
    assert sp == [sp[0]] + sp[1..];
  }

  /** Matching skips over a text without `{`. */
  lemma SkipSegment(t: string, off: nat, seg: string, rest: string)
    requires off <= |t| && t[off..] == seg + rest && '{' !in seg
    ensures off + |seg| <= |t| && t[off + |seg|..] == rest
    ensures MatchesFrom(t, off) == MatchesFrom(t, off + |seg|)
  {
    forall k | off <= k < off + |seg| ensures t[k] != '{' {
      assert t[k] == t[off..][k - off] == seg[k - off];
    }
    SkipBraceless(t, off, off + |seg|);
    assert t[off + |seg|..] == t[off..][|seg|..];
  }

  /** A placeholder's spelling is matched whole, and matching goes on after it. */
  lemma MatchSpelled(t: string, e: nat, ph: Placeholder, rest: string)
    requires ValidPlaceholder(ph) && e <= |t| && t[e..] == Spell(ph) + rest
    ensures e + |Spell(ph)| <= |t| && t[e + |Spell(ph)|..] == rest
    ensures MatchesFrom(t, e) == [Spell(ph)] + MatchesFrom(t, e + |Spell(ph)|)
  {
    ReadSpell(ph, rest);
    MatchAt(t, e, ph);
    assert t[e + |Spell(ph)|..] == t[e..][|Spell(ph)|..];
  }

  /** Where a placeholder is read, it is the next match and matching resumes after its spelling. */
  lemma MatchAt(t: string, p: nat, ph: Placeholder)
    requires p <= |t| && ReadPlaceholder(t[p..]) == Some(ph)
    ensures p + |Spell(ph)| <= |t|
    ensures MatchesFrom(t, p) == [Spell(ph)] + MatchesFrom(t, p + |Spell(ph)|)
  {
    ReadSound(t[p..]);
  }

  /** The first part of a concatenation, read back by slicing. */
  lemma HeadSlice(a: string, m: string, b: string)
    ensures (a + m + b)[0..|a|] == a
  {
    forall k | 0 <= k < |a| ensures (a + m + b)[k] == a[k] {
    }
  }

  /** A text found at `off` that is `a + b + c` holds `a`, `b` and `c` one after the other. */
  lemma PartsAt(t: string, off: nat, a: string, b: string, c: string)
    requires off + |a| + |b| + |c| <= |t| && t[off..off + |a| + |b| + |c|] == a + b + c
    ensures t[off..off + |a|] == a
    ensures t[off + |a|..off + |a| + |b|] == b
    ensures t[off + |a| + |b|..off + |a| + |b| + |c|] == c
  {
    var w := a + b + c;
    forall k | off <= k < off + |w| ensures t[k] == w[k - off] {
      assert t[k] == t[off..off + |w|][k - off];
    }
  }

  /** Where there is no `{`, no spelling occurs. */
  lemma BracelessClear(t: string, a: nat, b: nat, ph: Placeholder)
    requires ValidPlaceholder(ph) && a <= b <= |t| && '{' !in t[a..b]
    ensures forall k :: a <= k < b ==> !OccursAt(t, Spell(ph), k)
  {
    forall k | a <= k < b ensures !OccursAt(t, Spell(ph), k) {
      assert t[k] == t[a..b][k - a];
      OccursAtBrace(t, k, ph);
    }
  }

  /** Within the spelling of another placeholder, the spelling of `ph` does not occur. */
  lemma OtherSpellingClear(t: string, e: nat, q: Placeholder, ph: Placeholder)
    requires ValidPlaceholder(q) && ValidPlaceholder(ph) && q != ph
    requires e + |Spell(q)| <= |t| && t[e..e + |Spell(q)|] == Spell(q)
    ensures forall k :: e <= k < e + |Spell(q)| ==> !OccursAt(t, Spell(ph), k)
  {
    SpellOneBrace(q);
    ReadWhereSpelled(t, e, q);
    ReadWhereSpelled(t, e, ph);
    forall k | e + 1 <= k < e + |Spell(q)| ensures !OccursAt(t, Spell(ph), k) {
      assert t[k] == Spell(q)[k - e];
      OccursAtBrace(t, k, ph);
    }
  }

  /**
   * A text in which the spelling of `ph` cannot start: it holds no `{`, or it
   * is exactly the spelling of another placeholder.
   */
  predicate ClearOf(o: string, ph: Placeholder) {
    '{' !in o
    || (ReadPlaceholder(o).Some? && o == Spell(ReadPlaceholder(o).value) && ReadPlaceholder(o).value != ph)
  }

  /** Where such a text is found, the spelling of `ph` does not start inside it. */
  lemma ClearOfAt(t: string, e: nat, o: string, ph: Placeholder)
    requires ValidPlaceholder(ph) && ClearOf(o, ph)
    requires e + |o| <= |t| && t[e..e + |o|] == o
    ensures forall k :: e <= k < e + |o| ==> !OccursAt(t, Spell(ph), k)
  {
    if '{' in o {
      var q := ReadPlaceholder(o).value;
      ReadSound(o);
      OtherSpellingClear(t, e, q, ph);
    } else {
      BracelessClear(t, e, e + |o|, ph);
    }
  }

  /** In a woven text whose inserted texts are all clear of `ph`, the spelling of `ph` does not occur. */
  lemma {:induction false} NoSpellingIn(t: string, off: nat, segs: seq<string>, outs: seq<string>, ph: Placeholder)
    requires |segs| == |outs| + 1 && AllBraceless(segs) && ValidPlaceholder(ph)
    requires forall i :: 0 <= i < |outs| ==> ClearOf(outs[i], ph)
    requires off + |Weave(segs, outs)| <= |t| && t[off..off + |Weave(segs, outs)|] == Weave(segs, outs)
    decreases |outs|
    ensures forall k :: off <= k < off + |Weave(segs, outs)| ==> !OccursAt(t, Spell(ph), k)
  {
    var e := off + |segs[0]|;
    if outs == [] {
      BracelessClear(t, off, e, ph);
    } else {
      var rest := Weave(segs[1..], outs[1..]);
      PartsAt(t, off, segs[0], outs[0], rest);
      BracelessClear(t, off, e, ph);
      ClearOfAt(t, e, outs[0], ph);
      assert AllBraceless(segs[1..]) by {
        assert forall i :: 0 <= i < |segs| - 1 ==> segs[1..][i] == segs[i + 1];
      }
      assert forall i :: 0 <= i < |outs| - 1 ==> outs[1..][i] == outs[i + 1];
      NoSpellingIn(t, e + |outs[0]|, segs[1..], outs[1..], ph);
    }
  }

  /**
   * The outcomes are clear of a resolved placeholder: a resolved value's text
   * has no `{`, and a skipped placeholder, left as written, is not `ph`.
   */
  lemma OutcomesClear(check: NullCheck, fmt: NumberFormat, mapping: Mapping, phs: seq<Placeholder>, ph: Placeholder)
    requires AllValid(phs) && AllPlain(check, fmt, mapping, phs)
    requires ValidPlaceholder(ph) && Resolve(check, fmt, mapping, ph).Some?
    ensures forall i :: 0 <= i < |phs| ==> ClearOf(Outcomes(check, fmt, mapping, phs)[i], ph)
  {
    forall i | 0 <= i < |phs| ensures ClearOf(Outcomes(check, fmt, mapping, phs)[i], ph) {
      var q := phs[i];
      assert PlainValue(check, fmt, mapping, q);
      if Resolve(check, fmt, mapping, q).None? {
        ReadSpell(q, []);
        assert Spell(q) + [] == Spell(q);
        SpellOneBrace(q);
      }
    }
  }

  /** The text after the loop has handled the first `i` placeholders. */
  function Mixed(check: NullCheck, fmt: NumberFormat, mapping: Mapping, segs: seq<string>, phs: seq<Placeholder>, i: nat): string
    requires |segs| == |phs| + 1 && AllValid(phs) && i <= |phs|
  {
    Weave(segs, Outcomes(check, fmt, mapping, phs)[..i] + Spells(phs)[i..])
  }

  /** One step of the loop puts the `i`-th placeholder's outcome in its place. */
  lemma MixedStep(check: NullCheck, fmt: NumberFormat, mapping: Mapping, segs: seq<string>, phs: seq<Placeholder>, i: nat)
    requires |segs| == |phs| + 1 && AllBraceless(segs) && AllValid(phs) && AllPlain(check, fmt, mapping, phs)
    requires i < |phs|
    ensures SubstituteOne(check, fmt, mapping, Mixed(check, fmt, mapping, segs, phs, i), Spell(phs[i]))
         == Mixed(check, fmt, mapping, segs, phs, i + 1)
  {
    MixedAround(check, fmt, mapping, segs, phs, i);
    assert AllBraceless(segs[..i + 1]);
    ResolvedInPlace(check, fmt, mapping, segs[..i + 1], phs[..i], phs[i], Weave(segs[i + 1..], Spells(phs[i + 1..])));
  }

  /** Around its `i`-th placeholder, the text before and after that step differs only there. */
  lemma MixedAround(check: NullCheck, fmt: NumberFormat, mapping: Mapping, segs: seq<string>, phs: seq<Placeholder>, i: nat)
    requires |segs| == |phs| + 1 && AllValid(phs) && i < |phs|
    ensures Mixed(check, fmt, mapping, segs, phs, i)
         == Weave(segs[..i + 1], Outcomes(check, fmt, mapping, phs[..i])) + Spell(phs[i])
            + Weave(segs[i + 1..], Spells(phs[i + 1..]))
    ensures Mixed(check, fmt, mapping, segs, phs, i + 1)
         == Weave(segs[..i + 1], Outcomes(check, fmt, mapping, phs[..i])) + Outcome(check, fmt, mapping, phs[i])
            + Weave(segs[i + 1..], Spells(phs[i + 1..]))
  {
    var outs := Outcomes(check, fmt, mapping, phs);
    var mids := outs[..i] + Spells(phs)[i..];
    var mids2 := outs[..i + 1] + Spells(phs)[i + 1..];
    WeaveSplit(segs, mids, i);
    WeaveSplit(segs, mids2, i);
    SwitchedAt(outs, Spells(phs), i);
    OutcomesTake(check, fmt, mapping, phs, i);
    SpellsDrop(phs, i + 1);
  }

  /** Switching list entry `i` from one source to the other leaves the entries around it alone. */
  lemma SwitchedAt(outs: seq<string>, sps: seq<string>, i: nat)
    requires |outs| == |sps| && i < |outs|
    ensures (outs[..i] + sps[i..])[..i] == (outs[..i + 1] + sps[i + 1..])[..i] == outs[..i]
    ensures (outs[..i] + sps[i..])[i + 1..] == (outs[..i + 1] + sps[i + 1..])[i + 1..] == sps[i + 1..]
    ensures (outs[..i] + sps[i..])[i] == sps[i] && (outs[..i + 1] + sps[i + 1..])[i] == outs[i]
  {
    assert (outs[..i] + sps[i..])[..i] == outs[..i];
    assert (outs[..i + 1] + sps[i + 1..])[..i] == outs[..i];
  }

  /**
   * After the outcomes of earlier placeholders, the first spelling of a
   * placeholder is the one the loop reaches, so it is replaced there.
   */
  lemma ResolvedInPlace(check: NullCheck, fmt: NumberFormat, mapping: Mapping, segs: seq<string>, phs: seq<Placeholder>,
                        ph: Placeholder, b: string)
    requires |segs| == |phs| + 1 && AllBraceless(segs) && AllValid(phs) && AllPlain(check, fmt, mapping, phs)
    requires ValidPlaceholder(ph) && PlainValue(check, fmt, mapping, ph)
    ensures SubstituteOne(check, fmt, mapping, Weave(segs, Outcomes(check, fmt, mapping, phs)) + Spell(ph) + b, Spell(ph))
         == Weave(segs, Outcomes(check, fmt, mapping, phs)) + Outcome(check, fmt, mapping, ph) + b
  {
    var a := Weave(segs, Outcomes(check, fmt, mapping, phs));
    SubstituteSpelled(check, fmt, mapping, a + Spell(ph) + b, ph);
    match Resolve(check, fmt, mapping, ph)
    case None =>
    case Some(rep) =>
      OutcomesClear(check, fmt, mapping, phs, ph);
      FirstSpellingAfter(segs, Outcomes(check, fmt, mapping, phs), ph, b);
      ReplaceAtFirst(a, Spell(ph), b, rep);
  }

  /** Spelled after a woven text clear of it, `ph` first occurs right after that text. */
  lemma FirstSpellingAfter(segs: seq<string>, outs: seq<string>, ph: Placeholder, b: string)
    requires |segs| == |outs| + 1 && AllBraceless(segs) && ValidPlaceholder(ph)
    requires forall i :: 0 <= i < |outs| ==> ClearOf(outs[i], ph)
    ensures forall j :: 0 <= j < |Weave(segs, outs)| ==> !OccursAt(Weave(segs, outs) + Spell(ph) + b, Spell(ph), j)
  {
    var a := Weave(segs, outs);
    HeadSlice(a, Spell(ph), b);
    NoSpellingIn(a + Spell(ph) + b, 0, segs, outs, ph);
  }

  lemma {:induction false} MixedAfter(check: NullCheck, fmt: NumberFormat, mapping: Mapping, segs: seq<string>,
                                      phs: seq<Placeholder>, i: nat)
    requires |segs| == |phs| + 1 && AllBraceless(segs) && AllValid(phs) && AllPlain(check, fmt, mapping, phs)
    requires i <= |phs|
    ensures SubstituteAll(check, fmt, mapping, Weave(segs, Spells(phs)), Spells(phs)[..i])
         == Mixed(check, fmt, mapping, segs, phs, i)
  {
    if i == 0 {
      NoneSwitched(Outcomes(check, fmt, mapping, phs), Spells(phs));
    } else {
      MixedAfter(check, fmt, mapping, segs, phs, i - 1);
      SubstituteAllStep(check, fmt, mapping, Weave(segs, Spells(phs)), Spells(phs), i - 1);
      assert Spells(phs)[i - 1] == Spell(phs[i - 1]);
      MixedStep(check, fmt, mapping, segs, phs, i - 1);
    }
  }

  /** Before any entry is switched, the list is the first source throughout. */
  lemma NoneSwitched(outs: seq<string>, sps: seq<string>)
    ensures outs[..0] + sps[0..] == sps && sps[..0] == []
  {
    assert outs[..0] == [];
  }

  /**
   * A text of several placeholders between texts without `{`: each
   * placeholder is replaced by its value's text, in place, and one that is
   * skipped stays as it is written, provided no value's text holds a `{` or a
   * `$`.
   */
  lemma SubstituteWoven(check: NullCheck, fmt: NumberFormat, mapping: Mapping, segs: seq<string>, phs: seq<Placeholder>)
    requires |segs| == |phs| + 1 && AllBraceless(segs) && AllValid(phs) && AllPlain(check, fmt, mapping, phs)
    ensures Matches(Weave(segs, Spells(phs))) == Spells(phs)
    ensures SubstituteOf(check, fmt, mapping, Weave(segs, Spells(phs))) == Weave(segs, Outcomes(check, fmt, mapping, phs))
  {
    WovenMatches(Weave(segs, Spells(phs)), 0, segs, phs);
    assert Weave(segs, Spells(phs))[0..] == Weave(segs, Spells(phs));
    MixedAfter(check, fmt, mapping, segs, phs, |phs|);
    AllSwitched(Outcomes(check, fmt, mapping, phs), Spells(phs));
  }

  /** Once every entry is switched, the list is the second source throughout. */
  lemma AllSwitched(outs: seq<string>, sps: seq<string>)
    requires |outs| == |sps|
    ensures outs[..|outs|] + sps[|sps|..] == outs && sps[..|sps|] == sps
  {
    assert outs[..|outs|] == outs;
    assert sps[|sps|..] == [];
  }

  /** `{a} and {b[7]}` with `a` equal to 5 and `b` equal to `[2]` reads `5 and {b[7]}`. */
  lemma TwoPlaceholdersExample(check: NullCheck, fmt: NumberFormat)
    requires fmt.show(5.0) == "5"
    ensures SubstituteOf(check, fmt, map["a" := Num(5.0), "b" := Arr([Num(2.0)])], "{a} and {b[7]}") == "5 and {b[7]}"
  {
    var mapping := map["a" := Num(5.0), "b" := Arr([Num(2.0)])];
    var phs := [Placeholder("a", None), Placeholder("b", Some("7"))];
    var segs := ["", " and ", ""];
    ExampleOutcomes(check, fmt);
    ExampleWeaves();
    SubstituteWoven(check, fmt, mapping, segs, phs);
  }

  /** The example's texts, before and after, as segments with placeholders or values between them. */
  lemma ExampleWeaves()
    ensures Weave(["", " and ", ""], ["{a}", "{b[7]}"]) == "{a} and {b[7]}"
    ensures Weave(["", " and ", ""], ["5", "{b[7]}"]) == "5 and {b[7]}"
  {
    var segs := ["", " and ", ""];
    assert segs[1..][1..] == [""];
    assert Weave(segs, ["{a}", "{b[7]}"]) == "" + "{a}" + (" and " + "{b[7]}" + "");
    assert Weave(segs, ["5", "{b[7]}"]) == "" + "5" + (" and " + "{b[7]}" + "");
  }

  /** The placeholders of the example: `{a}` gives `5`, `{b[7]}` is out of range and stays. */
  lemma ExampleOutcomes(check: NullCheck, fmt: NumberFormat)
    requires fmt.show(5.0) == "5"
    ensures var phs := [Placeholder("a", None), Placeholder("b", Some("7"))];
            var mapping := map["a" := Num(5.0), "b" := Arr([Num(2.0)])];
            AllValid(phs) && AllPlain(check, fmt, mapping, phs)
            && Spells(phs) == ["{a}", "{b[7]}"] && Outcomes(check, fmt, mapping, phs) == ["5", "{b[7]}"]
  {
    var mapping := map["a" := Num(5.0), "b" := Arr([Num(2.0)])];
    var pa := Placeholder("a", None);
    var pb := Placeholder("b", Some("7"));
    var phs := [pa, pb];
    assert ValidPlaceholder(pa) && ValidPlaceholder(pb);
    assert DigitsValue("7") == 7 by {
      assert "7"[..0] == [];
    }
    assert Resolve(check, fmt, mapping, pa) == Some("5");
    assert Resolve(check, fmt, mapping, pb).None?;
    assert Spell(pa) == "{a}" && Spell(pb) == "{b[7]}";
    var sp := Spells(phs);
    assert |sp| == 2 && sp[0] == "{a}" && sp[1] == "{b[7]}";
    var os := Outcomes(check, fmt, mapping, phs);
    assert |os| == 2 && os[0] == "5" && os[1] == "{b[7]}";
  }

  // ---------------------------------------------------------------------------
  // Placing a part's text in the preview (editing.js:572-576)
  // ---------------------------------------------------------------------------

  /**
   * A part without a placeholder is appended; otherwise its text replaces the
   * first `{placeholder}` of the preview.
   */
  function InsertPart(preview: string, placeholder: string, part: string): string {
    if placeholder == "" then preview + part
    else Replace(preview, "{" + placeholder + "}", part)
  }

  /** The part goes where its placeholder first occurs, and nothing else changes. */
  lemma InsertAtPlaceholder(pre: string, placeholder: string, post: string, part: string)
    requires placeholder != "" && '$' !in part
    requires forall j :: 0 <= j < |pre| ==> !OccursAt(pre + ("{" + placeholder + "}") + post, "{" + placeholder + "}", j)
    ensures InsertPart(pre + ("{" + placeholder + "}") + post, placeholder, part) == pre + part + post
  {
    ReplaceAtFirst(pre, "{" + placeholder + "}", post, part);
  }

  /** A part whose placeholder does not occur in the preview is dropped. */
  lemma InsertDropsUnplaced(preview: string, placeholder: string, part: string)
    requires placeholder != "" && forall j :: !OccursAt(preview, "{" + placeholder + "}", j)
    ensures InsertPart(preview, placeholder, part) == preview
  {
    ReplaceAbsent(preview, "{" + placeholder + "}", part);
  }
}
