/**
 Concrete query strings and what each version of `parseQueryString` stores
 for them, including the cases where the behaviour departs from what the
 doc-comments suggest. Strings are written as code units; each lemma's
 comment gives the text.
 */
module QueryExamples {
  import opened JsText
  import opened LegacyEscape
  import opened QueryString

  const QUESTION: CodeUnit := 0x3F // '?'
  const NUMBER_SIGN: CodeUnit := 0x23 // '#'
  const A: CodeUnit := 0x61
  const B: CodeUnit := 0x62
  const C: CodeUnit := 0x63
  const X: CodeUnit := 0x78
  const Y: CodeUnit := 0x79
  const ONE: CodeUnit := 0x31
  const TWO: CodeUnit := 0x32
  const SPACE: CodeUnit := 0x20

  /** `?a=b=c` stores `b` under `a`: the text after the second '=' is lost. */
  lemma SecondEqualsDropsTail(f: Flavour)
    ensures ParseQueryString(f, [QUESTION, A, EQUALS, B, EQUALS, C]) == map[[A] := [B]]
  {
    var segment := [A] + [EQUALS] + [B] + [EQUALS] + [C];
    assert ParseQueryString(f, [QUESTION, A, EQUALS, B, EQUALS, C]) == map[KeyOf(segment) := ValueOf(f, segment)] by {
      assert [QUESTION, A, EQUALS, B, EQUALS, C] == [QUESTION] + segment;
      SingleSegment(f, QUESTION, segment);
    }
    assert KeyOf(segment) == [A] && ValueOf(f, segment) == [B] by {
      SegmentWithSecondEquals(f, [A], [B], [C]);
      UnescapeWithoutPercent([A]);
      UnescapeWithoutPercent([B]);
    }
  }

  /** `?a=` stores the empty string under `a`, not a flag value. */
  lemma EmptyValue(f: Flavour)
    ensures ParseQueryString(f, [QUESTION, A, EQUALS]) == map[[A] := []]
  {
    var segment := [A] + [EQUALS] + [];
    assert ParseQueryString(f, [QUESTION, A, EQUALS]) == map[KeyOf(segment) := ValueOf(f, segment)] by {
      assert [QUESTION, A, EQUALS] == [QUESTION] + segment;
      SingleSegment(f, QUESTION, segment);
    }
    assert KeyOf(segment) == [A] && ValueOf(f, segment) == [] by {
      SegmentWithValue(f, [A], []);
      UnescapeWithoutPercent([A]);
    }
  }

  /** `?a` stores the string "true" in the JZ version, not a boolean. */
  lemma FlagKeyJz()
    ensures ParseQueryString(Jz, [QUESTION, A]) == map[[A] := TRUE_TEXT]
  {
    assert ParseQueryString(Jz, [QUESTION, A]) == map[KeyOf([A]) := ValueOf(Jz, [A])] by {
      assert [QUESTION, A] == [QUESTION] + [A];
      SingleSegment(Jz, QUESTION, [A]);
    }
    assert KeyOf([A]) == [A] && ValueOf(Jz, [A]) == TRUE_TEXT by {
      SegmentWithoutValue([A]);
      UnescapeWithoutPercent([A]);
    }
  }

  /** `?a` stores the string "undefined" in the jQuery version. */
  lemma FlagKeyJQuery()
    ensures ParseQueryString(JQuery, [QUESTION, A]) == map[[A] := UNDEFINED_TEXT]
  {
    assert ParseQueryString(JQuery, [QUESTION, A]) == map[KeyOf([A]) := ValueOf(JQuery, [A])] by {
      assert [QUESTION, A] == [QUESTION] + [A];
      SingleSegment(JQuery, QUESTION, [A]);
    }
    assert KeyOf([A]) == [A] && ValueOf(JQuery, [A]) == UNDEFINED_TEXT by {
      SegmentWithoutValue([A]);
      UnescapeWithoutPercent([A]);
    }
  }

  /** `?` alone is not empty: its one empty segment stores the flag value
      under the empty key, "true" in the JZ version and "undefined" in the
      jQuery version. */
  lemma QuestionMarkAlone()
    ensures ParseQueryString(Jz, [QUESTION]) == map[[] := TRUE_TEXT]
    ensures ParseQueryString(JQuery, [QUESTION]) == map[[] := UNDEFINED_TEXT]
  {
    assert [QUESTION] == [QUESTION] + [];
    assert ParseQueryString(Jz, [QUESTION]) == map[KeyOf([]) := ValueOf(Jz, [])] by {
      SingleSegment(Jz, QUESTION, []);
    }
    assert ParseQueryString(JQuery, [QUESTION]) == map[KeyOf([]) := ValueOf(JQuery, [])] by {
      SingleSegment(JQuery, QUESTION, []);
    }
    assert KeyOf([]) == [] && ValueOf(Jz, []) == TRUE_TEXT && ValueOf(JQuery, []) == UNDEFINED_TEXT by {
      SegmentWithoutValue([]);
    }
  }

  /** `#x=1`: the first unit is dropped even when it is not '?'. */
  lemma FirstUnitNotChecked(f: Flavour)
    ensures ParseQueryString(f, [NUMBER_SIGN, X, EQUALS, ONE]) == map[[X] := [ONE]]
  {
    var segment := [X] + [EQUALS] + [ONE];
    assert ParseQueryString(f, [NUMBER_SIGN, X, EQUALS, ONE]) == map[KeyOf(segment) := ValueOf(f, segment)] by {
      assert [NUMBER_SIGN, X, EQUALS, ONE] == [NUMBER_SIGN] + segment;
      SingleSegment(f, NUMBER_SIGN, segment);
    }
    assert KeyOf(segment) == [X] && ValueOf(f, segment) == [ONE] by {
      SegmentWithValue(f, [X], [ONE]);
      UnescapeWithoutPercent([X]);
      UnescapeWithoutPercent([ONE]);
    }
  }

  /** `?a=1&a=2` keeps only the later value. */
  lemma RepeatedKey(f: Flavour)
    ensures ParseQueryString(f, [QUESTION, A, EQUALS, ONE, AMPERSAND, A, EQUALS, TWO]) == map[[A] := [TWO]]
  {
    var first := [A] + [EQUALS] + [ONE];
    var second := [A] + [EQUALS] + [TWO];
    assert KeyOf(first) == [A] && KeyOf(second) == [A] && ValueOf(f, second) == [TWO] by {
      SegmentWithValue(f, [A], [ONE]);
      SegmentWithValue(f, [A], [TWO]);
      UnescapeWithoutPercent([A]);
      UnescapeWithoutPercent([TWO]);
    }
    assert ParseQueryString(f, [QUESTION, A, EQUALS, ONE, AMPERSAND, A, EQUALS, TWO]) == map[KeyOf(second) := ValueOf(f, second)] by {
      assert [QUESTION, A, EQUALS, ONE, AMPERSAND, A, EQUALS, TWO] == [QUESTION] + first + [AMPERSAND] + second;
      DuplicateKeyLastWins(f, QUESTION, first, second);
    }
  }

  /** `%20y` decodes to " y". */
  lemma PercentTwoZero()
    ensures Unescape([PERCENT, TWO, 0x30, Y]) == [SPACE, Y]
  {
    var v: JsString := [PERCENT, TWO, 0x30, Y];
    assert v[1..3] == [TWO, 0x30];
    assert HexValue([TWO, 0x30]) == SPACE;
    assert DecodeHead(v) == (SPACE, 2);
    assert v[3..] == [Y];
    UnescapeWithoutPercent([Y]);
  }

  /** `?x=%20y` stores " y" under `x`: values are percent-decoded. */
  lemma PercentDecodedValue(f: Flavour)
    ensures ParseQueryString(f, [QUESTION, X, EQUALS, PERCENT, TWO, 0x30, Y]) == map[[X] := [SPACE, Y]]
  {
    var v: JsString := [PERCENT, TWO, 0x30, Y];
    var segment := [X] + [EQUALS] + v;
    assert ParseQueryString(f, [QUESTION, X, EQUALS, PERCENT, TWO, 0x30, Y]) == map[KeyOf(segment) := ValueOf(f, segment)] by {
      assert [QUESTION, X, EQUALS, PERCENT, TWO, 0x30, Y] == [QUESTION] + segment;
      SingleSegment(f, QUESTION, segment);
    }
    assert KeyOf(segment) == [X] && ValueOf(f, segment) == [SPACE, Y] by {
      SegmentWithValue(f, [X], v);
      UnescapeWithoutPercent([X]);
      PercentTwoZero();
    }
  }
}
