/**
 The slice of the JavaScript string and value model that the URL parser
 relies on: strings as sequences of UTF-16 code units, the clamping
 `String.prototype.substring`, `String.prototype.split` with a one-unit
 separator, and the `ToString` conversion of the primitive values the parser
 hands to `unescape`.
 */
module JsText {

  /** One UTF-16 code unit; a JavaScript string is any sequence of them,
      lone surrogates included. */
  newtype CodeUnit = x: int | 0 <= x < 0x1_0000

  type JsString = seq<CodeUnit>

  const PERCENT: CodeUnit := 0x25   // '%'
  const AMPERSAND: CodeUnit := 0x26 // '&'
  const SLASH: CodeUnit := 0x2F     // '/'
  const EQUALS: CodeUnit := 0x3D    // '='
  const LOWER_U: CodeUnit := 0x75   // 'u'

  /** The texts `ToString` gives for `true`, `false` and `undefined`. */
  const TRUE_TEXT: JsString := [0x74, 0x72, 0x75, 0x65]
  const FALSE_TEXT: JsString := [0x66, 0x61, 0x6C, 0x73, 0x65]
  const UNDEFINED_TEXT: JsString := [0x75, 0x6E, 0x64, 0x65, 0x66, 0x69, 0x6E, 0x65, 0x64]

  function Clamp(n: int, len: nat): (r: nat)
  {
    if n < 0 then 0 else if n > len then len else n
  }

  /** `s.substring(start, end)`: both bounds are clamped to the string and
      swapped when given in decreasing order, so it never fails. */
  function Substring(s: JsString, start: int, end: int): (r: JsString)
    ensures 0 <= start <= end <= |s| ==> r == s[start..end]
    ensures end <= start && 0 <= end && start <= |s| ==> r == s[end..start]
    ensures |r| <= |s|
  {
    var a := Clamp(start, |s|);
    var b := Clamp(end, |s|);
    if a <= b then s[a..b] else s[b..a]
  }

  /** `s.split(sep)` for a one-unit string separator: the maximal runs of
      units between separators, in order, one more than there are
      separators; the empty string splits into one empty segment. */
  function Split(s: JsString, sep: CodeUnit): (parts: seq<JsString>)
    ensures |parts| >= 1
    decreases |s|
  {
    if |s| == 0 then [[]]
    else if s[0] == sep then [[]] + Split(s[1..], sep)
    else
      var rest := Split(s[1..], sep);
      [[s[0]] + rest[0]] + rest[1..]
  }

  /** There is one more segment than there are separators. */
  lemma {:induction false} SplitCount(s: JsString, sep: CodeUnit)
    ensures |Split(s, sep)| == multiset(s)[sep] + 1
    decreases |s|
  {
    if |s| > 0 {
      SplitCount(s[1..], sep);
      assert s == [s[0]] + s[1..];
      assert multiset(s) == multiset([s[0]]) + multiset(s[1..]);
    }
  }

  /** `parts.join(sep)`: the inverse of `Split` on separator-free segments. */
  function Join(parts: seq<JsString>, sep: CodeUnit): (s: JsString)
    requires |parts| >= 1
    decreases |parts|
  {
    if |parts| == 1 then parts[0] else parts[0] + [sep] + Join(parts[1..], sep)
  }

  /** Extending the first segment on the left extends the joined string. */
  lemma JoinConsFirst(c: CodeUnit, parts: seq<JsString>, sep: CodeUnit)
    requires |parts| >= 1
    ensures Join([[c] + parts[0]] + parts[1..], sep) == [c] + Join(parts, sep)
  {
    var q := [[c] + parts[0]] + parts[1..];
    assert q[1..] == parts[1..];
  }

  /** No segment contains the separator. */
  lemma {:induction false} SplitSegmentsFree(s: JsString, sep: CodeUnit)
    ensures forall i :: 0 <= i < |Split(s, sep)| ==> sep !in Split(s, sep)[i]
    decreases |s|
  {
    if |s| > 0 {
      SplitSegmentsFree(s[1..], sep);
      if s[0] != sep {
        var rest := Split(s[1..], sep);
        assert sep !in rest[0];
        assert Split(s, sep)[0] == [s[0]] + rest[0];
        assert forall i :: 1 <= i < |Split(s, sep)| ==> Split(s, sep)[i] == rest[i];
      }
    }
  }

  /** Joining the segments with the separator gives back the string. */
  lemma {:induction false} JoinSplit(s: JsString, sep: CodeUnit)
    ensures Join(Split(s, sep), sep) == s
    decreases |s|
  {
    if |s| > 0 {
      var rest := Split(s[1..], sep);
      JoinSplit(s[1..], sep);
      if s[0] == sep {
        assert ([[]] + rest)[1..] == rest;
      } else {
        JoinConsFirst(s[0], rest, sep);
      }
      assert [s[0]] + s[1..] == s;
    }
  }

  /** A string with no separator is a single segment. */
  lemma {:induction false} SplitNoSeparator(s: JsString, sep: CodeUnit)
    requires sep !in s
    ensures Split(s, sep) == [s]
    decreases |s|
  {
    if |s| > 0 {
      SplitNoSeparator(s[1..], sep);
      assert [s[0]] + s[1..] == s;
    }
  }

  /** The text before the first separator is the first segment, and the
      rest splits on its own. */
  lemma {:induction false} SplitAtFirst(a: JsString, sep: CodeUnit, b: JsString)
    requires sep !in a
    ensures Split(a + [sep] + b, sep) == [a] + Split(b, sep)
    decreases |a|
  {
    var s := a + [sep] + b;
    if |a| == 0 {
      assert s[0] == sep && s[1..] == b;
    } else {
      assert s[1..] == a[1..] + [sep] + b;
      SplitAtFirst(a[1..], sep, b);
      assert [a[0]] + a[1..] == a;
    }
  }

  /** Splitting undoes joining: the segments come back exactly. */
  lemma {:induction false} SplitJoin(parts: seq<JsString>, sep: CodeUnit)
    requires |parts| >= 1
    requires forall i :: 0 <= i < |parts| ==> sep !in parts[i]
    ensures Split(Join(parts, sep), sep) == parts
    decreases |parts|
  {
    if |parts| == 1 {
      SplitNoSeparator(parts[0], sep);
    } else {
      SplitJoin(parts[1..], sep);
      SplitAtFirst(parts[0], sep, Join(parts[1..], sep));
      assert [parts[0]] + parts[1..] == parts;
    }
  }

  /** The JavaScript values that reach the parser and its result object. */
  datatype Value =
    | Undefined
    | Bool(b: bool)
    | Str(s: JsString)
    | Dict(entries: map<JsString, JsString>) // a plain object of string properties
    | Func                                     // a function-valued property
  {
    predicate IsPrimitive() {
      Undefined? || Bool? || Str?
    }
  }

  /** `ToString` on a primitive value (section 7.1.17 of ECMA-262). */
  function ToString(v: Value): (r: JsString)
    requires v.IsPrimitive()
    ensures v.Str? ==> r == v.s
    ensures v == Undefined ==> r == UNDEFINED_TEXT
    ensures v == Bool(true) ==> r == TRUE_TEXT
    ensures v == Bool(false) ==> r == FALSE_TEXT
  {
    match v
    case Str(s) => s
    case Undefined => UNDEFINED_TEXT
    case Bool(b) => if b then TRUE_TEXT else FALSE_TEXT
  }
}
