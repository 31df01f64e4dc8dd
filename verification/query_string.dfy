/**
 `parseQueryString`, which both versions of the plugin carry: drop the first
 unit of `search`, split the rest on '&', split each segment on '=', and
 store `unescape(split[0])` -> `unescape(split[1])`, later segments
 overwriting earlier ones. The two versions differ only in what `split[1]`
 is for a segment without '=': `true` in the JZ version, `undefined` in the
 jQuery version; `unescape` turns either into a string.
 */
module QueryString {
  import opened JsText
  import opened LegacyEscape

  /** Which of the two near-identical versions of the plugin. */
  datatype Flavour = Jz | JQuery

  /** The value `split[1]` stands for when a segment has no '='. */
  function MissingValue(f: Flavour): (v: Value)
    ensures v.IsPrimitive()
  {
    match f
    case Jz => Bool(true)
    case JQuery => Undefined
  }

  /** `unescape(split[0])`: the decoded text before the first '='. */
  function KeyOf(segment: JsString): (key: JsString)
  {
    Unescape(Split(segment, EQUALS)[0])
  }

  /** `split[1]`: the text between the first and the second '=', or the
      flavour's stand-in when there is no '='. */
  function RawValueOf(f: Flavour, segment: JsString): (v: Value)
    ensures v.IsPrimitive()
  {
    var split := Split(segment, EQUALS);
    if |split| > 1 then Str(split[1]) else MissingValue(f)
  }

  /** `unescape(split[1])`. */
  function ValueOf(f: Flavour, segment: JsString): (value: JsString)
  {
    UnescapeValue(RawValueOf(f, segment))
  }

  /** The decoded key/value pair one segment contributes. */
  function DecodePair(f: Flavour, segment: JsString): (pair: (JsString, JsString))
  {
    (KeyOf(segment), ValueOf(f, segment))
  }

  function DecodeAll(f: Flavour, segments: seq<JsString>): (pairs: seq<(JsString, JsString)>)
    ensures |pairs| == |segments|
    ensures forall i {:trigger pairs[i]} :: 0 <= i < |segments| ==> pairs[i] == DecodePair(f, segments[i])
    decreases |segments|
  {
    if |segments| == 0 then [] else [DecodePair(f, segments[0])] + DecodeAll(f, segments[1..])
  }

  /** No later pair has the same key as pair `i`. */
  predicate LastWithKey<K(==), V>(pairs: seq<(K, V)>, i: int)
    requires 0 <= i < |pairs|
  {
    forall j :: i < j < |pairs| ==> pairs[j].0 != pairs[i].0
  }

  /** The loop `params[key] = value` over the pairs in order, each assignment
      overwriting any earlier value under the same key: the result has one
      entry per distinct key, holding the value of the last pair with it. */
  function Assign<K(==), V>(pairs: seq<(K, V)>): (params: map<K, V>)
    ensures params.Keys == set i | 0 <= i < |pairs| :: pairs[i].0
    ensures forall i {:trigger LastWithKey(pairs, i)} :: 0 <= i < |pairs| && LastWithKey(pairs, i) ==> params[pairs[i].0] == pairs[i].1
    decreases |pairs|
  {
    if |pairs| == 0 then map[]
    else
      var n := |pairs| - 1;
      var earlier := pairs[..n];
      var prior := Assign(earlier);
      var params := prior[pairs[n].0 := pairs[n].1];
      assert forall i :: 0 <= i < n ==> earlier[i] == pairs[i];
      assert params.Keys == set i | 0 <= i < |pairs| :: pairs[i].0 by {
        forall k | k in params.Keys
          ensures exists i :: 0 <= i < |pairs| && pairs[i].0 == k
        {
          if k != pairs[n].0 {
            var i :| 0 <= i < n && earlier[i].0 == k;
          }
        }
      }
      assert forall i :: 0 <= i < n && LastWithKey(pairs, i) ==> LastWithKey(earlier, i);
      params
  }

  /** The '&'-segments of everything after the first unit of `query`. */
  function Segments(query: JsString): (segments: seq<JsString>)
    requires |query| > 0
    ensures |segments| >= 1
  {
    Split(Substring(query, 1, |query|), AMPERSAND)
  }

  /** No later segment decodes to the same key as segment `i`. */
  predicate LastSegmentWithKey(segments: seq<JsString>, i: int)
    requires 0 <= i < |segments|
  {
    forall j :: i < j < |segments| ==> KeyOf(segments[j]) != KeyOf(segments[i])
  }

  /** `parseQueryString(query)` in the given flavour. An empty query gives
      the empty map; any other query gives at least one entry, because even
      an empty remainder splits into one (empty) segment. */
  function ParseQueryString(f: Flavour, query: JsString): (params: map<JsString, JsString>)
    ensures |query| == 0 <==> params == map[]
  {
    if |query| == 0 then map[]
    else
      var pairs := DecodeAll(f, Segments(query));
      assert pairs[0].0 in Assign(pairs);
      Assign(pairs)
  }

  /** What a non-empty query stores: the keys are the decoded keys of all
      segments after the first unit, each holding the decoded value of the
      last segment with that key. */
  lemma ParseQueryStringContents(f: Flavour, query: JsString)
    requires |query| > 0
    ensures ParseQueryString(f, query).Keys ==
      set i | 0 <= i < |Segments(query)| :: KeyOf(Segments(query)[i])
    ensures forall i {:trigger LastSegmentWithKey(Segments(query), i)} :: 0 <= i < |Segments(query)| && LastSegmentWithKey(Segments(query), i) ==>
      ParseQueryString(f, query)[KeyOf(Segments(query)[i])] == ValueOf(f, Segments(query)[i])
  {
    AssignDecodedKeys(f, Segments(query));
    AssignDecodedValues(f, Segments(query));
  }

  /** The keys `Assign` keeps, read at the level of segments. */
  lemma AssignDecodedKeys(f: Flavour, segments: seq<JsString>)
    ensures Assign(DecodeAll(f, segments)).Keys == set i | 0 <= i < |segments| :: KeyOf(segments[i])
  {
    var pairs := DecodeAll(f, segments);
    var fromPairs := set i | 0 <= i < |pairs| :: pairs[i].0;
    var fromSegments := set i | 0 <= i < |segments| :: KeyOf(segments[i]);
    forall k | k in fromPairs
      ensures k in fromSegments
    {
      var i :| 0 <= i < |pairs| && pairs[i].0 == k;
      assert KeyOf(segments[i]) == k;
    }
    forall k | k in fromSegments
      ensures k in fromPairs
    {
      var i :| 0 <= i < |segments| && KeyOf(segments[i]) == k;
      assert pairs[i].0 == k;
    }
  }

  /** The values `Assign` keeps, read at the level of segments. */
  lemma AssignDecodedValues(f: Flavour, segments: seq<JsString>)
    ensures forall i {:trigger LastSegmentWithKey(segments, i)} :: 0 <= i < |segments| && LastSegmentWithKey(segments, i) ==>
      KeyOf(segments[i]) in Assign(DecodeAll(f, segments)) &&
      Assign(DecodeAll(f, segments))[KeyOf(segments[i])] == ValueOf(f, segments[i])
  {
    var pairs := DecodeAll(f, segments);
    forall i | 0 <= i < |segments| && LastSegmentWithKey(segments, i)
      ensures KeyOf(segments[i]) in Assign(pairs) && Assign(pairs)[KeyOf(segments[i])] == ValueOf(f, segments[i])
    {
      assert pairs[i] == DecodePair(f, segments[i]);
      assert pairs[i].0 in Assign(pairs);
      forall j | i < j < |pairs|
        ensures pairs[j].0 != pairs[i].0
      {
        assert pairs[j].0 == KeyOf(segments[j]);
      }
      assert LastWithKey(pairs, i);
    }
  }

  // ---- segments ----

  /** A segment with one '=': the key is the decoded text before it and the
      value the decoded text after it, empty when nothing follows. */
  lemma SegmentWithValue(f: Flavour, k: JsString, v: JsString)
    requires EQUALS !in k && EQUALS !in v
    ensures KeyOf(k + [EQUALS] + v) == Unescape(k)
    ensures ValueOf(f, k + [EQUALS] + v) == Unescape(v)
  {
    SplitAtFirst(k, EQUALS, v);
    SplitNoSeparator(v, EQUALS);
  }

  /** A segment with a second '=': everything from the second '=' on is
      lost, so `a=b=c` stores `b` under `a`. */
  lemma SegmentWithSecondEquals(f: Flavour, k: JsString, v: JsString, w: JsString)
    requires EQUALS !in k && EQUALS !in v
    ensures KeyOf(k + [EQUALS] + v + [EQUALS] + w) == Unescape(k)
    ensures ValueOf(f, k + [EQUALS] + v + [EQUALS] + w) == Unescape(v)
  {
    assert k + [EQUALS] + v + [EQUALS] + w == k + [EQUALS] + (v + [EQUALS] + w);
    SplitAtFirst(k, EQUALS, v + [EQUALS] + w);
    SplitAtFirst(v, EQUALS, w);
  }

  /** A segment with no '=' is a key of its own; its value is the string
      "true" in the JZ version and "undefined" in the jQuery version, never a
      boolean. */
  lemma SegmentWithoutValue(segment: JsString)
    requires EQUALS !in segment
    ensures KeyOf(segment) == Unescape(segment)
    ensures ValueOf(Jz, segment) == TRUE_TEXT
    ensures ValueOf(JQuery, segment) == UNDEFINED_TEXT
  {
    SplitNoSeparator(segment, EQUALS);
  }

  // ---- whole query strings ----

  /** The first unit is removed whatever it is: `?`, `#` or a letter. */
  lemma FirstUnitDropped(f: Flavour, c: CodeUnit, rest: JsString)
    ensures ParseQueryString(f, [c] + rest) == Assign(DecodeAll(f, Split(rest, AMPERSAND)))
  {
    var q := [c] + rest;
    assert q[1..|q|] == rest;
    assert Substring(q, 1, |q|) == rest;
    assert Segments(q) == Split(rest, AMPERSAND);
  }

  /** A query with a single segment yields a one-entry map. */
  lemma SingleSegment(f: Flavour, c: CodeUnit, segment: JsString)
    requires AMPERSAND !in segment
    ensures ParseQueryString(f, [c] + segment) == map[KeyOf(segment) := ValueOf(f, segment)]
  {
    FirstUnitDropped(f, c, segment);
    SplitNoSeparator(segment, AMPERSAND);
    var pairs := DecodeAll(f, [segment]);
    assert Assign(pairs) == Assign(pairs[..0])[KeyOf(segment) := ValueOf(f, segment)];
  }

  /** Two segments with the same decoded key: only the second one's value
      survives. */
  lemma DuplicateKeyLastWins(f: Flavour, c: CodeUnit, first: JsString, second: JsString)
    requires AMPERSAND !in first && AMPERSAND !in second
    requires KeyOf(first) == KeyOf(second)
    ensures ParseQueryString(f, [c] + first + [AMPERSAND] + second) == map[KeyOf(second) := ValueOf(f, second)]
  {
    var rest := first + [AMPERSAND] + second;
    assert [c] + first + [AMPERSAND] + second == [c] + rest;
    FirstUnitDropped(f, c, rest);
    TwoSegments(first, second);
    TwoDecodedSameKey(f, first, second);
  }

  lemma TwoDecodedSameKey(f: Flavour, first: JsString, second: JsString)
    requires KeyOf(first) == KeyOf(second)
    ensures Assign(DecodeAll(f, [first, second])) == map[KeyOf(second) := ValueOf(f, second)]
  {
    var pairs := DecodeAll(f, [first, second]);
    assert pairs == [DecodePair(f, first), DecodePair(f, second)];
    AssignSameKeyTwice(DecodePair(f, first), DecodePair(f, second));
  }

  lemma TwoSegments(first: JsString, second: JsString)
    requires AMPERSAND !in first && AMPERSAND !in second
    ensures Split(first + [AMPERSAND] + second, AMPERSAND) == [first, second]
  {
    SplitAtFirst(first, AMPERSAND, second);
    SplitNoSeparator(second, AMPERSAND);
  }

  lemma AssignSameKeyTwice<K, V>(a: (K, V), b: (K, V))
    requires a.0 == b.0
    ensures Assign([a, b]) == map[b.0 := b.1]
  {
    assert [a, b][..1] == [a];
    assert [a][..0] == [];
  }

  /** Both versions store exactly the same keys, and they disagree on a value
      only where the last segment for that key has no '=': "true" in the JZ
      version, "undefined" in the jQuery version. */
  lemma FlavoursDifferOnlyOnFlags(query: JsString)
    ensures ParseQueryString(Jz, query).Keys == ParseQueryString(JQuery, query).Keys
    ensures forall k :: k in ParseQueryString(Jz, query) ==>
      ParseQueryString(Jz, query)[k] == ParseQueryString(JQuery, query)[k]
      || (ParseQueryString(Jz, query)[k] == TRUE_TEXT && ParseQueryString(JQuery, query)[k] == UNDEFINED_TEXT)
  {
    if |query| > 0 {
      ParseQueryStringContents(Jz, query);
      ParseQueryStringContents(JQuery, query);
      forall k | k in ParseQueryString(Jz, query)
        ensures ParseQueryString(Jz, query)[k] == ParseQueryString(JQuery, query)[k]
          || (ParseQueryString(Jz, query)[k] == TRUE_TEXT && ParseQueryString(JQuery, query)[k] == UNDEFINED_TEXT)
      {
        var i := LastIndexOf(Segments(query), k);
        FlavoursOnSegment(Segments(query)[i]);
      }
    }
  }

  /** One segment's value in the two versions. */
  lemma FlavoursOnSegment(segment: JsString)
    ensures ValueOf(Jz, segment) == ValueOf(JQuery, segment)
      || (ValueOf(Jz, segment) == TRUE_TEXT && ValueOf(JQuery, segment) == UNDEFINED_TEXT)
  {
    var split := Split(segment, EQUALS);
    if |split| == 1 {
      JoinSplit(segment, EQUALS);
      SplitSegmentsFree(segment, EQUALS);
      SegmentWithoutValue(segment);
    }
  }

  /** The index of the last segment that decodes to key `k`. */
  lemma LastIndexOf(segments: seq<JsString>, k: JsString) returns (i: nat)
    requires exists j :: 0 <= j < |segments| && KeyOf(segments[j]) == k
    ensures i < |segments| && KeyOf(segments[i]) == k && LastSegmentWithKey(segments, i)
  {
    var keys := seq(|segments|, j requires 0 <= j < |segments| => KeyOf(segments[j]));
    var j :| 0 <= j < |segments| && KeyOf(segments[j]) == k;
    assert keys[j] == k;
    i := LastIndex(keys, k);
    assert forall m :: i < m < |segments| ==> keys[m] == KeyOf(segments[m]);
  }

  /** The index of the last occurrence of `k` in `keys`. */
  lemma {:induction false} LastIndex<K>(keys: seq<K>, k: K) returns (i: nat)
    requires k in keys
    ensures i < |keys| && keys[i] == k
    ensures forall m :: i < m < |keys| ==> keys[m] != k
    decreases |keys|
  {
    var n := |keys| - 1;
    if keys[n] == k {
      i := n;
    } else {
      var earlier := keys[..n];
      assert k in earlier by {
        var j :| 0 <= j < |keys| && keys[j] == k;
        assert earlier[j] == k;
      }
      i := LastIndex(earlier, k);
      assert forall m :: i < m < n ==> earlier[m] == keys[m];
    }
  }
}
