# JZ Parse URL, modelled in Dafny

JZ Parse URL is a small browser plugin with two near-identical versions:
`JZ.parseUrl` (`src/jz.parseurl.js`) and the jQuery utility `$.parseUrl`
(`src/jquery.parseurl.js`). It hands a URL to the browser to resolve, either
through an anchor element or through `window.location`. It then:

- turns `search` into a `query` object;
- adds the aliases `path` (for `pathname`) and `url` (for `href`);
- copies exactly eleven properties into a fresh result object;
- in the JZ version, also normalises the path and adds a `get(param)` accessor.

This project models everything that runs after resolution. The browser's
resolver and the current location are parameters.

| file | module | what it holds |
|---|---|---|
| `js_text.dfy` | `JsText` | JavaScript strings as UTF-16 code units; `substring`; `split` on one unit with its inverse `join`; the primitive values and `ToString` |
| `legacy_escape.dfy` | `LegacyEscape` | the legacy `unescape` of section B.2.1.2 of ECMA-262, written both as a recursive definition and as the standard's index loop; `escape` of section B.2.1.1 as its inverse |
| `query_string.dfy` | `QueryString` | `parseQueryString` of both versions, one definition parametrised by `Flavour` |
| `url_record.dfy` | `UrlRecord` | choosing the source, `normalizePath`, the alias steps, the property copy (`createPlainParser` and the `Parser` constructor), and `get` |
| `query_examples.dfy` | `QueryExamples` | concrete query strings and what each version stores for them |

Strings are sequences of 16-bit code units, not Dafny `char`s. `unescape("%uD800")`
yields a lone surrogate, which a Dafny `char` cannot hold.

The two `parseQueryString` functions differ in one place only: the value
they pass to `unescape` for a segment that has no '='. In three places the
code does not do what its own comments say, and the model follows the code:

- A segment without '=' does not store the boolean `true` that the comment
  on `src/jz.parseurl.js:118` announces. `unescape` converts its argument to
  a string first, so the JZ version stores the string "true". The jQuery
  version passes `undefined` and stores the string "undefined".
- The comments "Remove the ?" (`src/jz.parseurl.js:108`,
  `src/jquery.parseurl.js:113`) describe a step that drops the first unit
  whatever it is. A leading '?' is never checked for, so `#x=1` parses like
  `?x=1`.
- The comments "If there was no query string return an empty object"
  (`src/jz.parseurl.js:103`, `src/jquery.parseurl.js:108`) cover only the
  empty string. `?` on its own is not treated as empty: its one empty
  segment stores a flag value under the empty key, "true" in the JZ version
  and "undefined" in the jQuery version.

Two further behaviours may surprise a reader who expects the usual
treatment of query strings, although the code nowhere promises otherwise:

- A segment is not split once at its first '='. Only `split[1]` is kept as
  the value, so `a=b=c` stores `b` under `a`, not `b=c`.
- Keys and values are decoded with the legacy `unescape`, as the header
  comment (`src/jz.parseurl.js:17-19`) says, not with URI percent-decoding.
  `%uXXXX` is decoded, a malformed `%` is kept as it is, and '+' is not a
  space.

The JZ version calls `substring(1)` and the jQuery version calls
`substring(1, query.length)`. Both take the same slice, and both are
modelled by one call of `Substring`.

## Model

| member | source | states |
|---|---|---|
| `JsText.Substring` | src/jz.parseurl.js:109 | `substring` never fails: bounds inside the string in increasing order give exactly `s[start..end]`, bounds in decreasing order are swapped, and the result is never longer than `s` |
| `JsText.Split` | src/jz.parseurl.js:112-116 | `split` on a one-unit separator always yields at least one segment; its content is pinned down by the lemmas below |
| `JsText.SplitCount` | src/jquery.parseurl.js:117 | there is exactly one more segment than there are separators in the string |
| `JsText.JoinSplit` | src/jz.parseurl.js:112 | joining the segments of `split` with the separator gives back the original string |
| `JsText.SplitJoin` | src/jquery.parseurl.js:117 | segments that contain no separator, once joined and split again, come back exactly |
| `JsText.SplitAtFirst` | src/jz.parseurl.js:116 | `split[0]` is the text before the first separator, and the remaining segments are those of the text after it |
| `JsText.SplitSegmentsFree` | src/jquery.parseurl.js:121 | no segment produced by `split` contains the separator |
| `LegacyEscape.Unescape` | src/jz.parseurl.js:122 | `unescape` emits one unit per step and each step consumes 1, 3 or 6 units, so the result is never longer than the input and at least a sixth of its length |
| `LegacyEscape.UnescapeSteps` | src/jz.parseurl.js:122 | the index-and-accumulator loop of `unescape` (`%uXXXX`, then `%XX`, otherwise the unit itself) computes the same string as the recursive definition |
| `LegacyEscape.UnescapeEscape` | src/jquery.parseurl.js:122 | `unescape(escape(s)) == s` for every string `s` |
| `LegacyEscape.UnescapeWithoutPercent` | src/jquery.parseurl.js:122 | `unescape` leaves text without '%' unchanged |
| `LegacyEscape.UnescapeValue` | src/jz.parseurl.js:119-122 | `unescape` of a primitive first converts it to a string: `unescape(true)` is "true" and `unescape(undefined)` is "undefined" |
| `QueryString.Assign` | src/jz.parseurl.js:115-123 | assigning pairs in order leaves exactly the keys of the pairs, each holding the value of the last pair with that key |
| `QueryString.ParseQueryString` | src/jz.parseurl.js:103-106 | the result is the empty object exactly when the query is empty; any non-empty query stores at least one entry |
| `QueryString.ParseQueryStringContents` | src/jz.parseurl.js:108-123 | the keys are the decoded texts before the first '=' of every '&'-segment after the first unit, and each key holds the decoded value of its last segment |
| `QueryString.SegmentWithValue` | src/jz.parseurl.js:116-122 | a segment with one '=' stores the decoded text after it under the decoded text before it; `a=` stores the empty string |
| `QueryString.SegmentWithSecondEquals` | src/jquery.parseurl.js:121-122 | in a segment with a second '=', everything from the second '=' on is lost |
| `QueryString.SegmentWithoutValue` | src/jz.parseurl.js:118-122 | a segment without '=' is its own key, with the value "true" in the JZ version and "undefined" in the jQuery version |
| `QueryString.FirstUnitDropped` | src/jquery.parseurl.js:113-117 | the first unit of a non-empty query is removed whatever it is, and the rest is split on '&' |
| `QueryString.SingleSegment` | src/jz.parseurl.js:109-123 | a query with a single segment gives an object with exactly one entry |
| `QueryString.DuplicateKeyLastWins` | src/jquery.parseurl.js:120-123 | when two segments decode to the same key, only the second one's value survives |
| `QueryString.FlavoursDifferOnlyOnFlags` | src/jquery.parseurl.js:105-126 | both versions store the same keys; a value differs only when the JZ version stores "true" where the jQuery version stores "undefined" |
| `QueryString.LastIndexOf` | src/jz.parseurl.js:115-123 | every stored key has a last segment that decodes to it, and no later segment does |
| `UrlRecord.SelectSource` | src/jquery.parseurl.js:82-90 | a non-empty string argument is resolved; any other argument selects the current location |
| `UrlRecord.ParseUrlUsesOneSource` | src/jquery.parseurl.js:83-90 | a non-empty string never reads the current location, and any other argument never calls the resolver |
| `UrlRecord.NormalizePath` | src/jz.parseurl.js:91-97 | the result starts with '/'; a path already starting with '/' is returned unchanged; any other path gets exactly one '/' prepended |
| `UrlRecord.NormalizePathIdempotent` | src/jz.parseurl.js:91-97 | normalising twice is the same as normalising once |
| `UrlRecord.NormalizePathKeepsPath` | src/jz.parseurl.js:92-93 | the input survives as a suffix of the result, which is at most one unit longer |
| `UrlRecord.CopyFrom` | src/jquery.parseurl.js:131-137 | after the copy loop has handled indices `i` to the end, the object has exactly those names of `props`, each read from the source |
| `UrlRecord.CreatePlainParser` | src/jquery.parseurl.js:130-140 | the result has exactly the eleven names of `props`, each equal to the source's value (`undefined` where the source lacks it), and nothing else |
| `UrlRecord.JzParser` | src/jz.parseurl.js:128-140 | the same copy as `CreatePlainParser`, plus a function-valued `get` |
| `UrlRecord.Get` | src/jz.parseurl.js:137-139 | `get(param)` is `undefined` exactly when `query` has no key `param`; otherwise it is that key's value |
| `UrlRecord.Augment` | src/jquery.parseurl.js:92-99 | in either version, after the alias steps `query` is the parsed `search`, `path` equals `pathname`, and `url` equals the source's `href` |
| `UrlRecord.AugmentJz` | src/jz.parseurl.js:147-154 | the JZ steps set `query` to the parsed `search`, set both `path` and `pathname` to the normalised path, set `url` to `href`, and change nothing else |
| `UrlRecord.AugmentJQuery` | src/jquery.parseurl.js:92-99 | the jQuery steps set `query` to the parsed `search`, `path` to a plain copy of `pathname` and `url` to `href`, and change nothing else |
| `UrlRecord.AssembleJz` | src/jz.parseurl.js:144-157 | the JZ result holds the source's URL fields, the normalised path under `path` and `pathname`, `href` under `url`, the parsed query, and `get` |
| `UrlRecord.AssembleJQuery` | src/jquery.parseurl.js:79-102 | the jQuery result holds the source's URL fields unchanged, with `path == pathname`, `url == href` and the parsed query |
| `UrlRecord.ParseUrl` | src/jz.parseurl.js:144-157 | the result of `parseUrl` in either version has exactly the eleven listed names (plus `get` in JZ); `path == pathname`, normalised in JZ only; `url == href`; `query` is the parsed `search`; every other URL field is the chosen source's |
| `UrlRecord.JzGetReadsQuery` | src/jz.parseurl.js:137-139 | `get(param)` on a `parseUrl` result reads the parsed query of the chosen source |
| `UrlRecord.JzGetLastSegmentWins` | src/jz.parseurl.js:115-139 | `get(param)` is `undefined` exactly when no segment decodes to `param`; otherwise it is the decoded value of the last such segment |
| `QueryExamples.SecondEqualsDropsTail` | src/jz.parseurl.js:116-122 | `?a=b=c` stores `b` under `a` |
| `QueryExamples.EmptyValue` | src/jquery.parseurl.js:121-122 | `?a=` stores the empty string under `a` |
| `QueryExamples.FlagKeyJz` | src/jz.parseurl.js:118-122 | `?a` stores the string "true" in the JZ version |
| `QueryExamples.FlagKeyJQuery` | src/jquery.parseurl.js:121-122 | `?a` stores the string "undefined" in the jQuery version |
| `QueryExamples.QuestionMarkAlone` | src/jz.parseurl.js:103-123 | `?` on its own stores "true" under the empty key in the JZ version and "undefined" in the jQuery version |
| `QueryExamples.FirstUnitNotChecked` | src/jquery.parseurl.js:113-114 | `#x=1` parses as if it began with '?' |
| `QueryExamples.RepeatedKey` | src/jz.parseurl.js:115-123 | `?a=1&a=2` stores only `2` under `a` |
| `QueryExamples.PercentDecodedValue` | src/jz.parseurl.js:122 | `?x=%20y` stores " y" under `x` |

## Left out

- JsText.Split: its own contract states only that there is at least one segment. The segment count, the absence of separators in segments and the round trip with `join` are separate lemmas (`SplitCount`, `SplitSegmentsFree`, `JoinSplit`, `SplitJoin`), so that proofs about concrete strings do not have to carry them.
- LegacyEscape.Unescape: its own contract states only the length bounds. Its behaviour is fixed by its definition, which follows section B.2.1.2 step by step, by `UnescapeSteps`, and by the round trip `UnescapeEscape`.

- Browser URL resolution is not modelled. This covers the anchor element, the `innerHTML` round trip (`src/jz.parseurl.js:74-88`, `src/jquery.parseurl.js:84-85`) and `window.location`. It is a foreign DOM parser, so its output is an input `Location` record, and the resolver and current location are parameters of `ParseUrl`.
- The JZ version's wiring does not run as written, and the model follows the intended data flow:
  - `createLink` never returns `link` and assigns an undeclared variable under `'use strict'`;
  - line 151 normalises `link.path` rather than `link.pathname`;
  - line 156 calls `Parser` without `new`.
- `$.type`, `$.each` and the registration of the plugin on `JZ` or `jQuery` are packaging and are not modelled. The argument of `parseUrl` is a `Value`: a string, a boolean, `undefined`, a plain object or a function. For all of these the selection test agrees with `url && typeof url === "string"` and with `$.type`. Numbers and String wrapper objects are not representable, so their treatment is not modelled; `$.type` and `typeof` also disagree on wrapper objects.
- Writing `pathname` on a live anchor or `window.location` can make the browser re-serialise `href` or navigate. The model treats the resolved record as a plain object.
- Re-parsing a result's `href` yields the same record only if the browser's resolver is stable. That claim is about the resolver, which is a parameter here, so it is not stated.
- JavaScript object-key quirks are not modelled: `__proto__`, inherited properties and the order of keys. The parsed query is a `map` from strings to strings, and an object's properties are a `map` keyed by property name.
- `UrlRecord.Augment` requires `search` (and, in the JZ version, `pathname`) to be strings. The browser always supplies them as strings, so the failure when they are missing is not modelled.
