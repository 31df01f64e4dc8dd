/**
 `parseUrl` after the browser has resolved the URL: the resolved record
 (an anchor element, or `window.location` when no URL is given) gets a
 `query` property from the query-string parser and the aliases `path` and
 `url`, and then exactly the eleven listed properties are copied into a
 fresh object. The JZ version also normalises the path and adds `get`.
 */
module UrlRecord {
  import opened JsText
  import opened QueryString

  /** A property name: the ones the plugin reads or writes by name, and any
      other property a host object may carry. */
  datatype Name =
    | Hash | Host | Hostname | Href | Path | Pathname | Port | Protocol | Query | Search | Url
    | GetAccessor          // "get"
    | Other(text: JsString) // any other name; a listed name spelled through `Other` is never read

  /** A JavaScript object as its own properties. */
  type Object = map<Name, Value>

  /** The resolved URL the browser hands back, with whatever other
      properties the host object carries in `others`. */
  datatype Location = Location(
    hash: JsString,
    host: JsString,
    hostname: JsString,
    href: JsString,
    pathname: JsString,
    port: JsString,
    protocol: JsString,
    search: JsString,
    others: Object)

  /** The properties copied into the result, in the order of `props`. */
  const PROPS: seq<Name> :=
    [Hash, Host, Hostname, Href, Path, Pathname, Port, Protocol, Query, Search, Url]

  /** The resolved record seen as an object: its URL fields override any
      other property of the same name. */
  function HostObject(loc: Location): (link: Object)
  {
    loc.others + map[
      Hash := Str(loc.hash), Host := Str(loc.host), Hostname := Str(loc.hostname),
      Href := Str(loc.href), Pathname := Str(loc.pathname), Port := Str(loc.port),
      Protocol := Str(loc.protocol), Search := Str(loc.search)]
  }

  /** `link[name]`: a missing property reads as `undefined`. */
  function Lookup(link: Object, name: Name): (v: Value)
  {
    if name in link then link[name] else Undefined
  }

  /** `url && typeof url === "string"`: only a non-empty string is resolved;
      anything else (absent, empty, not a string) means the current
      location, which the caller injects. */
  function SelectSource(arg: Value, resolve: JsString -> Location, current: Location): (loc: Location)
    ensures arg.Str? && |arg.s| > 0 ==> loc == resolve(arg.s)
    ensures !arg.Str? || |arg.s| == 0 ==> loc == current
  {
    if arg.Str? && |arg.s| > 0 then resolve(arg.s) else current
  }

  /** Only the chosen source is consulted: a non-empty string argument never
      reads the current location, and any other argument never calls the
      resolver. */
  lemma ParseUrlUsesOneSource(f: Flavour, arg: Value, resolve: JsString -> Location, otherResolve: JsString -> Location,
                              current: Location, otherCurrent: Location)
    ensures arg.Str? && |arg.s| > 0 ==>
      ParseUrl(f, arg, resolve, current) == ParseUrl(f, arg, resolve, otherCurrent) == Assemble(f, resolve(arg.s))
    ensures !(arg.Str? && |arg.s| > 0) ==>
      ParseUrl(f, arg, resolve, current) == ParseUrl(f, arg, otherResolve, current) == Assemble(f, current)
  {
    var chosen := SelectSource(arg, resolve, current);
    assert ParseUrl(f, arg, resolve, current) == Assemble(f, chosen);
    if arg.Str? && |arg.s| > 0 {
      assert SelectSource(arg, resolve, otherCurrent) == chosen == resolve(arg.s);
      assert ParseUrl(f, arg, resolve, otherCurrent) == Assemble(f, chosen);
    } else {
      assert SelectSource(arg, otherResolve, current) == chosen == current;
      assert ParseUrl(f, arg, otherResolve, current) == Assemble(f, chosen);
    }
  }

  /** `normalizePath`: prepend '/' unless the path already starts with one. */
  function NormalizePath(path: JsString): (r: JsString)
    ensures |r| > 0 && r[0] == SLASH
    ensures |path| > 0 && path[0] == SLASH ==> r == path
    ensures (|path| == 0 || path[0] != SLASH) ==> r == [SLASH] + path
  {
    if Substring(path, 0, 1) != [SLASH] then [SLASH] + path else path
  }

  /** Normalising twice is normalising once. */
  lemma NormalizePathIdempotent(path: JsString)
    ensures NormalizePath(NormalizePath(path)) == NormalizePath(path)
  {
  }

  /** The input survives as a suffix, behind at most one added '/'. */
  lemma NormalizePathKeepsPath(path: JsString)
    ensures |path| <= |NormalizePath(path)| <= |path| + 1
    ensures NormalizePath(path)[|NormalizePath(path)| - |path|..] == path
  {
  }

  /** Whether `link` carries the string fields the alias steps read. */
  predicate IsResolved(f: Flavour, link: Object)
  {
    && Search in link && link[Search].Str?
    && (f == Jz ==> Pathname in link && link[Pathname].Str?)
  }

  /** The steps of `parseUrl` between resolution and copying: `query` from
      the parser, then `path` and `url` as aliases; the JZ version first
      replaces `pathname` by its normalised form. */
  function Augment(f: Flavour, link: Object): (augmented: Object)
    requires IsResolved(f, link)
    ensures Lookup(augmented, Query) == Dict(ParseQueryString(f, link[Search].s))
    ensures Lookup(augmented, Path) == Lookup(augmented, Pathname)
    ensures Lookup(augmented, Url) == Lookup(link, Href)
  {
    match f
    case Jz => AugmentJz(link)
    case JQuery => AugmentJQuery(link)
  }

  /** The JZ alias steps: `query` is the parsed search, `path` and
      `pathname` both hold the normalised path, `url` holds `href`, and every
      other property is untouched. */
  function AugmentJz(link: Object): (augmented: Object)
    requires IsResolved(Jz, link)
    ensures Lookup(augmented, Query) == Dict(ParseQueryString(Jz, link[Search].s))
    ensures Lookup(augmented, Path) == Lookup(augmented, Pathname) == Str(NormalizePath(link[Pathname].s))
    ensures Lookup(augmented, Url) == Lookup(link, Href)
    ensures forall name :: name !in {Query, Path, Pathname, Url} ==> Lookup(augmented, name) == Lookup(link, name)
  {
    var path := Str(NormalizePath(link[Pathname].s));
    link[Query := Dict(ParseQueryString(Jz, link[Search].s))][Pathname := path][Path := path][Url := Lookup(link, Href)]
  }

  /** The jQuery alias steps: `query` is the parsed search, `path` is a
      plain copy of `pathname`, `url` of `href`, and every other property is
      untouched. */
  function AugmentJQuery(link: Object): (augmented: Object)
    requires IsResolved(JQuery, link)
    ensures Lookup(augmented, Query) == Dict(ParseQueryString(JQuery, link[Search].s))
    ensures Lookup(augmented, Path) == Lookup(augmented, Pathname) == Lookup(link, Pathname)
    ensures Lookup(augmented, Url) == Lookup(link, Href)
    ensures forall name :: name !in {Query, Path, Url} ==> Lookup(augmented, name) == Lookup(link, name)
  {
    link[Query := Dict(ParseQueryString(JQuery, link[Search].s))][Path := Lookup(link, Pathname)][Url := Lookup(link, Href)]
  }

  /** The copying loop `while (i--) parser[props[i]] = link[props[i]]` after
      it has handled the indices from the end down to `i`. */
  function CopyFrom(link: Object, i: nat): (parser: Object)
    requires i <= |PROPS|
    ensures forall name :: name in parser <==> name in PROPS[i..]
    ensures forall j :: i <= j < |PROPS| ==> parser[PROPS[j]] == Lookup(link, PROPS[j])
    decreases |PROPS| - i
  {
    if i == |PROPS| then map[]
    else
      assert PROPS[i..] == [PROPS[i]] + PROPS[i + 1..];
      CopyFrom(link, i + 1)[PROPS[i] := Lookup(link, PROPS[i])]
  }

  /** `createPlainParser(link)`: a fresh object with exactly the listed
      properties, each read from `link` (`undefined` where `link` lacks it),
      and nothing else of `link`. */
  function CreatePlainParser(link: Object): (parser: Object)
    ensures forall name :: name in parser <==> name in PROPS
    ensures forall name :: name in PROPS ==> parser[name] == Lookup(link, name)
  {
    assert PROPS[0..] == PROPS;
    CopyFrom(link, 0)
  }

  /** `new Parser(link)` in the JZ version: the same copy plus the `get`
      accessor. */
  function JzParser(link: Object): (parser: Object)
    ensures forall name :: name in parser <==> name in PROPS || name == GetAccessor
    ensures parser[GetAccessor] == Func
    ensures forall name :: name in PROPS ==> parser[name] == Lookup(link, name)
  {
    GetAccessorNotCopied();
    CreatePlainParser(link)[GetAccessor := Func]
  }

  lemma GetAccessorNotCopied()
    ensures GetAccessor !in PROPS
  {
    assert forall i :: 0 <= i < |PROPS| ==> !PROPS[i].GetAccessor?;
  }

  /** Everything `parseUrl` does once the source is resolved. */
  function Assemble(f: Flavour, loc: Location): (parser: Object)
  {
    HostObjectFields(loc);
    var link := Augment(f, HostObject(loc));
    match f
    case Jz => JzParser(link)
    case JQuery => CreatePlainParser(link)
  }

  /** `parseUrl(arg)` in the given flavour, with URL resolution and the
      current location supplied by the caller. The result has exactly the
      listed properties (plus `get` in the JZ version); the URL fields of
      the chosen source are copied unchanged except that the JZ version
      normalises the path; `path` equals `pathname`, `url` equals `href`,
      and `query` is the parsed `search`. */
  function ParseUrl(f: Flavour, arg: Value, resolve: JsString -> Location, current: Location): (parser: Object)
    ensures forall name :: name in parser <==> name in PROPS || (f == Jz && name == GetAccessor)
    ensures HoldsUrlFields(f, parser, SelectSource(arg, resolve, current))
    ensures f == Jz ==> Lookup(parser, GetAccessor) == Func
  {
    var loc := SelectSource(arg, resolve, current);
    AssembleKeys(f, loc);
    AssembleFields(f, loc);
    Assemble(f, loc)
  }

  /** What the result of `parseUrl` in flavour `f` holds for the chosen
      source `loc`: `path` and `pathname` both hold the path (normalised in
      the JZ version only), `url` and `href` both hold `href`, `query` is the
      parsed `search`, and the other URL fields are the source's. */
  predicate HoldsUrlFields(f: Flavour, r: Object, loc: Location)
  {
    && Lookup(r, Path) == Lookup(r, Pathname) == Str(if f == Jz then NormalizePath(loc.pathname) else loc.pathname)
    && Lookup(r, Url) == Lookup(r, Href) == Str(loc.href)
    && Lookup(r, Query) == Dict(ParseQueryString(f, loc.search))
    && Lookup(r, Hash) == Str(loc.hash) && Lookup(r, Host) == Str(loc.host)
    && Lookup(r, Hostname) == Str(loc.hostname) && Lookup(r, Port) == Str(loc.port)
    && Lookup(r, Protocol) == Str(loc.protocol) && Lookup(r, Search) == Str(loc.search)
  }

  /** `parser.get(param)` in the JZ version: a direct lookup in `query`. */
  function Get(parser: Object, param: JsString): (v: Value)
    requires Query in parser && parser[Query].Dict?
    ensures v == Undefined <==> param !in parser[Query].entries
    ensures param in parser[Query].entries ==> v == Str(parser[Query].entries[param])
  {
    var query := parser[Query].entries;
    if param in query then Str(query[param]) else Undefined
  }

  /** Which properties the assembled object has. */
  lemma AssembleKeys(f: Flavour, loc: Location)
    ensures forall name :: name in Assemble(f, loc) <==> name in PROPS || (f == Jz && name == GetAccessor)
  {
  }

  /** What the assembled object holds under each listed name. */
  lemma AssembleFields(f: Flavour, loc: Location)
    ensures HoldsUrlFields(f, Assemble(f, loc), loc)
    ensures f == Jz ==> Lookup(Assemble(f, loc), GetAccessor) == Func
  {
    if f == Jz {
      AssembleJz(loc);
    } else {
      AssembleJQuery(loc);
    }
  }

  lemma AssembleJz(loc: Location)
    ensures HoldsUrlFields(Jz, Assemble(Jz, loc), loc)
    ensures Lookup(Assemble(Jz, loc), GetAccessor) == Func
  {
    var a := AugmentJz(HostObject(loc));
    AugmentedHostJz(loc);
    CopiedByName(Jz, a);
  }

  /** The resolved record after the JZ alias steps, read by name. */
  lemma AugmentedHostJz(loc: Location)
    ensures HoldsUrlFields(Jz, AugmentJz(HostObject(loc)), loc)
  {
    HostObjectFields(loc);
  }

  lemma AssembleJQuery(loc: Location)
    ensures HoldsUrlFields(JQuery, Assemble(JQuery, loc), loc)
  {
    var a := AugmentJQuery(HostObject(loc));
    AugmentedHostJQuery(loc);
    CopiedByName(JQuery, a);
  }

  /** The resolved record after the jQuery alias steps, read by name. */
  lemma AugmentedHostJQuery(loc: Location)
    ensures HoldsUrlFields(JQuery, AugmentJQuery(HostObject(loc)), loc)
  {
    HostObjectFields(loc);
  }

  /** The URL fields of the resolved record, read by name. */
  lemma HostObjectFields(loc: Location)
    ensures var link := HostObject(loc);
      && Lookup(link, Hash) == Str(loc.hash) && Lookup(link, Host) == Str(loc.host)
      && Lookup(link, Hostname) == Str(loc.hostname) && Lookup(link, Href) == Str(loc.href)
      && Lookup(link, Pathname) == Str(loc.pathname) && Lookup(link, Port) == Str(loc.port)
      && Lookup(link, Protocol) == Str(loc.protocol) && Lookup(link, Search) == Str(loc.search)
    ensures IsResolved(Jz, HostObject(loc)) && IsResolved(JQuery, HostObject(loc))
  {
  }

  /** Copying keeps every listed property's value. */
  lemma CopiedByName(f: Flavour, link: Object)
    ensures var r := match f case Jz => JzParser(link) case JQuery => CreatePlainParser(link);
      && Lookup(r, Hash) == Lookup(link, Hash) && Lookup(r, Host) == Lookup(link, Host)
      && Lookup(r, Hostname) == Lookup(link, Hostname) && Lookup(r, Href) == Lookup(link, Href)
      && Lookup(r, Path) == Lookup(link, Path) && Lookup(r, Pathname) == Lookup(link, Pathname)
      && Lookup(r, Port) == Lookup(link, Port) && Lookup(r, Protocol) == Lookup(link, Protocol)
      && Lookup(r, Query) == Lookup(link, Query) && Lookup(r, Search) == Lookup(link, Search)
      && Lookup(r, Url) == Lookup(link, Url)
  {
    PropsListed();
  }

  lemma PropsListed()
    ensures Hash in PROPS && Host in PROPS && Hostname in PROPS && Href in PROPS && Path in PROPS
    ensures Pathname in PROPS && Port in PROPS && Protocol in PROPS && Query in PROPS && Search in PROPS
    ensures Url in PROPS
  {
    assert PROPS[0] == Hash && PROPS[1] == Host && PROPS[2] == Hostname && PROPS[3] == Href;
    assert PROPS[4] == Path && PROPS[5] == Pathname && PROPS[6] == Port && PROPS[7] == Protocol;
    assert PROPS[8] == Query && PROPS[9] == Search && PROPS[10] == Url;
  }

  /** In the JZ version, `get(param)` is the parsed query's value for
      `param`, and `undefined` exactly when the query has no such key. */
  lemma JzGetReadsQuery(arg: Value, resolve: JsString -> Location, current: Location, param: JsString)
    ensures var r := ParseUrl(Jz, arg, resolve, current);
      var query := ParseQueryString(Jz, SelectSource(arg, resolve, current).search);
      && Query in r && r[Query].Dict?
      && Get(r, param) == (if param in query then Str(query[param]) else Undefined)
  {
    PropsListed();
  }

  /** `get` seen through the query string: a key answers with the decoded
      value of the last segment that has it, and `undefined` exactly when no
      segment decodes to it. */
  lemma JzGetLastSegmentWins(loc: Location, param: JsString)
    requires |loc.search| > 0
    ensures var r := Assemble(Jz, loc);
      var segments := Segments(loc.search);
      && Query in r && r[Query].Dict?
      && (Get(r, param) == Undefined <==> forall i :: 0 <= i < |segments| ==> KeyOf(segments[i]) != param)
      && forall i :: 0 <= i < |segments| && LastSegmentWithKey(segments, i) && KeyOf(segments[i]) == param ==>
           Get(r, param) == Str(ValueOf(Jz, segments[i]))
  {
    AssembleKeys(Jz, loc);
    AssembleJz(loc);
    PropsListed();
    ParseQueryStringContents(Jz, loc.search);
  }
}
