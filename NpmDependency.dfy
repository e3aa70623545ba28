/**
 * NpmDependencyController: the dependencies of one npm package, read from the
 * registry and kept for 60 minutes in a cache made of two maps, one holding
 * the answer text and one the time it was stored.
 *
 * The registry call and Jackson's parser are one abstract step, `registry`,
 * from the request URL to the reply; Jackson's serialiser is `serialize`.
 * The clock is read twice, once when the cache is consulted and once when
 * an answer is stored; both readings are parameters.
 */
module NpmDependency {
  import opened Wrappers
  import opened JavaText

  const RegistryUrl := "https://artifacthub-iad.oci.oraclecorp.com/api/npm/npmjs-registry/"
  const CacheExpiryMinutes := 60
  /** `CACHE_EXPIRY_MINUTES * 60 * 1000`, in the milliseconds the clock counts. */
  const TtlMillis := CacheExpiryMinutes * 60 * 1000

  const PackageNotFound := "{\"message\": \"Package not found\"}"
  const NoDependencies := "{\"message\": \"No known dependencies for this package.\"}"
  const FetchErrorOpen := "{\"error\": \"Failed to fetch dependencies\", \"details\": \""
  const FetchErrorClose := "\"}"

  // ---------------------------------------------------------------------
  // Cache key and registry URL
  // ---------------------------------------------------------------------

  /** `version != null && !version.isEmpty()` */
  predicate HasVersion(version: Option<string>) {
    version.Some? && version.value != ""
  }

  /** `name@version`, or the bare name when there is no version. */
  function PackageKey(packageName: Option<string>, version: Option<string>): string {
    JavaString(packageName) + (if HasVersion(version) then "@" + version.value else "")
  }

  /** The registry URL, with `/version` appended when there is a version. */
  function PackageUrl(packageName: Option<string>, version: Option<string>): string {
    RegistryUrl + JavaString(packageName) + (if HasVersion(version) then "/" + version.value else "")
  }

  /** Whether two version arguments select the same registry document. */
  predicate SameVersion(v1: Option<string>, v2: Option<string>) {
    HasVersion(v1) == HasVersion(v2) && (HasVersion(v1) ==> v1.value == v2.value)
  }

  lemma SuffixCancel(p: string, x: string, y: string)
    ensures p + x == p + y <==> x == y
  {
    if p + x == p + y {
      assert x == (p + x)[|p|..];
      assert y == (p + y)[|p|..];
    }
  }

  /** `"" != sep + v` and `sep + v1 == sep + v2` exactly when the versions agree. */
  lemma VersionSuffixes(sep: string, v1: Option<string>, v2: Option<string>)
    requires |sep| == 1
    ensures (if HasVersion(v1) then sep + v1.value else "") == (if HasVersion(v2) then sep + v2.value else "")
        <==> SameVersion(v1, v2)
  {
    if HasVersion(v1) && HasVersion(v2) {
      SuffixCancel(sep, v1.value, v2.value);
    }
  }

  /** For one package, two lookups share a cache entry exactly when they ask for the same version. */
  lemma PackageKeySeparatesVersions(packageName: Option<string>, v1: Option<string>, v2: Option<string>)
    ensures PackageKey(packageName, v1) == PackageKey(packageName, v2) <==> SameVersion(v1, v2)
  {
    SuffixCancel(JavaString(packageName), if HasVersion(v1) then "@" + v1.value else "",
                 if HasVersion(v2) then "@" + v2.value else "");
    VersionSuffixes("@", v1, v2);
  }

  /** For one package, two lookups fetch the same URL exactly when they ask for the same version. */
  lemma PackageUrlSeparatesVersions(packageName: Option<string>, v1: Option<string>, v2: Option<string>)
    ensures PackageUrl(packageName, v1) == PackageUrl(packageName, v2) <==> SameVersion(v1, v2)
  {
    SuffixCancel(RegistryUrl + JavaString(packageName), if HasVersion(v1) then "/" + v1.value else "",
                 if HasVersion(v2) then "/" + v2.value else "");
    VersionSuffixes("/", v1, v2);
  }

  /** A null and an empty version share the versionless entry, keyed by the name alone. */
  lemma VersionlessBucket(packageName: Option<string>)
    ensures PackageKey(packageName, None) == PackageKey(packageName, Some("")) == JavaString(packageName)
    ensures PackageUrl(packageName, None) == PackageUrl(packageName, Some("")) == RegistryUrl + JavaString(packageName)
  {
  }

  // ---------------------------------------------------------------------
  // The registry document
  // ---------------------------------------------------------------------

  /** A Jackson tree; `Missing` is the node `path` yields for an absent field. */
  datatype Json =
    | Missing
    | Null
    | Bool(b: bool)
    | Number(text: string)
    | Text(s: string)
    | Array(items: seq<Json>)
    | Object(fields: map<string, Json>)

  /** `JsonNode.path(key)`: the field of an object, otherwise the missing node. */
  function Path(node: Json, key: string): Json {
    if node.Object? && key in node.fields then node.fields[key] else Missing
  }

  /** `JsonNode.asText()`: the text of a value node, `""` for containers and the missing node. */
  function AsText(node: Json): string {
    match node
    case Text(s) => s
    case Number(t) => t
    case Bool(b) => if b then "true" else "false"
    case Null => "null"
    case _ => ""
  }

  /** `JsonNode.size()`: the number of fields or elements, 0 for anything else. */
  function Size(node: Json): nat {
    match node
    case Object(fields) => |fields|
    case Array(items) => |items|
    case _ => 0
  }

  /** The `dependencies` of the version asked for, or of `versions[dist-tags.latest]`. */
  function DependenciesNode(root: Json, version: Option<string>): Json {
    if HasVersion(version) then Path(root, "dependencies")
    else Path(Path(Path(root, "versions"), AsText(Path(Path(root, "dist-tags"), "latest"))), "dependencies")
  }

  lemma LatestVersionDependencies(root: Json, latest: string, manifest: Json)
    requires root.Object? && "dist-tags" in root.fields && "versions" in root.fields
    requires root.fields["dist-tags"].Object? && "latest" in root.fields["dist-tags"].fields
    requires root.fields["dist-tags"].fields["latest"] == Text(latest)
    requires root.fields["versions"].Object? && latest in root.fields["versions"].fields
    requires root.fields["versions"].fields[latest] == manifest
    ensures DependenciesNode(root, None) == Path(manifest, "dependencies")
  {
  }

  /** What the registry call produced: a parsed body, a null body, or an exception's message. */
  datatype RegistryReply = Body(root: Json) | NullBody | Failed(message: string)

  /** `replace("\"", "\\\"")`: a backslash before every double quote. */
  function EscapeQuotes(s: string): string {
    if s == [] then []
    else if s[0] == '"' then "\\\"" + EscapeQuotes(s[1..])
    else [s[0]] + EscapeQuotes(s[1..])
  }

  /** Removes the backslash of every backslash-quote pair. */
  function UnescapeQuotes(s: string): string {
    if |s| >= 2 && s[0] == '\\' && s[1] == '"' then "\"" + UnescapeQuotes(s[2..])
    else if s == [] then []
    else [s[0]] + UnescapeQuotes(s[1..])
  }

  lemma {:induction false} EscapeQuotesStart(s: string)
    ensures EscapeQuotes(s) == [] <==> s == []
    ensures EscapeQuotes(s) != [] ==> EscapeQuotes(s)[0] != '"'
  {
  }

  /** Escaping the quotes loses nothing: removing the inserted backslashes gives the message back. */
  lemma {:induction false} EscapeQuotesRoundTrip(s: string)
    ensures UnescapeQuotes(EscapeQuotes(s)) == s
  {
    if s != [] {
      var rest := EscapeQuotes(s[1..]);
      EscapeQuotesRoundTrip(s[1..]);
      EscapeQuotesStart(s[1..]);
      if s[0] == '"' {
        var e := "\\\"" + rest;
        assert e[2..] == rest;
      } else {
        var e := [s[0]] + rest;
        assert e[1..] == rest;
        assert !(|e| >= 2 && e[0] == '\\' && e[1] == '"');
      }
      assert [s[0]] + s[1..] == s;
    }
  }

  /** Every double quote of the escaped text is preceded by a backslash. */
  lemma {:induction false} EscapedQuotesArePreceded(s: string, i: nat)
    requires i < |EscapeQuotes(s)| && EscapeQuotes(s)[i] == '"'
    ensures i > 0 && EscapeQuotes(s)[i - 1] == '\\'
  {
    var e := EscapeQuotes(s);
    EscapeQuotesStart(s);
    if s[0] == '"' {
      if i > 1 {
        EscapedQuotesArePreceded(s[1..], i - 2);
      }
    } else {
      assert i > 0;
      EscapedQuotesArePreceded(s[1..], i - 1);
    }
  }

  function FetchError(message: string): string {
    FetchErrorOpen + EscapeQuotes(message) + FetchErrorClose
  }

  /** The answer text of one registry call, and whether `getNpmDependencyTree` caches it. */
  datatype Answer = Answer(text: string, cache: bool)

  function AnswerOf(reply: RegistryReply, version: Option<string>, serialize: Json -> string): (a: Answer)
    ensures a.cache <==> reply.Body?
    ensures reply.NullBody? ==> a.text == PackageNotFound
    ensures reply.Failed? ==> a.text == FetchError(reply.message)
  {
    match reply
    case NullBody => Answer(PackageNotFound, false)
    case Failed(m) => Answer(FetchError(m), false)
    case Body(root) =>
      var dependencies := DependenciesNode(root, version);
      if dependencies.Missing? || Size(dependencies) == 0 then Answer(NoDependencies, true)
      else Answer(serialize(dependencies), true)
  }

  /** A body without dependencies is answered with the fixed message, and that message is cached. */
  lemma NoDependenciesAnswer(root: Json, version: Option<string>, serialize: Json -> string)
    requires Size(DependenciesNode(root, version)) == 0
    ensures AnswerOf(Body(root), version, serialize) == Answer(NoDependencies, true)
  {
  }

  /** A body with dependencies is answered with their serialisation. */
  lemma DependenciesAnswer(root: Json, version: Option<string>, serialize: Json -> string)
    requires Size(DependenciesNode(root, version)) > 0
    ensures AnswerOf(Body(root), version, serialize) == Answer(serialize(DependenciesNode(root, version)), true)
  {
  }

  // ---------------------------------------------------------------------
  // The two-map cache
  // ---------------------------------------------------------------------

  /** The contents of `dependencyCache` and `cacheTimestamps`. */
  datatype Cache = Cache(values: map<string, string>, stamps: map<string, int>)

  /** Every stored answer has a timestamp and every timestamp an answer. */
  predicate Consistent(c: Cache) {
    c.values.Keys == c.stamps.Keys
  }

  predicate Fresh(c: Cache, key: string, now: int) {
    key in c.stamps && now - c.stamps[key] < TtlMillis
  }

  /** The result of `checkCache`, and the maps afterwards. */
  datatype Lookup = Lookup(hit: Option<string>, after: Cache)

  function CheckCacheSpec(c: Cache, key: string, now: int): Lookup {
    if key in c.values then
      if Fresh(c, key, now) then Lookup(Some(c.values[key]), c)
      else Lookup(None, Cache(c.values - {key}, c.stamps - {key}))
    else Lookup(None, c)
  }

  function CacheResultSpec(c: Cache, key: string, result: string, now: int): Cache {
    Cache(c.values[key := result], c.stamps[key := now])
  }

  /** A hit exactly when an answer and a timestamp exist and the entry is younger than 60 minutes. */
  lemma CheckCacheHit(c: Cache, key: string, now: int)
    ensures CheckCacheSpec(c, key, now).hit.Some? <==> key in c.values && key in c.stamps && now - c.stamps[key] < TtlMillis
    ensures CheckCacheSpec(c, key, now).hit.Some?
        ==> CheckCacheSpec(c, key, now) == Lookup(Some(c.values[key]), c)
  {
  }

  /** A stale or unstamped entry is dropped from both maps; every other key keeps its entry. */
  lemma CheckCacheEvicts(c: Cache, key: string, now: int)
    requires key in c.values && !Fresh(c, key, now)
    ensures var l := CheckCacheSpec(c, key, now);
      l.hit.None? && key !in l.after.values && key !in l.after.stamps
      && (forall k :: k != key ==> (k in l.after.values <==> k in c.values))
      && (forall k :: k != key ==> (k in l.after.stamps <==> k in c.stamps))
      && (forall k :: k != key && k in c.values ==> l.after.values[k] == c.values[k])
      && (forall k :: k != key && k in c.stamps ==> l.after.stamps[k] == c.stamps[k])
  {
  }

  /** Looking up an absent key changes neither map. */
  lemma CheckCacheAbsent(c: Cache, key: string, now: int)
    requires key !in c.values
    ensures CheckCacheSpec(c, key, now) == Lookup(None, c)
  {
  }

  /** A stored answer is served until 60 minutes have passed, and dropped from then on. */
  lemma StoredAnswerLifetime(c: Cache, key: string, result: string, storedAt: int, now: int)
    ensures var l := CheckCacheSpec(CacheResultSpec(c, key, result, storedAt), key, now);
      (now - storedAt < TtlMillis ==> l.hit == Some(result))
      && (now - storedAt >= TtlMillis ==> l.hit.None? && key !in l.after.values && key !in l.after.stamps)
  {
  }

  /** Storing touches only its own key. */
  lemma CacheResultOthers(c: Cache, key: string, result: string, now: int, other: string, at: int)
    requires other != key
    ensures CheckCacheSpec(CacheResultSpec(c, key, result, now), other, at).hit == CheckCacheSpec(c, other, at).hit
  {
  }

  lemma ConsistencyPreserved(c: Cache, key: string, result: string, now: int)
    requires Consistent(c)
    ensures Consistent(CheckCacheSpec(c, key, now).after)
    ensures Consistent(CacheResultSpec(c, key, result, now))
  {
  }

  // ---------------------------------------------------------------------
  // getNpmDependencyTree
  // ---------------------------------------------------------------------

  /** The answer of `getNpmDependencyTree` and the maps afterwards. */
  function TreeLookup(c: Cache, packageName: Option<string>, version: Option<string>,
                      checkedAt: int, storedAt: int,
                      registry: string -> RegistryReply, serialize: Json -> string): (string, Cache)
  {
    var key := PackageKey(packageName, version);
    var l := CheckCacheSpec(c, key, checkedAt);
    if l.hit.Some? then (l.hit.value, l.after)
    else
      var a := AnswerOf(registry(PackageUrl(packageName, version)), version, serialize);
      (a.text, if a.cache then CacheResultSpec(l.after, key, a.text, storedAt) else l.after)
  }

  /** A hit is answered from the cache, whatever the registry would say now. */
  lemma HitSkipsRegistry(c: Cache, packageName: Option<string>, version: Option<string>,
                         checkedAt: int, storedAt: int, registry: string -> RegistryReply,
                         other: string -> RegistryReply, serialize: Json -> string)
    requires Fresh(c, PackageKey(packageName, version), checkedAt)
    requires PackageKey(packageName, version) in c.values
    ensures TreeLookup(c, packageName, version, checkedAt, storedAt, registry, serialize)
         == (c.values[PackageKey(packageName, version)], c)
    ensures TreeLookup(c, packageName, version, checkedAt, storedAt, registry, serialize)
         == TreeLookup(c, packageName, version, checkedAt, storedAt, other, serialize)
  {
  }

  /** A null body or a failed call caches nothing under the package's key. */
  lemma UncachedAnswers(c: Cache, packageName: Option<string>, version: Option<string>,
                        checkedAt: int, storedAt: int, registry: string -> RegistryReply,
                        serialize: Json -> string)
    requires CheckCacheSpec(c, PackageKey(packageName, version), checkedAt).hit.None?
    requires !registry(PackageUrl(packageName, version)).Body?
    ensures TreeLookup(c, packageName, version, checkedAt, storedAt, registry, serialize).1
         == CheckCacheSpec(c, PackageKey(packageName, version), checkedAt).after
  {
  }

  /** After a cached answer, asking again within the hour repeats it without a registry call. */
  lemma RepeatWithinHour(c: Cache, packageName: Option<string>, version: Option<string>,
                         checkedAt: int, storedAt: int, laterAt: int, laterStore: int,
                         registry: string -> RegistryReply, other: string -> RegistryReply,
                         serialize: Json -> string)
    requires registry(PackageUrl(packageName, version)).Body?
    requires laterAt - storedAt < TtlMillis
    ensures var (first, c1) := TreeLookup(c, packageName, version, checkedAt, storedAt, registry, serialize);
      var l := CheckCacheSpec(c, PackageKey(packageName, version), checkedAt);
      l.hit.None? ==> TreeLookup(c1, packageName, version, laterAt, laterStore, other, serialize) == (first, c1)
  {
  }

  // ---------------------------------------------------------------------
  // The controller
  // ---------------------------------------------------------------------

  class NpmDependencyController {
    var dependencyCache: map<string, string>
    var cacheTimestamps: map<string, int>

    function State(): Cache
      reads this
    {
      Cache(dependencyCache, cacheTimestamps)
    }

    predicate Valid()
      reads this
    {
      Consistent(State())
    }

    constructor()
      ensures dependencyCache == map[] && cacheTimestamps == map[]
      ensures Valid()
    {
      dependencyCache := map[];
      cacheTimestamps := map[];
    }

    method CheckCache(key: string, now: int) returns (cached: Option<string>)
      modifies this
      ensures Lookup(cached, State()) == CheckCacheSpec(old(State()), key, now)
      ensures old(Valid()) ==> Valid()
    {
      cached := None;
      if key in dependencyCache {
        var value := dependencyCache[key];
        if key in cacheTimestamps && now - cacheTimestamps[key] < TtlMillis {
          return Some(value);
        } else {
          dependencyCache := dependencyCache - {key};
          cacheTimestamps := cacheTimestamps - {key};
        }
      }
    }

    method CacheResult(key: string, result: string, now: int)
      modifies this
      ensures State() == CacheResultSpec(old(State()), key, result, now)
      ensures old(Valid()) ==> Valid()
    {
      dependencyCache := dependencyCache[key := result];
      cacheTimestamps := cacheTimestamps[key := now];
    }

    method GetNpmDependencyTree(packageName: Option<string>, version: Option<string>,
                                checkedAt: int, storedAt: int,
                                registry: string -> RegistryReply, serialize: Json -> string)
      returns (result: string)
      modifies this
      ensures (result, State()) == TreeLookup(old(State()), packageName, version, checkedAt, storedAt,
                                              registry, serialize)
      ensures old(Valid()) ==> Valid()
    {
      ghost var before := State();
      var packageKey := PackageKey(packageName, version);
      var cachedResult := CheckCache(packageKey, checkedAt);
      ghost var checked := State();
      if cachedResult.Some? {
        return cachedResult.value;
      }
      var url := RegistryUrl + JavaString(packageName);
      if HasVersion(version) {
        url := url + "/" + version.value;
      }
      assert url == PackageUrl(packageName, version);
      var response := registry(url);
      ghost var answer := AnswerOf(response, version, serialize);
      match response
      case NullBody =>
        result := PackageNotFound;
        assert answer == Answer(result, false);
      case Failed(m) =>
        result := FetchError(m);
        assert answer == Answer(result, false);
      case Body(root) =>
        var dependencies := DependenciesNode(root, version);
        if dependencies.Missing? || Size(dependencies) == 0 {
          result := NoDependencies;
        } else {
          result := serialize(dependencies);
        }
        assert answer == Answer(result, true);
        CacheResult(packageKey, result, storedAt);
        assert State() == CacheResultSpec(checked, packageKey, answer.text, storedAt);
    }
  }
}
