# dependency-tree, modelled in Dafny

The repository is a small Spring service for Maven and npm dependencies. It has four parts, and the model covers all four:

- **DependencyTreeGenerator.generateTree** checks that a Maven group, artifact and version are present. It renders a one-dependency `pom.xml` from a text block, runs `mvn dependency:tree` on it and keeps only the output lines that hold a tree marker (`+-` or `\-`). A leading `[INFO]` is removed from each kept line.
- **DependencyTreeController** receives a `<dependency>` XML snippet and reads its `groupId`, `artifactId` and `version`, taking the trimmed text of the first descendant with each tag. It turns the `<exclusion>` elements of the first `<exclusions>` into a POM exclusions block, skipping any exclusion that lacks a field, and calls the generator.
- **NpmDependencyController** answers with the dependencies of one npm package, read from the registry. Answers are kept in two maps, the answer text and the time it was stored, for 60 minutes (strictly less than 60 × 60 × 1000 ms).
- **NPMVulnerabitlityService**, serial path:
  - It finds every `group:artifact:packaging:version:scope` coordinate in a Maven tree, or builds the single coordinate of an npm package.
  - It cuts the coordinate list into batches of at most 128 and posts each batch to the OSS Index component report.
  - It merges the answers into one list. A successful batch contributes its report objects. A failed batch contributes its whole error map. The map always holds `error`. It also holds `responseCode` when a status was received, even a 200 whose body could not be decoded. An exception before any status gives only `error`.

Everything outside the model is a parameter. The process running Maven is `mvn`, from POM text to output lines or an exception message. Each HTTP exchange is `query` or `registry`, a function of the request. Jackson's serialiser is `serialize`. The clock is read twice, so it appears as two readings, `checkedAt` and `storedAt`.

Files:
- `Wrappers.dfy`: `Option` stands for a Java `null`, and `Result` for a call that may throw.
- `JavaText.dfy`: the pieces of `java.lang.String` and `java.util.regex` the code relies on. These are `trim`, `\s*`, `contains`, splitting and joining, `String.valueOf`, and `formatted` with `%s`.
- `TreeGenerator.dfy`, `DependencyXml.dfy`, `NpmDependency.dfy`, `VulnerabilityService.dfy`: one module per source class.

Loops in the source are methods with loop invariants. Each is proved equal to a recursive specification function, and the properties are proved about that function. `NpmDependencyController` is a class whose two map fields its methods update.

## Model

| member | source | states |
|---|---|---|
| JavaText.SkipSpacesShape | DependencyTreeGenerator.java:55 | `\s*` removes exactly the leading whitespace run of a line: the rest is a suffix, everything cut is whitespace, and the rest does not start with whitespace |
| JavaText.TrimShape | DependencyTreeController.java:92 | `trim()` gives a slice of the text with only characters at or below U+0020 cut from either end; the result starts and ends above U+0020 |
| JavaText.TrimIdempotent | DependencyTreeController.java:92 | trimming a trimmed value changes nothing |
| JavaText.Split | NPMVulnerabitlityService.java:99-106 | splitting the tree into lines gives at least one piece, and no piece holds the separator |
| JavaText.SplitJoin | NPMVulnerabitlityService.java:40-42 | joining pieces that are free of the separator, then splitting, gives back the pieces |
| JavaText.JoinSplit | NPMVulnerabitlityService.java:99-106 | splitting a text into lines and joining them again gives back the text, so line-wise reading loses nothing |
| JavaText.SplitKeepsAbsent | NPMVulnerabitlityService.java:99-106 | a character absent from the text is absent from every line |
| JavaText.NatToString | NPMVulnerabitlityService.java:57 | `String.valueOf` of a non-negative code is a non-empty run of decimal digits |
| JavaText.NatToStringValue | NPMVulnerabitlityService.java:57 | the digits of a non-negative code read back as that code |
| JavaText.IntToStringValue | NPMVulnerabitlityService.java:57 | the decimal text of any status code reads back as that code, so distinct codes give distinct `responseCode` texts |
| JavaText.LiteralFormatted | DependencyTreeGenerator.java:17-32 | literal text without `%` passes through `formatted` unchanged and adds no specifier |
| JavaText.SpecifierStep | DependencyTreeGenerator.java:17-32 | a leading `%s` consumes exactly the first argument |
| JavaText.FormattedFill | DependencyTreeGenerator.java:17-32 | a template of `%`-free chunks separated by `%s` has one specifier per argument, and `formatted` puts the arguments between the chunks in order |
| TreeGenerator.PomLayout | DependencyTreeGenerator.java:17-32 | the POM text is its fixed parts with groupId, artifactId, version and the exclusions block placed in that order |
| TreeGenerator.PomChunksLiteral | DependencyTreeGenerator.java:17-32 | none of the POM's fixed parts contains `%`, so the template has exactly the four specifiers |
| TreeGenerator.StripInfoShape | DependencyTreeGenerator.java:55 | `replaceFirst("^\\[INFO\\]\\s*", "")` leaves a line that does not start with `[INFO]` unchanged; otherwise it leaves exactly what follows `[INFO]` and the whitespace after it |
| TreeGenerator.StripInfoKeepsMarker | DependencyTreeGenerator.java:53-55 | removing the `[INFO]` prefix never removes the tree marker that made the line kept |
| TreeGenerator.KeptLinesMembers | DependencyTreeGenerator.java:48-58 | a line is in the report exactly when it is the stripped form of an output line with a marker |
| TreeGenerator.KeptLinesAreTreeLines | DependencyTreeGenerator.java:53-56 | every reported line still holds a tree marker |
| TreeGenerator.TreeOutputAppend | DependencyTreeGenerator.java:48-58 | the report of concatenated output is the concatenation of the reports, so the filter works line by line and keeps order |
| TreeGenerator.TreeOutputJoin | DependencyTreeGenerator.java:56 | the report is the kept lines joined by newlines, with a newline after the last one |
| TreeGenerator.TreeOutputLines | DependencyTreeGenerator.java:56-63 | split at newlines, the report gives back the kept lines followed by one empty piece |
| TreeGenerator.TreeOutputEmpty | DependencyTreeGenerator.java:48-63 | the report is empty exactly when no output line holds a marker |
| TreeGenerator.FilterTreeOutput | DependencyTreeGenerator.java:48-58 | the `readLine` loop builds exactly the specified report |
| TreeGenerator.InvalidInputShortCircuits | DependencyTreeGenerator.java:8-9 | a null group, artifact or version gives the fixed message, and Maven's behaviour does not affect it |
| TreeGenerator.NullExclusionsAreEmpty | DependencyTreeGenerator.java:12-14 | a null exclusions block gives the same result as the empty block |
| TreeGenerator.GenerateTree | DependencyTreeGenerator.java:6-64 | validation, the null default, the POM, the Maven run and the filter give exactly the specified report, or pass on the exception's message |
| DependencyXml.TaggedAppend | DependencyTreeController.java:90 | the tagged descendants of a concatenated forest are those of each part, in document order |
| DependencyXml.TaggedAreElements | DependencyTreeController.java:90 | everything `getElementsByTagName` returns is an element with that tag |
| DependencyXml.FirstMatchingChild | DependencyTreeController.java:89-93 | when the first element with the tag is a child, after children that hold no such element, its trimmed text is the value |
| DependencyXml.NoneBefore | DependencyTreeController.java:90 | a forest whose members hold no element with the tag yields none |
| DependencyXml.AbsentTagIsNull | DependencyTreeController.java:91-94 | with no element carrying the tag below the parent, the value is null |
| DependencyXml.ExclusionLayout | DependencyTreeController.java:67-72 | the formatted exclusion text block puts the group, then the artifact, between its three fixed parts |
| DependencyXml.CompleteFragment | DependencyTreeController.java:64-73 | an exclusion with both fields contributes its formatted text block |
| DependencyXml.IncompleteFragment | DependencyTreeController.java:66 | an exclusion missing either field contributes nothing |
| DependencyXml.ConcatMapAppend | DependencyTreeController.java:62-74 | the fragments of concatenated exclusion lists are the concatenated fragments, in order |
| DependencyXml.FragmentsRenderPairs | DependencyTreeController.java:62-74 | the builder's contents are exactly the rendered (group, artifact) pairs of the complete exclusions, in document order |
| DependencyXml.ExclusionPairsMembers | DependencyTreeController.java:62-74 | a pair is rendered exactly when some exclusion has that group and that artifact |
| DependencyXml.ExclusionsBlockEmpty | DependencyTreeController.java:53-78 | the block is empty exactly when the first `<exclusions>` is absent or holds no `<exclusion>`; otherwise it is wrapped in `<exclusions>`…`</exclusions>` |
| DependencyXml.FirstExclusionsOnly | DependencyTreeController.java:57 | only the first `<exclusions>` element counts: two documents with the same first one get the same block |
| DependencyXml.BuildExclusionsBlock | DependencyTreeController.java:53-78 | the `StringBuilder` loop builds exactly the specified block |
| DependencyXml.MissingFieldSkipsGenerator | DependencyTreeController.java:48-50 | a missing groupId, artifactId or version gives the fixed message, and Maven's behaviour does not affect it |
| DependencyXml.CompleteDependencyTree | DependencyTreeController.java:44-81 | with all three fields, the answer is the generator's report for the POM they and the block produce |
| DependencyXml.GenerateDependencyTree | DependencyTreeController.java:34-86 | the endpoint returns exactly the specified response, including the parser-error and generator-error messages |
| NpmDependency.PackageKeySeparatesVersions | NpmDependencyController.java:40 | for one package, two lookups share a cache key exactly when they ask for the same version (null and empty are the same) |
| NpmDependency.PackageUrlSeparatesVersions | NpmDependencyController.java:48-51 | for one package, two lookups fetch the same URL exactly when they ask for the same version |
| NpmDependency.VersionlessBucket | NpmDependencyController.java:40-51 | a null and an empty version both use the bare name as key and the URL without a version |
| NpmDependency.LatestVersionDependencies | NpmDependencyController.java:60-62 | without a version, the dependencies come from `versions[dist-tags.latest]`, whatever else `dist-tags` and `versions` hold |
| NpmDependency.EscapeQuotesRoundTrip | NpmDependencyController.java:75-76 | `UnescapeQuotes` undoes `EscapeQuotes`: the quote escaping loses no text of the exception message |
| NpmDependency.EscapedQuotesArePreceded | NpmDependencyController.java:75-76 | every double quote in the output of `EscapeQuotes` follows a backslash; that backslash may be one of the message's own, since backslashes are not escaped |
| NpmDependency.AnswerOf | NpmDependencyController.java:53-77 | an answer is cached exactly when the registry returned a body; a null body gives the "Package not found" message, and a failure gives the error JSON with the escaped message |
| NpmDependency.NoDependenciesAnswer | NpmDependencyController.java:65-66 | a body whose dependencies are missing or empty is answered, and cached, with the fixed message |
| NpmDependency.DependenciesAnswer | NpmDependencyController.java:67-68 | a body with dependencies is answered, and cached, with their serialisation |
| NpmDependency.CheckCacheHit | NpmDependencyController.java:80-87 | there is a hit exactly when an answer and a timestamp exist and the entry is strictly younger than 60 minutes; a hit changes nothing |
| NpmDependency.CheckCacheEvicts | NpmDependencyController.java:87-90 | a stale or unstamped entry is removed from both maps, and every other key keeps its entries |
| NpmDependency.CheckCacheAbsent | NpmDependencyController.java:81-92 | looking up an absent key returns null and changes neither map |
| NpmDependency.StoredAnswerLifetime | NpmDependencyController.java:84-98 | a stored answer is served while less than 60 minutes have passed, and removed from then on |
| NpmDependency.CacheResultOthers | NpmDependencyController.java:95-98 | storing an answer changes the lookup of no other key |
| NpmDependency.ConsistencyPreserved | NpmDependencyController.java:80-98 | both cache operations keep the two maps on the same key set |
| NpmDependency.HitSkipsRegistry | NpmDependencyController.java:42-45 | a fresh entry is returned unchanged, and the registry's behaviour does not affect it |
| NpmDependency.UncachedAnswers | NpmDependencyController.java:55-57 | when the key is not served from the cache, a failed or bodiless fetch stores nothing: only the eviction done by `checkCache` applies |
| NpmDependency.RepeatWithinHour | NpmDependencyController.java:39-98 | after a cached answer, asking again within the hour gives the same answer and state, and the registry's behaviour does not affect it |
| NpmDependency.NpmDependencyController.constructor | NpmDependencyController.java:18-20 | both maps start empty and consistent |
| NpmDependency.NpmDependencyController.CheckCache | NpmDependencyController.java:80-93 | the method returns the specified hit and leaves the maps as specified; it keeps the maps consistent |
| NpmDependency.NpmDependencyController.CacheResult | NpmDependencyController.java:95-98 | the method stores the answer and the time under the key; it keeps the maps consistent |
| NpmDependency.NpmDependencyController.GetNpmDependencyTree | NpmDependencyController.java:39-78 | the answer and the new maps are exactly those of the specified lookup; the maps stay consistent |
| VulnerabilityService.ParsedTokenIsValid | NPMVulnerabitlityService.java:95 | every token read from a line has `[\w.-]+` fields and a `[\d.]+` version |
| VulnerabilityService.ParseLineShape | NPMVulnerabitlityService.java:95 | a line of whitespace, tree glyphs, five fields and a non-field tail gives its token exactly when the version holds only digits and dots |
| VulnerabilityService.ParsedLineShape | NPMVulnerabitlityService.java:95 | conversely, every line that gives a token is whitespace, glyphs, that token's five valid fields (the group not starting with `-`) and a tail that cannot extend the last field |
| VulnerabilityService.FlowableLine | NPMVulnerabitlityService.java:95-103 | a transitive line, indented by a bar and `+-`, for `org.flowable:flowable-engine:jar:7.1.0:compile` gives its token |
| VulnerabilityService.FlowableCoordinate | NPMVulnerabitlityService.java:103 | the Flowable line contributes `pkg:maven/org.flowable/flowable-engine@7.1.0`: packaging and scope are dropped |
| VulnerabilityService.SnapshotLine | NPMVulnerabitlityService.java:95 | a line with version `2.0-SNAPSHOT` gives no coordinate |
| VulnerabilityService.EmptyLineHasNoCoordinate | NPMVulnerabitlityService.java:95 | an empty line gives no coordinate |
| VulnerabilityService.NoColonLine | NPMVulnerabitlityService.java:95 | a line without a colon gives no coordinate |
| VulnerabilityService.MavenCoordinateRoundTrip | NPMVulnerabitlityService.java:103 | group, artifact and version can be read back out of `pkg:maven/<g>/<a>@<v>` |
| VulnerabilityService.MavenCoordinateInjective | NPMVulnerabitlityService.java:103 | two tokens give the same coordinate exactly when their group, artifact and version agree |
| VulnerabilityService.MavenCoordinatesAppend | NPMVulnerabitlityService.java:99-106 | the coordinates of concatenated lines are the concatenated coordinates, in line order |
| VulnerabilityService.MavenCoordinatesMembers | NPMVulnerabitlityService.java:99-106 | a coordinate is collected exactly when some line matches and gives it |
| VulnerabilityService.MavenCoordinatesAreValid | NPMVulnerabitlityService.java:95-104 | every collected coordinate comes from a valid token |
| VulnerabilityService.ExtractMavenCoordinates | NPMVulnerabitlityService.java:93-106 | the match loop collects exactly the specified coordinates of the tree's lines |
| VulnerabilityService.GeneratedTreeCoordinates | NPMVulnerabitlityService.java:94-106 | on a report of the generator, the coordinates are those of the kept tree lines |
| VulnerabilityService.NoColonNoCoordinates | NPMVulnerabitlityService.java:94-106 | a text without a colon yields no coordinate |
| VulnerabilityService.InvalidInputHasNoColon | DependencyTreeGenerator.java:9 | the generator's refusal message holds no colon |
| VulnerabilityService.BatchesFlatten | NPMVulnerabitlityService.java:116-117 | batching loses, repeats and reorders no coordinate |
| VulnerabilityService.BatchesCount | NPMVulnerabitlityService.java:116 | the number of requests is the number of coordinates divided by 128, rounded up |
| VulnerabilityService.BatchesAt | NPMVulnerabitlityService.java:116-117 | batch i is `subList(128·i, min(128·i + 128, size))` |
| VulnerabilityService.BatchSizes | NPMVulnerabitlityService.java:116-117 | every batch is non-empty and holds at most 128 coordinates; all but the last hold exactly 128 |
| VulnerabilityService.ThreeHundredCoordinates | NPMVulnerabitlityService.java:116-117 | 300 coordinates are sent as 128, 128 and 44 |
| VulnerabilityService.PayloadRoundTrip | NPMVulnerabitlityService.java:40-42 | a payload names exactly its batch, in order, when no coordinate holds a comma |
| VulnerabilityService.MavenPayloadsAreFaithful | NPMVulnerabitlityService.java:40-42 | every Maven request can be read back as exactly its batch |
| VulnerabilityService.EnvelopeOf | NPMVulnerabitlityService.java:28-72 | the map has `result` exactly for a 200 that decodes, and then holds nothing else; without `result` it has `error`; it has `responseCode` exactly when a status arrived and there is no `result` |
| VulnerabilityService.ResponseCodeReadsBack | NPMVulnerabitlityService.java:57 | a recorded `responseCode` reads back as the status received |
| VulnerabilityService.StatusErrorNamesCode | NPMVulnerabitlityService.java:64-66 | a non-200 status gives the error "Received response code " followed by the same code as `responseCode` |
| VulnerabilityService.UnavailableBatch | NPMVulnerabitlityService.java:56-66 | a batch answered with 503 adds a single error map, with code "503" and message "Received response code 503" |
| VulnerabilityService.FindingEntriesShape | NPMVulnerabitlityService.java:122 | `addAll` appends the reports one for one, in order |
| VulnerabilityService.ContributionShape | NPMVulnerabitlityService.java:119-125 | a failed batch adds exactly its own error map; a successful batch adds exactly its reports |
| VulnerabilityService.MergeAppend | NPMVulnerabitlityService.java:115-126 | merging concatenated answers is concatenating the merges, so batch order is kept |
| VulnerabilityService.MergeMembers | NPMVulnerabitlityService.java:119-125 | an entry is in the list exactly when it is a report of a successful batch or the error map of a failed one |
| VulnerabilityService.EnvelopesAppend | NPMVulnerabitlityService.java:116-118 | the requests for concatenated batch lists are the concatenated requests, in order |
| VulnerabilityService.PendingStep | NPMVulnerabitlityService.java:116-125 | one turn of the loop requests the slice at the cursor, and its answer comes before all later ones |
| VulnerabilityService.FetchBatches | NPMVulnerabitlityService.java:115-128 | the batching loop returns exactly the merge of the answers to the batches, in batch order |
| VulnerabilityService.CollectCoordinates | NPMVulnerabitlityService.java:91-112 | the coordinate list is Maven's, from the given tree or the generator's, or the single npm coordinate |
| VulnerabilityService.FetchVulnerabilities | NPMVulnerabitlityService.java:88-129 | the result is exactly the specified merged list, or the generator's exception |
| VulnerabilityService.FetchMavenVulnerabilities | NPMVulnerabitlityService.java:76-79 | a Maven lookup always generates the tree |
| VulnerabilityService.FetchNpmVulnerabilities | NPMVulnerabitlityService.java:82-85 | an npm lookup has no group and no tree |
| VulnerabilityService.NpmSingleRequest | NPMVulnerabitlityService.java:107-112 | an npm lookup is one request for `pkg:npm/<name>@<version>`, and Maven is never run |
| VulnerabilityService.InvalidMavenLookupIsEmpty | NPMVulnerabitlityService.java:93-106 | a Maven lookup with a missing field sends no request and returns an empty list |

## Left out

- EscapeQuotes: only double quotes are escaped, as in the source. Backslashes and control characters are left as they are, so the `details` text is not always a valid JSON string: a message holding `\"` becomes `\\"`, whose quote ends the string. The model states what the escaping does and does not claim valid JSON.
- HTTP, Gson, Jackson parsing, the `mvn` process, the temporary `pom.xml` file and XML parsing are not modelled. Each is a parameter that maps the request (payload, URL, POM text) to its outcome, or the parser's document element is received as input.
- Logging (`System.out.println`, `printStackTrace`), Spring wiring and the `@Bean` method are not modelled. They do not affect any returned value.
- The clock: `System.currentTimeMillis()` is two parameters, one reading when the cache is consulted and one when an answer is stored. The cache maps are `ConcurrentHashMap`s; concurrent access is not modelled.
- `fetchMavenVulnerabilitiesParallel`, `fetchNpmVulnerabilitiesParallel` and `fetchVulnerabilitiesParallel` are not modelled. They group by `indexOf` and merge in an unspecified order.
- `generateNpmDependencyTree` is not modelled. It is the HTTP wrapper that turns an exception from `getNpmDependencyTree` into a 500, and the model's `getNpmDependencyTree` catches every failure itself.
- ParseLine: the match is read one line at a time. Optional whitespace and tree glyphs are skipped, then the longest run of `[\w.:-]` must split at colons into exactly five fields. Java's `find()` can also match inside a line with six or more fields, for example a classifier, and start at a later field. It can match more than once on a line, and `\s*` can run across a newline. Text other than whitespace and glyphs before the fields is not skipped either: for `[WARNING] +- g:a:jar:1.0:compile` Java's `find()` matches, while the model gives no token. These cases are not modelled. Maven's five-field tree lines give the same coordinate either way.
- ParseLine: the version group `[\d.]+` is taken to be the whole fourth field. This is what it is whenever a colon follows it.
- A null exception message is not modelled. `Result.Failure` and `RegistryReply.Failed` carry a non-null message, while Java would print `null` or, in the npm error path, throw a `NullPointerException` on `replace`. The OSS Index error path does model a null message (`JavaString`).
- Gson decoding a 200 body to `null` (an empty document) is not modelled. Java would then throw on `addAll(null)`. The model treats a 200 body as either a list of reports or undecodable.
- A null `PackageType` is not modelled; the caller always passes `MAVEN` or `NPM`.
- The per-batch `HashMap` is a value (`Envelope`) with its three keys, not a map mutated in place. The report objects are opaque string maps.
- Integer widths: the timestamp difference is taken on unbounded integers, so `long` overflow is not modelled. Status codes are unbounded integers.
- The text blocks are modelled after Java removes their incidental indentation. Their exact whitespace is taken from the source, but it is not derived from the source's indentation.
- A 404 from the npm registry makes `RestTemplate` throw. The code then answers with the error JSON and caches nothing, and the model follows the code here.
