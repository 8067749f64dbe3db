# Gradle notation conversion, modelled in Dafny

This project models the part of Gradle that turns a loosely typed "notation"
into a typed object. It covers four pieces:

- `GetPropertyResult`, the Found/NotFound result of a property lookup
  (`get_property_result.dfy`, module `PropertyResult`).
- `SimpleMapNotationConverter`, the base of converters from `Map` notations.
  It provides `getString` and `checkMandatoryKeys`
  (`simple_map_notation_converter.dfy`).
- `DependencyMapNotationConverter`, which reads `group`, `name`, `version`,
  `configuration`, `ext` and `classifier` from a map
  (`dependency_map_notation_converter.dfy`).
- `MavenArtifactNotationParserFactory`, which builds the Maven artifact
  parsers (`maven_artifact_notation_parser_factory.dfy`). The outer parser
  tries its converters in this order: archive task, publish artifact,
  `[source: ...]` map, file. The map converter hands its `source` entry to a
  second parser, which has the same converters minus the map converter. The
  file converter takes the extension from the file name, using commons-lang
  `StringUtils.substringAfterLast` (`string_utils.dfy`).

A notation is a `Notations.Value`. It can be null, text, a number, a string-keyed
map, an archive task, a publish artifact, a file, or some other object.
Conversion errors are structured values, not formatted messages:

- `MissingKeys(missing, args)` is `InvalidUserDataException`. It carries the
  whole set of missing keys and the map.
- `NoMatch(notation, candidates)` is `UnsupportedNotationException`. It carries
  every candidate description of the parser that found no match.

The builder, `TypedNotationConverter` and the composite converter are not part
of this model. They are replaced by one composite: try the converters in
registration order; the first whose `Accepts` holds gives the outcome,
success or failure; if none accepts, fail with `NoMatch`. A converter's
description is a list of (name, optional example) pairs: the `Describe`
functions, with the Maven converters' entries in the constants
`ArchiveTaskDescription`, `PublishArtifactDescription` and `MapDescription`.

Abstract collaborators are parameters:

- `show: Value -> string` stands for Java's `toString()`.
- A `FileResolver` stands for the file resolver's notation parser. It has a
  `resolve: Value -> Option<File>` function and a description.

`DependencyMapNotationConverter.parseMap`
(subprojects/dependency-management/src/main/java/org/gradle/api/internal/notations/DependencyMapNotationConverter.java:41-46)
checks no mandatory key, so `{name: "gradle-core"}` converts with the group
absent rather than failing. The lemma `ParseWithoutGroup` states this.

`checkMandatoryKeys` removes keys from a fresh copy of the mandatory keys. In
the model, maps are values, so the caller's map cannot change.

## Model

| member | source | states |
|---|---|---|
| `PropertyResult.FoundResult` | subprojects/core/src/main/java/org/gradle/internal/metaobject/GetPropertyResult.java:21-23 | `found(v)` reports found and reads back exactly `v` |
| `PropertyResult.NotFoundResult` | subprojects/core/src/main/java/org/gradle/internal/metaobject/GetPropertyResult.java:25-27 | `notFound()` reports not found |
| `PropertyResult.GetPropertyResult.IsFound` | subprojects/core/src/main/java/org/gradle/internal/metaobject/GetPropertyResult.java:34-66 | `isFound()` is false exactly for the `NotFound` instance and true for every `Found` |
| `PropertyResult.GetPropertyResult.GetValue` | subprojects/core/src/main/java/org/gradle/internal/metaobject/GetPropertyResult.java:39-42 | the value can be read only from a found result (NotFound throws), and it is the wrapped constructor argument |
| `PropertyResult.FoundNullIsFound` | subprojects/core/src/main/java/org/gradle/internal/metaobject/GetPropertyResult.java:54-66 | a found null is still found and reads back as null |
| `PropertyResult.NotFoundIsSingleton` | subprojects/core/src/main/java/org/gradle/internal/metaobject/GetPropertyResult.java:36-47 | a result is not found exactly when it is the one `notFound()` instance |
| `PropertyResult.FoundIsInjective` | subprojects/core/src/main/java/org/gradle/internal/metaobject/GetPropertyResult.java:52-61 | `FoundResult(v)` determines `v`: the wrapped value is recoverable from the result (a fact about values; Java's `Found` has no `equals`) |
| `SimpleMapNotationConverter.Describe` | subprojects/core/src/main/java/org/gradle/internal/typeconversion/SimpleMapNotationConverter.java:44-47 | the default description is the single candidate "Maps", without an example |
| `SimpleMapNotationConverter.Accepts` | subprojects/core/src/main/java/org/gradle/internal/typeconversion/SimpleMapNotationConverter.java:39-41 | the converter is bound to `Map`: only map notations are accepted, never null |
| `SimpleMapNotationConverter.ParseType` | subprojects/core/src/main/java/org/gradle/internal/typeconversion/SimpleMapNotationConverter.java:39-53 | only map notations are accepted, and an accepted map goes unchanged to `parseMap` |
| `SimpleMapNotationConverter.GetString` | subprojects/core/src/main/java/org/gradle/internal/typeconversion/SimpleMapNotationConverter.java:57-61 | absent iff the key is missing, maps to null, or its string is exactly ""; otherwise the string unchanged, whitespace included; never `Some("")` |
| `SimpleMapNotationConverter.CheckMandatory` | subprojects/core/src/main/java/org/gradle/internal/typeconversion/SimpleMapNotationConverter.java:63-69 | passes iff every mandatory key is a key of the map; on failure names exactly the mandatory keys not in the map, together with the map |
| `SimpleMapNotationConverter.CheckMandatoryKeys` | subprojects/core/src/main/java/org/gradle/internal/typeconversion/SimpleMapNotationConverter.java:63-69 | building the missing set and shrinking it by the key set gives exactly the outcome `CheckMandatory` specifies |
| `SimpleMapNotationConverter.CheckMandatoryDependsOnKeySet` | subprojects/core/src/main/java/org/gradle/internal/typeconversion/SimpleMapNotationConverter.java:64 | duplicate or reordered mandatory keys give the same outcome |
| `SimpleMapNotationConverter.CheckMandatoryReadsKeysOnly` | subprojects/core/src/main/java/org/gradle/internal/typeconversion/SimpleMapNotationConverter.java:65 | only the key set is consulted: a key mapped to null counts as present |
| `DependencyMapNotationConverter.Describe` | subprojects/dependency-management/src/main/java/org/gradle/api/internal/notations/DependencyMapNotationConverter.java:36-39 | the description is the single candidate "Maps" with the group/name/version example |
| `DependencyMapNotationConverter.ParseMap` | subprojects/dependency-management/src/main/java/org/gradle/api/internal/notations/DependencyMapNotationConverter.java:42-46 | group, name, version and configuration are `getString` of their keys; the explicit artifact's extension comes from `ext` and its classifier from `classifier` |
| `DependencyMapNotationConverter.Convert` | subprojects/dependency-management/src/main/java/org/gradle/api/internal/notations/DependencyMapNotationConverter.java:26 | as a map converter it accepts exactly the map notations and converts each with `ParseMap` |
| `DependencyMapNotationConverter.ParseMapReadsOnlyItsKeys` | subprojects/dependency-management/src/main/java/org/gradle/api/internal/notations/DependencyMapNotationConverter.java:43-44 | two maps that agree on the six keys give the same dependency |
| `DependencyMapNotationConverter.ParseMapFieldAbsence` | subprojects/dependency-management/src/main/java/org/gradle/api/internal/notations/DependencyMapNotationConverter.java:43-44 | a field is absent iff its key is missing, maps to null or shows as "" |
| `DependencyMapNotationConverter.ParseGroupNameVersion` | subprojects/dependency-management/src/main/java/org/gradle/api/internal/notations/DependencyMapNotationConverter.java:42-46 | `[group: 'org.gradle', name: 'gradle-core', version: '1.0']` gives those three fields, with configuration, extension and classifier absent |
| `DependencyMapNotationConverter.ParseWithoutGroup` | subprojects/dependency-management/src/main/java/org/gradle/api/internal/notations/DependencyMapNotationConverter.java:41-46 | a map without `group` is not rejected; it converts with the group absent |
| `DependencyMapNotationConverter.WhitespaceVersionIsKept` | subprojects/dependency-management/src/main/java/org/gradle/api/internal/notations/DependencyMapNotationConverter.java:43 | a version of " " is kept as " " |
| `StringUtils.LastIndexOf` | subprojects/maven/src/main/java/org/gradle/api/publish/maven/internal/artifact/MavenArtifactNotationParserFactory.java:113 | -1 iff the character does not occur; otherwise an occurrence with none after it |
| `StringUtils.SubstringAfterLast` | subprojects/maven/src/main/java/org/gradle/api/publish/maven/internal/artifact/MavenArtifactNotationParserFactory.java:113 | the result has no separator; it is "" when the name has none; otherwise name = prefix + separator + result |
| `StringUtils.ExtensionOfReportZip` | subprojects/maven/src/main/java/org/gradle/api/publish/maven/internal/artifact/MavenArtifactNotationParserFactory.java:113 | the text after the last `.` of "report.zip" is "zip" |
| `StringUtils.ExtensionOfFileZip` | subprojects/maven/src/main/java/org/gradle/api/publish/maven/internal/artifact/MavenArtifactNotationParserFactory.java:113 | the text after the last `.` of "file.zip" is "zip" |
| `StringUtils.NoExtensionWithoutDot` | subprojects/maven/src/main/java/org/gradle/api/publish/maven/internal/artifact/MavenArtifactNotationParserFactory.java:113 | a name without `.` has extension "" |
| `StringUtils.ExtensionOfArchiveTarGz` | subprojects/maven/src/main/java/org/gradle/api/publish/maven/internal/artifact/MavenArtifactNotationParserFactory.java:113 | only the text after the last `.` counts: "archive.tar.gz" gives "gz" |
| `StringUtils.LastDotAt` | subprojects/maven/src/main/java/org/gradle/api/publish/maven/internal/artifact/MavenArtifactNotationParserFactory.java:113 | when the last `.` is at position k, the extension is the rest of the name after k |
| `MavenArtifactNotationParserFactory.SourceParser` | subprojects/maven/src/main/java/org/gradle/api/publish/maven/internal/artifact/MavenArtifactNotationParserFactory.java:51-56 | the source parser is archive task, publish artifact, file, in that order, and holds no map converter |
| `MavenArtifactNotationParserFactory.Create` | subprojects/maven/src/main/java/org/gradle/api/publish/maven/internal/artifact/MavenArtifactNotationParserFactory.java:46-68 | the outer parser is archive task, publish artifact, the map converter over the source parser, then the file converter; removing the map converter gives the source parser's list |
| `MavenArtifactNotationParserFactory.Accepts` | subprojects/maven/src/main/java/org/gradle/api/publish/maven/internal/artifact/MavenArtifactNotationParserFactory.java:51-65 | the typed converters never accept null; the file converter accepts exactly what the resolver turns into a file |
| `MavenArtifactNotationParserFactory.ParseNotation` | subprojects/maven/src/main/java/org/gradle/api/publish/maven/internal/artifact/MavenArtifactNotationParserFactory.java:51-67 | the first converter in registration order that accepts decides the outcome; if none accepts, the parse fails listing the whole parser's description |
| `MavenArtifactNotationParserFactory.Convert` | subprojects/maven/src/main/java/org/gradle/api/publish/maven/internal/artifact/MavenArtifactNotationParserFactory.java:70-134 | every converter but the map converter succeeds, with the task's archive, the artifact's file or the resolved file; the file artifact has no classifier; the map converter's outcome is its `parseMap` |
| `MavenArtifactNotationParserFactory.ArchiveTaskArtifact` | subprojects/maven/src/main/java/org/gradle/api/publish/maven/internal/artifact/MavenArtifactNotationParserFactory.java:70-77 | the artifact has the task's archive path, extension and classifier, and is built by the task |
| `MavenArtifactNotationParserFactory.PublishArtifactArtifact` | subprojects/maven/src/main/java/org/gradle/api/publish/maven/internal/artifact/MavenArtifactNotationParserFactory.java:85-92 | the artifact has the publish artifact's file, extension and classifier, and is built by its build dependencies |
| `MavenArtifactNotationParserFactory.ParseMap` | subprojects/maven/src/main/java/org/gradle/api/publish/maven/internal/artifact/MavenArtifactNotationParserFactory.java:130-134 | a map without `source` fails naming exactly `{"source"}` and the map; with it, the outcome is the source parser's on the entry |
| `MavenArtifactNotationParserFactory.Describe` | subprojects/maven/src/main/java/org/gradle/api/publish/maven/internal/artifact/MavenArtifactNotationParserFactory.java:79-139 | the file converter's description is exactly the resolver's; every other converter contributes one named candidate |
| `MavenArtifactNotationParserFactory.DescribeAll` | subprojects/maven/src/main/java/org/gradle/api/publish/maven/internal/artifact/MavenArtifactNotationParserFactory.java:60-65 | no converters describe nothing, and a single converter's composite describes exactly as that converter (each position in general: `DescribeAllSplit`) |
| `MavenArtifactNotationParserFactory.FirstAccepting` | subprojects/maven/src/main/java/org/gradle/api/publish/maven/internal/artifact/MavenArtifactNotationParserFactory.java:51-67 | finds the first converter in registration order that accepts, or reports that none does |
| `MavenArtifactNotationParserFactory.ParseFile` | subprojects/maven/src/main/java/org/gradle/api/publish/maven/internal/artifact/MavenArtifactNotationParserFactory.java:112-115 | the artifact keeps the file and has no classifier; its extension has no `.`, is "" without a `.`, and is the name's text after its last `.` |
| `MavenArtifactNotationParserFactory.ParseNotationFirstMatch` | subprojects/maven/src/main/java/org/gradle/api/publish/maven/internal/artifact/MavenArtifactNotationParserFactory.java:60-67 | the first accepting converter's outcome, even a failure, is the parse's outcome |
| `MavenArtifactNotationParserFactory.ParseNotationNoMatch` | subprojects/maven/src/main/java/org/gradle/api/publish/maven/internal/artifact/MavenArtifactNotationParserFactory.java:60-67 | when no converter accepts, the parse fails listing the whole parser's description |
| `MavenArtifactNotationParserFactory.EmptyParserRejectsAll` | subprojects/maven/src/main/java/org/gradle/api/publish/maven/internal/artifact/MavenArtifactNotationParserFactory.java:60-67 | a parser with no converters rejects every notation |
| `MavenArtifactNotationParserFactory.DescribeAllSplit` | subprojects/maven/src/main/java/org/gradle/api/publish/maven/internal/artifact/MavenArtifactNotationParserFactory.java:60-65 | each converter's description appears in the composite's at its registration position |
| `MavenArtifactNotationParserFactory.CreateDescription` | subprojects/maven/src/main/java/org/gradle/api/publish/maven/internal/artifact/MavenArtifactNotationParserFactory.java:79-139 | the outer parser describes archive tasks, publish artifacts, maps with a 'source' entry, then exactly the file resolver's description |
| `MavenArtifactNotationParserFactory.SourceParserHasNoMapConverter` | subprojects/maven/src/main/java/org/gradle/api/publish/maven/internal/artifact/MavenArtifactNotationParserFactory.java:51-56 | the source parser contains no map converter, and its description omits the map entry |
| `MavenArtifactNotationParserFactory.CreateParsesArchiveTask` | subprojects/maven/src/main/java/org/gradle/api/publish/maven/internal/artifact/MavenArtifactNotationParserFactory.java:71-77 | an archive task gives its archive path, extension and classifier, built by the task |
| `MavenArtifactNotationParserFactory.CreateParsesPublishArtifact` | subprojects/maven/src/main/java/org/gradle/api/publish/maven/internal/artifact/MavenArtifactNotationParserFactory.java:86-92 | a publish artifact gives its file, extension and classifier, built by its build dependencies |
| `MavenArtifactNotationParserFactory.CreateParsesMap` | subprojects/maven/src/main/java/org/gradle/api/publish/maven/internal/artifact/MavenArtifactNotationParserFactory.java:130-134 | a map without `source` fails naming exactly `{"source"}`; a map with it has the source parser's outcome on the entry, errors included |
| `MavenArtifactNotationParserFactory.CreateMapIgnoresOtherKeys` | subprojects/maven/src/main/java/org/gradle/api/publish/maven/internal/artifact/MavenArtifactNotationParserFactory.java:131-134 | maps with the same `source` entry give the same outcome, whatever else they hold (`extension` too) |
| `MavenArtifactNotationParserFactory.CreateParsesOther` | subprojects/maven/src/main/java/org/gradle/api/publish/maven/internal/artifact/MavenArtifactNotationParserFactory.java:107-110 | any other notation is a file artifact when the resolver yields a file, otherwise fails listing all four descriptions |
| `MavenArtifactNotationParserFactory.SourceParserParses` | subprojects/maven/src/main/java/org/gradle/api/publish/maven/internal/artifact/MavenArtifactNotationParserFactory.java:51-56 | the source parser converts tasks and artifacts as the outer one does; anything else, a nested map included, is a file or fails without the map entry |
| `MavenArtifactNotationParserFactory.SourceParserResolvesFile` | subprojects/maven/src/main/java/org/gradle/api/publish/maven/internal/artifact/MavenArtifactNotationParserFactory.java:51-56 | a text notation the resolver turns into a file becomes that file's artifact under the source parser |
| `MavenArtifactNotationParserFactory.ParseReportZip` | subprojects/maven/src/main/java/org/gradle/api/publish/maven/internal/artifact/MavenArtifactNotationParserFactory.java:107-115 | a notation resolving to `report.zip` gives extension "zip" and no classifier |
| `MavenArtifactNotationParserFactory.ParseSourceMap` | subprojects/maven/src/main/java/org/gradle/api/publish/maven/internal/artifact/MavenArtifactNotationParserFactory.java:131-134 | `[source: '/path/to/file.zip']` is resolved through the file converter to extension "zip" |
| `MavenArtifactNotationParserFactory.ParseUnsupportedNumber` | subprojects/maven/src/main/java/org/gradle/api/publish/maven/internal/artifact/MavenArtifactNotationParserFactory.java:60-67 | an unsupported number fails listing the task, artifact, map and file shapes in order |

## Left out

- `Instantiator.newInstance` and `DefaultMavenArtifact` construction are reflection back-ends. They are replaced by record constructors, so construction failures are not modelled.
- `ModuleFactoryHelper.addExplicitArtifactsIfDefined` is not part of this model. The dependency records only the (extension, classifier) pair handed to it.
- `FileResolver.asNotationParser()` and `java.io.File` path resolution are filesystem behaviour. They are the abstract `FileResolver`. A notation it does not resolve makes the file converter not applicable. In Gradle that case throws `UnsupportedNotationException`, which the outer parser reports as no match; the model gets the same outcome because the file converter comes last.
- `NotationParserBuilder`, `TypedNotationConverter`, the composite converter and the parser's error handler are not part of this model. That includes the handler's rejection of a null notation and the wrapping of nested failures. An inner failure propagates unchanged.
- `NotationConvertResult` is a result sink. Each `convert` is modelled as returning its artifact instead of writing it into the sink.
- `builtBy` is modelled as a tag list on the artifact, not as task-dependency wiring.
- The text of the `String.format` message and `DiagnosticsVisitor` rendering are left out, because `HashSet` iteration order makes the text nondeterministic. Errors and descriptions are structured values.
- `toString()` is the abstract parameter `show`. A `toString()` that returns null is not modelled.
- `StringUtils.SubstringAfterLast`: only a single-character separator is modelled, the only one the core uses, so commons-lang's empty-separator branch does not arise.
- Map keys are strings. A raw `Map` with keys of other types, which the unchecked cast in `parseType` admits, is not modelled.
