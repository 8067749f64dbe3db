/**
 * MavenArtifactNotationParserFactory: the parser that turns an archive task,
 * a publish artifact, a `[source: ...]` map or a file notation into a Maven
 * artifact. A composite parser tries its converters in registration order;
 * the first that accepts the notation decides the outcome, success or
 * failure, and when none accepts the parse fails listing every converter's
 * description.
 */
module MavenArtifactNotationParserFactory {
  import opened Wrappers
  import opened Notations
  import SimpleMap = SimpleMapNotationConverter
  import StringUtils

  /** Where a built artifact comes from (`DefaultMavenArtifact.builtBy`). */
  datatype BuildSource = ByTask(task: ArchiveTask) | ByDependencies(dependencies: nat)

  /** A DefaultMavenArtifact: file, extension, classifier and what it is built by. */
  datatype MavenArtifact = MavenArtifact(
    file: File,
    extension: Option<string>,
    classifier: Option<string>,
    builtBy: seq<BuildSource>)

  /**
   * `FileResolver.asNotationParser()`, left abstract: which notations it
   * resolves to a file, and how it describes itself.
   */
  datatype FileResolver = FileResolver(resolve: Value -> Option<File>, description: seq<Candidate>)

  datatype Converter =
    | ArchiveTaskConverter
    | PublishArtifactConverter
    | FileConverter(resolver: FileResolver)
      /** Holds the parser its `source` entry is handed to. */
    | MapConverter(sourceParser: Parser)

  /** A composite notation parser: its converters in registration order. */
  datatype Parser = Composite(converters: seq<Converter>)

  /** The parser for the value of a `source` entry: the outer candidates without the map converter. */
  function SourceParser(resolver: FileResolver): (p: Parser)
    ensures |p.converters| == 3
    ensures p.converters[0].ArchiveTaskConverter? && p.converters[1].PublishArtifactConverter?
    ensures p.converters[2] == FileConverter(resolver)
    ensures forall j :: 0 <= j < |p.converters| ==> !p.converters[j].MapConverter?
  {
    Composite([ArchiveTaskConverter, PublishArtifactConverter, FileConverter(resolver)])
  }

  /** `create()`: archive task, publish artifact, map, file, in that order. */
  function Create(resolver: FileResolver): (p: Parser)
    ensures |p.converters| == 4
    ensures p.converters[0].ArchiveTaskConverter? && p.converters[1].PublishArtifactConverter?
    ensures p.converters[2] == MapConverter(SourceParser(resolver))
    ensures p.converters[3] == FileConverter(resolver)
    ensures p.converters[..2] + p.converters[3..] == SourceParser(resolver).converters
  {
    Composite([ArchiveTaskConverter, PublishArtifactConverter, MapConverter(SourceParser(resolver)), FileConverter(resolver)])
  }

  const ArchiveTaskDescription: seq<Candidate> := [Candidate("Instances of AbstractArchiveTask", Some("jar"))]
  const PublishArtifactDescription: seq<Candidate> := [Candidate("Instances of PublishArtifact", None)]
  const MapDescription: seq<Candidate> :=
    [Candidate("Maps containing a 'source' entry", Some("[source: '/path/to/file', extension: 'zip']"))]

  /** What a converter contributes to diagnostics; the file converter passes on the resolver's. */
  function Describe(c: Converter): (d: seq<Candidate>)
    ensures c.FileConverter? ==> d == c.resolver.description
    ensures !c.FileConverter? ==> |d| == 1 && d[0].name != ""
  {
    match c
    case ArchiveTaskConverter => ArchiveTaskDescription
    case PublishArtifactConverter => PublishArtifactDescription
    case FileConverter(resolver) => resolver.description
    case MapConverter(_) => MapDescription
  }

  /** A composite's description: its converters' descriptions in registration order. */
  function DescribeAll(cs: seq<Converter>): (d: seq<Candidate>)
    ensures cs == [] ==> d == []
    ensures |cs| == 1 ==> d == Describe(cs[0])
  {
    if cs == [] then [] else Describe(cs[0]) + DescribeAll(cs[1..])
  }

  /**
   * Whether a converter applies to a notation: the typed converters check
   * the runtime type, the file converter applies when the resolver yields
   * a file.
   */
  predicate Accepts(c: Converter, notation: Value)
    ensures Accepts(c, notation) && !c.FileConverter? ==> notation != Null
    ensures c.FileConverter? ==> (Accepts(c, notation) <==> c.resolver.resolve(notation).Some?)
  {
    match c
    case ArchiveTaskConverter => notation.ArchiveTaskValue?
    case PublishArtifactConverter => notation.PublishArtifactValue?
    case FileConverter(resolver) => resolver.resolve(notation).Some?
    case MapConverter(_) => SimpleMap.Accepts(notation)
  }

  /** The position of the first converter, in registration order, that accepts the notation. */
  function FirstAccepting(cs: seq<Converter>, notation: Value): (r: Option<nat>)
    ensures r.None? <==> forall j :: 0 <= j < |cs| ==> !Accepts(cs[j], notation)
    ensures r.Some? ==> r.value < |cs| && Accepts(cs[r.value], notation)
    ensures r.Some? ==> forall j :: 0 <= j < r.value ==> !Accepts(cs[j], notation)
  {
    if cs == [] then None
    else if Accepts(cs[0], notation) then Some(0)
    else match FirstAccepting(cs[1..], notation)
      case None => None
      case Some(i) => Some(i + 1)
  }

  /** `parseNotation`: the first accepting converter decides; with none, the parse fails listing all shapes. */
  function ParseNotation(p: Parser, notation: Value): (r: Result<MavenArtifact, ConversionError>)
    ensures (forall j :: 0 <= j < |p.converters| ==> !Accepts(p.converters[j], notation)) ==>
              r == Failure(NoMatch(notation, DescribeAll(p.converters)))
    ensures forall i :: 0 <= i < |p.converters| && Accepts(p.converters[i], notation) &&
                        (forall j :: 0 <= j < i ==> !Accepts(p.converters[j], notation)) ==>
              r == Convert(p.converters[i], notation)
    decreases p, 1
  {
    match FirstAccepting(p.converters, notation)
    case None => Failure(NoMatch(notation, DescribeAll(p.converters)))
    case Some(k) =>
      assert forall i :: (0 <= i < |p.converters| && Accepts(p.converters[i], notation) &&
                          (forall j :: 0 <= j < i ==> !Accepts(p.converters[j], notation))) ==> i == k;
      Convert(p.converters[k], notation)
  }

  /** One converter's `convert`, called only once it accepted the notation. */
  function Convert(c: Converter, notation: Value): (r: Result<MavenArtifact, ConversionError>)
    requires Accepts(c, notation)
    ensures !c.MapConverter? ==> r.Success? && r.value.file == Artifacted(c, notation)
    ensures c.FileConverter? ==> r.value.classifier == None && r.value.builtBy == []
    ensures c.MapConverter? ==> r == ParseMap(c.sourceParser, notation.entries)
    decreases c, 0
  {
    match c
    case ArchiveTaskConverter => Success(ArchiveTaskArtifact(notation.task))
    case PublishArtifactConverter => Success(PublishArtifactArtifact(notation.artifact))
    case FileConverter(resolver) => Success(ParseFile(resolver.resolve(notation).value))
    case MapConverter(sourceParser) => ParseMap(sourceParser, notation.entries)
  }

  /** The file the artifact of a non-map converter holds: the task's archive, the artifact's file, or the resolved file. */
  function Artifacted(c: Converter, notation: Value): File
    requires Accepts(c, notation) && !c.MapConverter?
  {
    match c
    case ArchiveTaskConverter => notation.task.archivePath
    case PublishArtifactConverter => notation.artifact.file
    case FileConverter(resolver) => resolver.resolve(notation).value
  }

  /** ArchiveTaskNotationConverter: archive path, extension and classifier of the task, built by the task. */
  function ArchiveTaskArtifact(task: ArchiveTask): (a: MavenArtifact)
    ensures a.file == task.archivePath && a.extension == task.extension && a.classifier == task.classifier
    ensures a.builtBy == [ByTask(task)]
  {
    MavenArtifact(task.archivePath, task.extension, task.classifier, []).(builtBy := [ByTask(task)])
  }

  /** PublishArtifactNotationConverter: file, extension and classifier of the artifact, built by its dependencies. */
  function PublishArtifactArtifact(artifact: PublishArtifact): (a: MavenArtifact)
    ensures a.file == artifact.file && a.extension == artifact.extension && a.classifier == artifact.classifier
    ensures a.builtBy == [ByDependencies(artifact.buildDependencies)]
  {
    MavenArtifact(artifact.file, artifact.extension, artifact.classifier, []).(builtBy := [ByDependencies(artifact.buildDependencies)])
  }

  /**
   * `FileNotationConverter.parseFile`: the extension is the text after the
   * last `.` of the file name, and there is no classifier.
   */
  function ParseFile(file: File): (a: MavenArtifact)
    ensures a.file == file && a.classifier == None && a.builtBy == []
    ensures a.extension.Some? && '.' !in a.extension.value
    ensures '.' !in file.name ==> a.extension == Some("")
    ensures '.' in file.name ==>
              && |a.extension.value| < |file.name|
              && file.name == file.name[..|file.name| - |a.extension.value| - 1] + "." + a.extension.value
  {
    MavenArtifact(file, Some(StringUtils.SubstringAfterLast(file.name, '.')), None, [])
  }

  /** MavenArtifactMapNotationConverter.parseMap: `source` is mandatory and is resolved by the source parser. */
  function ParseMap(sourceParser: Parser, notation: SimpleMap.StringMap): (r: Result<MavenArtifact, ConversionError>)
    ensures "source" !in notation ==> r == Failure(MissingKeys({"source"}, notation))
    ensures "source" in notation ==> r == ParseNotation(sourceParser, notation["source"])
    decreases sourceParser, 2
  {
    match SimpleMap.CheckMandatory(notation, ["source"])
    case Fail(e) =>
      assert forall k :: k in e.missing <==> k == "source";
      assert e.missing == {"source"};
      Failure(e)
    case Pass => ParseNotation(sourceParser, notation["source"])
  }

  // Properties of the composite

  /**
   * First match wins: once converter `i` is the first to accept, its
   * outcome is the parse's outcome (even a failure), and no later
   * converter is consulted.
   */
  lemma ParseNotationFirstMatch(p: Parser, notation: Value, i: nat)
    requires i < |p.converters| && Accepts(p.converters[i], notation)
    requires forall j :: 0 <= j < i ==> !Accepts(p.converters[j], notation)
    ensures ParseNotation(p, notation) == Convert(p.converters[i], notation)
  {
  }

  /** When no converter accepts, the parse fails listing the whole parser's description. */
  lemma ParseNotationNoMatch(p: Parser, notation: Value)
    requires forall j :: 0 <= j < |p.converters| ==> !Accepts(p.converters[j], notation)
    ensures ParseNotation(p, notation) == Failure(NoMatch(notation, DescribeAll(p.converters)))
  {
  }

  /** A parser with no converters rejects every notation. */
  lemma EmptyParserRejectsAll(notation: Value)
    ensures ParseNotation(Composite([]), notation) == Failure(NoMatch(notation, []))
  {
  }

  /** Every converter's description appears, in its registration position, in the composite's. */
  lemma {:induction false} DescribeAllSplit(cs: seq<Converter>, i: nat)
    requires i < |cs|
    ensures DescribeAll(cs) == DescribeAll(cs[..i]) + Describe(cs[i]) + DescribeAll(cs[i + 1..])
  {
    if i == 0 {
      assert cs[..0] == [];
    } else {
      DescribeAllSplit(cs[1..], i - 1);
      assert cs[1..][..i - 1] == cs[1..i];
      assert cs[1..][i - 1] == cs[i];
      assert cs[1..][i..] == cs[i + 1..];
      assert cs[..i][0] == cs[0] && cs[..i][1..] == cs[1..i];
    }
  }

  /** The description of the parser `create()` builds: the four converters' in registration order. */
  lemma CreateDescription(resolver: FileResolver)
    ensures DescribeAll(Create(resolver).converters)
         == ArchiveTaskDescription + PublishArtifactDescription + MapDescription + resolver.description
  {
    var cs := Create(resolver).converters;
    assert DescribeAll(cs[3..]) == resolver.description + DescribeAll(cs[4..]);
    assert DescribeAll(cs[2..]) == MapDescription + DescribeAll(cs[3..]);
    assert DescribeAll(cs[1..]) == PublishArtifactDescription + DescribeAll(cs[2..]);
  }

  /** The source parser never contains the map converter, so a `source` value never re-enters it. */
  lemma SourceParserHasNoMapConverter(resolver: FileResolver)
    ensures forall j :: 0 <= j < |SourceParser(resolver).converters| ==> !SourceParser(resolver).converters[j].MapConverter?
    ensures DescribeAll(SourceParser(resolver).converters)
         == ArchiveTaskDescription + PublishArtifactDescription + resolver.description
  {
    var cs := SourceParser(resolver).converters;
    assert DescribeAll(cs[2..]) == resolver.description + DescribeAll(cs[3..]);
    assert DescribeAll(cs[1..]) == PublishArtifactDescription + DescribeAll(cs[2..]);
  }

  // Properties of the parser create() builds, notation shape by notation shape

  /** An archive task becomes its archive, with its extension and classifier, built by the task. */
  lemma CreateParsesArchiveTask(resolver: FileResolver, task: ArchiveTask)
    ensures ParseNotation(Create(resolver), ArchiveTaskValue(task))
         == Success(MavenArtifact(task.archivePath, task.extension, task.classifier, [ByTask(task)]))
  {
    ParseNotationFirstMatch(Create(resolver), ArchiveTaskValue(task), 0);
  }

  /** A publish artifact is copied, built by the artifact's build dependencies. */
  lemma CreateParsesPublishArtifact(resolver: FileResolver, artifact: PublishArtifact)
    ensures ParseNotation(Create(resolver), PublishArtifactValue(artifact))
         == Success(MavenArtifact(artifact.file, artifact.extension, artifact.classifier,
                                  [ByDependencies(artifact.buildDependencies)]))
  {
    ParseNotationFirstMatch(Create(resolver), PublishArtifactValue(artifact), 1);
  }

  /**
   * A map is decided by the map converter, even one the resolver could
   * turn into a file: without `source` it fails naming exactly that key;
   * with it, the outcome is the source parser's on the entry, success or
   * failure alike.
   */
  lemma CreateParsesMap(resolver: FileResolver, m: SimpleMap.StringMap)
    ensures "source" !in m ==> ParseNotation(Create(resolver), MapValue(m)) == Failure(MissingKeys({"source"}, m))
    ensures "source" in m ==> ParseNotation(Create(resolver), MapValue(m)) == ParseNotation(SourceParser(resolver), m["source"])
  {
    ParseNotationFirstMatch(Create(resolver), MapValue(m), 2);
    var c := SimpleMap.CheckMandatory(m, ["source"]);
    if "source" !in m {
      assert c.error.missing == {"source"};
    }
  }

  /** Keys other than `source`, `extension` among them, do not affect a map's outcome. */
  lemma CreateMapIgnoresOtherKeys(resolver: FileResolver, m1: SimpleMap.StringMap, m2: SimpleMap.StringMap)
    requires "source" in m1 && "source" in m2 && m1["source"] == m2["source"]
    ensures ParseNotation(Create(resolver), MapValue(m1)) == ParseNotation(Create(resolver), MapValue(m2))
  {
    CreateParsesMap(resolver, m1);
    CreateParsesMap(resolver, m2);
  }

  /**
   * Any other notation goes to the file converter: a file the resolver
   * yields becomes an artifact named after it; otherwise the parse fails
   * listing all four converters' descriptions.
   */
  lemma CreateParsesOther(resolver: FileResolver, notation: Value)
    requires !notation.ArchiveTaskValue? && !notation.PublishArtifactValue? && !notation.MapValue?
    ensures resolver.resolve(notation).Some? ==>
              ParseNotation(Create(resolver), notation) == Success(ParseFile(resolver.resolve(notation).value))
    ensures resolver.resolve(notation).None? ==>
              (ParseNotation(Create(resolver), notation)
               == Failure(NoMatch(notation, ArchiveTaskDescription + PublishArtifactDescription + MapDescription + resolver.description)))
  {
    var p := Create(resolver);
    if resolver.resolve(notation).Some? {
      ParseNotationFirstMatch(p, notation, 3);
    } else {
      CreateDescription(resolver);
      ParseNotationNoMatch(p, notation);
    }
  }

  /**
   * The source parser handles archive tasks and publish artifacts as the
   * outer parser does; anything else, a nested map included, is only a file
   * notation or unsupported.
   */
  lemma SourceParserParses(resolver: FileResolver, notation: Value)
    ensures notation.ArchiveTaskValue? ==>
              ParseNotation(SourceParser(resolver), notation) == Success(ArchiveTaskArtifact(notation.task))
    ensures notation.PublishArtifactValue? ==>
              ParseNotation(SourceParser(resolver), notation) == Success(PublishArtifactArtifact(notation.artifact))
    ensures !notation.ArchiveTaskValue? && !notation.PublishArtifactValue? && resolver.resolve(notation).Some? ==>
              ParseNotation(SourceParser(resolver), notation) == Success(ParseFile(resolver.resolve(notation).value))
    ensures !notation.ArchiveTaskValue? && !notation.PublishArtifactValue? && resolver.resolve(notation).None? ==>
              (ParseNotation(SourceParser(resolver), notation)
               == Failure(NoMatch(notation, ArchiveTaskDescription + PublishArtifactDescription + resolver.description)))
  {
    var p := SourceParser(resolver);
    if notation.ArchiveTaskValue? {
      ParseNotationFirstMatch(p, notation, 0);
    } else if notation.PublishArtifactValue? {
      ParseNotationFirstMatch(p, notation, 1);
    } else if resolver.resolve(notation).Some? {
      ParseNotationFirstMatch(p, notation, 2);
    } else {
      SourceParserHasNoMapConverter(resolver);
      ParseNotationNoMatch(p, notation);
    }
  }

  // End-to-end scenarios

  /** A file named `report.zip` becomes an artifact with extension `zip` and no classifier. */
  lemma ParseReportZip(resolver: FileResolver, notation: Value, dir: string)
    requires !notation.ArchiveTaskValue? && !notation.PublishArtifactValue? && !notation.MapValue?
    requires resolver.resolve(notation) == Some(File(dir, "report.zip"))
    ensures ParseNotation(Create(resolver), notation) == Success(MavenArtifact(File(dir, "report.zip"), Some("zip"), None, []))
  {
    CreateParsesOther(resolver, notation);
    StringUtils.ExtensionOfReportZip();
  }

  /** `[source: '/path/to/file.zip']` resolves its entry as a file: extension `zip`. */
  lemma ParseSourceMap(resolver: FileResolver)
    requires resolver.resolve(Text("/path/to/file.zip")) == Some(File("/path/to", "file.zip"))
    ensures ParseNotation(Create(resolver), MapValue(map["source" := Text("/path/to/file.zip")]))
         == Success(MavenArtifact(File("/path/to", "file.zip"), Some("zip"), None, []))
  {
    var v := Text("/path/to/file.zip");
    var m := map["source" := v];
    var f := File("/path/to", "file.zip");
    CreateParsesMap(resolver, m);
    assert ParseNotation(Create(resolver), MapValue(m)) == ParseNotation(SourceParser(resolver), v);
    SourceParserResolvesFile(resolver, v);
    StringUtils.ExtensionOfFileZip();
    assert ParseFile(f) == MavenArtifact(f, Some("zip"), None, []);
  }

  /** A text notation the resolver turns into a file becomes that file's artifact under the source parser. */
  lemma SourceParserResolvesFile(resolver: FileResolver, v: Value)
    requires v.Text? && resolver.resolve(v).Some?
    ensures ParseNotation(SourceParser(resolver), v) == Success(ParseFile(resolver.resolve(v).value))
  {
    ParseNotationFirstMatch(SourceParser(resolver), v, 2);
  }

  /** A number no converter supports fails listing the task, artifact, map and file shapes. */
  lemma ParseUnsupportedNumber(resolver: FileResolver, k: int)
    requires resolver.resolve(Number(k)).None?
    ensures ParseNotation(Create(resolver), Number(k))
         == Failure(NoMatch(Number(k), [
              Candidate("Instances of AbstractArchiveTask", Some("jar")),
              Candidate("Instances of PublishArtifact", None),
              Candidate("Maps containing a 'source' entry", Some("[source: '/path/to/file', extension: 'zip']"))
            ] + resolver.description))
  {
    CreateParsesOther(resolver, Number(k));
    assert ArchiveTaskDescription + PublishArtifactDescription + MapDescription == [
      Candidate("Instances of AbstractArchiveTask", Some("jar")),
      Candidate("Instances of PublishArtifact", None),
      Candidate("Maps containing a 'source' entry", Some("[source: '/path/to/file', extension: 'zip']"))
    ];
  }
}
