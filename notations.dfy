/**
 * The runtime shapes a notation can have, the diagnostics a converter
 * contributes, and the two user-visible conversion errors.
 */
module Notations {
  import opened Wrappers

  /** A java.io.File, reduced to its parent path and the name `getName()` returns. */
  datatype File = File(parent: string, name: string)

  /** The parts of an AbstractArchiveTask the Maven converters read. */
  datatype ArchiveTask = ArchiveTask(
    path: string,
    archivePath: File,
    extension: Option<string>,
    classifier: Option<string>)

  /**
   * The parts of a PublishArtifact the Maven converters read; the task
   * dependencies it is built by are an opaque tag.
   */
  datatype PublishArtifact = PublishArtifact(
    file: File,
    extension: Option<string>,
    classifier: Option<string>,
    buildDependencies: nat)

  /**
   * A notation: an input value whose runtime type is all the converters may
   * inspect. `Null` is Java's null; `MapValue` is a `Map<String, ?>`.
   */
  datatype Value =
    | Null
    | Text(text: string)
    | Number(number: int)
    | MapValue(entries: map<string, Value>)
    | ArchiveTaskValue(task: ArchiveTask)
    | PublishArtifactValue(artifact: PublishArtifact)
    | FileValue(file: File)
    | OtherObject(id: nat)

  /** One entry a converter contributes to a DiagnosticsVisitor: a name and an optional example. */
  datatype Candidate = Candidate(name: string, example: Option<string>)

  /** The failures a notation parser reports. */
  datatype ConversionError =
      /** InvalidUserDataException: a map lacks mandatory keys; all of them are named. */
    | MissingKeys(missing: set<string>, args: map<string, Value>)
      /** UnsupportedNotationException: no candidate accepted the notation. */
    | NoMatch(notation: Value, candidates: seq<Candidate>)
}
