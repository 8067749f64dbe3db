/**
 * DependencyMapNotationConverter: converts a map notation such as
 * `[group: 'org.gradle', name: 'gradle-core', version: '1.0']` into an
 * external dependency, reading six keys and demanding none of them.
 */
module DependencyMapNotationConverter {
  import opened Wrappers
  import opened Notations
  import SimpleMap = SimpleMapNotationConverter

  /** The artifact explicitly requested through the `ext` and `classifier` keys. */
  datatype ArtifactRequest = ArtifactRequest(extension: Option<string>, classifier: Option<string>)

  /**
   * The dependency as constructed from group, name, version and
   * configuration, together with the (extension, classifier) pair handed to
   * `ModuleFactoryHelper.addExplicitArtifactsIfDefined`.
   */
  datatype Dependency = Dependency(
    group: Option<string>,
    name: Option<string>,
    version: Option<string>,
    configuration: Option<string>,
    explicitArtifact: ArtifactRequest)

  /** The only keys the converter reads. */
  const Keys: set<string> := {"group", "name", "version", "configuration", "ext", "classifier"}

  /** `describe`: the single candidate "Maps", with a group/name/version example. */
  function Describe(): (d: seq<Candidate>)
    ensures |d| == 1 && d[0].name == "Maps"
    ensures d[0].example == Some("[group: 'org.gradle', name: 'gradle-core', version: '1.0']")
  {
    [Candidate("Maps", Some("[group: 'org.gradle', name: 'gradle-core', version: '1.0']"))]
  }

  /** `parseMap`: every field is `getString` of its key; the extension comes from `ext`. */
  function ParseMap(notation: SimpleMap.StringMap, show: Value -> string): (d: Dependency)
    ensures d.group == SimpleMap.GetString(notation, "group", show)
    ensures d.name == SimpleMap.GetString(notation, "name", show)
    ensures d.version == SimpleMap.GetString(notation, "version", show)
    ensures d.configuration == SimpleMap.GetString(notation, "configuration", show)
    ensures d.explicitArtifact.extension == SimpleMap.GetString(notation, "ext", show)
    ensures d.explicitArtifact.classifier == SimpleMap.GetString(notation, "classifier", show)
  {
    var dependency := Dependency(
      SimpleMap.GetString(notation, "group", show),
      SimpleMap.GetString(notation, "name", show),
      SimpleMap.GetString(notation, "version", show),
      SimpleMap.GetString(notation, "configuration", show),
      ArtifactRequest(None, None));
    dependency.(explicitArtifact := ArtifactRequest(
      SimpleMap.GetString(notation, "ext", show),
      SimpleMap.GetString(notation, "classifier", show)))
  }

  /** The converter as a candidate: only map notations are accepted, and each goes to `ParseMap`. */
  function Convert(notation: Value, show: Value -> string): (r: Option<Dependency>)
    ensures r.Some? <==> notation.MapValue?
    ensures notation.MapValue? ==> r.value == ParseMap(notation.entries, show)
  {
    SimpleMap.ParseType(notation, (m: SimpleMap.StringMap) => ParseMap(m, show))
  }

  /** Two maps agree on `key`: both lack it, or both map it to the same value. */
  predicate AgreeOn(m1: SimpleMap.StringMap, m2: SimpleMap.StringMap, key: string) {
    (key in m1 <==> key in m2) && (key in m1 ==> m1[key] == m2[key])
  }

  /** Keys other than the six read do not affect the dependency. */
  lemma ParseMapReadsOnlyItsKeys(m1: SimpleMap.StringMap, m2: SimpleMap.StringMap, show: Value -> string)
    requires forall k :: k in Keys ==> AgreeOn(m1, m2, k)
    ensures ParseMap(m1, show) == ParseMap(m2, show)
  {
    assert AgreeOn(m1, m2, "group") && AgreeOn(m1, m2, "name") && AgreeOn(m1, m2, "version");
    assert AgreeOn(m1, m2, "configuration") && AgreeOn(m1, m2, "ext") && AgreeOn(m1, m2, "classifier");
  }

  /**
   * No key is mandatory: every map converts, and a field is absent exactly
   * when its key is missing, maps to null, or shows as the empty string.
   */
  lemma ParseMapFieldAbsence(notation: SimpleMap.StringMap, show: Value -> string)
    ensures var d := ParseMap(notation, show);
      && (d.group.None? <==> "group" !in notation || notation["group"] == Null || show(notation["group"]) == "")
      && (d.name.None? <==> "name" !in notation || notation["name"] == Null || show(notation["name"]) == "")
      && (d.version.None? <==> "version" !in notation || notation["version"] == Null || show(notation["version"]) == "")
      && (d.configuration.None? <==> "configuration" !in notation || notation["configuration"] == Null || show(notation["configuration"]) == "")
      && (d.explicitArtifact.extension.None? <==> "ext" !in notation || notation["ext"] == Null || show(notation["ext"]) == "")
      && (d.explicitArtifact.classifier.None? <==> "classifier" !in notation || notation["classifier"] == Null || show(notation["classifier"]) == "")
  {
  }

  /** A map giving group, name and version as text converts with the other three fields absent. */
  lemma ParseGroupNameVersion(show: Value -> string)
    requires forall s :: show(Text(s)) == s
    ensures ParseMap(map["group" := Text("org.gradle"), "name" := Text("gradle-core"), "version" := Text("1.0")], show)
         == Dependency(Some("org.gradle"), Some("gradle-core"), Some("1.0"), None, ArtifactRequest(None, None))
  {
    var m := map["group" := Text("org.gradle"), "name" := Text("gradle-core"), "version" := Text("1.0")];
    assert show(m["group"]) == "org.gradle" && show(m["name"]) == "gradle-core" && show(m["version"]) == "1.0";
  }

  /** A map without `group` is not rejected: it converts with the group absent. */
  lemma ParseWithoutGroup(show: Value -> string)
    requires forall s :: show(Text(s)) == s
    ensures ParseMap(map["name" := Text("gradle-core")], show)
         == Dependency(None, Some("gradle-core"), None, None, ArtifactRequest(None, None))
  {
    assert show(Text("gradle-core")) == "gradle-core";
  }

  /** A whitespace-only value is kept, not normalised to absent. */
  lemma WhitespaceVersionIsKept(show: Value -> string)
    requires forall s :: show(Text(s)) == s
    ensures ParseMap(map["version" := Text(" ")], show).version == Some(" ")
  {
    assert show(Text(" ")) == " ";
  }
}
