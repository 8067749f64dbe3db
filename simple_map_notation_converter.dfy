/**
 * SimpleMapNotationConverter: the base of converters from `Map<String, ?>`
 * notations, with the `getString` and `checkMandatoryKeys` helpers.
 */
module SimpleMapNotationConverter {
  import opened Wrappers
  import opened Notations

  type StringMap = map<string, Value>

  /** The default `describe` of a map converter: the single candidate "Maps", without an example. */
  function Describe(): (d: seq<Candidate>)
    ensures |d| == 1 && d[0].name == "Maps" && d[0].example.None?
  {
    [Candidate("Maps", None)]
  }

  /**
   * The converter is a typed converter bound to `Map`: it accepts map
   * notations only, and null is an instance of no type.
   */
  predicate Accepts(notation: Value)
    ensures Accepts(notation) ==> exists m :: notation == MapValue(m)
    ensures Accepts(notation) ==> notation != Null
  {
    notation.MapValue?
  }

  /**
   * `parseType`: a notation the converter accepts is handed, as the same
   * map, to the subclass's `parseMap`; any other notation is not applicable.
   */
  function ParseType<T>(notation: Value, parseMap: StringMap -> T): (r: Option<T>)
    ensures r.Some? <==> Accepts(notation)
    ensures Accepts(notation) ==> r.value == parseMap(notation.entries)
  {
    match notation
    case MapValue(entries) => Some(parseMap(entries))
    case _ => None
  }

  /**
   * `getString(args, key)`: the entry's `toString()` (here `show`), or
   * absent when the key is missing, maps to null, or shows as exactly "".
   */
  function GetString(args: StringMap, key: string, show: Value -> string): (r: Option<string>)
    ensures r.None? <==> key !in args || args[key] == Null || show(args[key]) == ""
    ensures r.Some? ==> key in args && r.value == show(args[key])
    ensures r != Some("")
  {
    var value := if key in args then args[key] else Null;
    var str := if value == Null then None else Some(show(value));
    if str == None || str == Some("") then None else str
  }

  /**
   * What `checkMandatoryKeys` decides: it passes when every mandatory key is
   * a key of the map (whatever it maps to), and otherwise fails naming every
   * missing key together with the map.
   */
  function CheckMandatory(args: StringMap, mandatoryKeys: seq<string>): (r: Outcome<ConversionError>)
    ensures r.Pass? <==> forall k :: k in mandatoryKeys ==> k in args
    ensures r.Fail? ==> r.error.MissingKeys? && r.error.args == args
    ensures r.Fail? ==> forall k :: k in r.error.missing <==> k in mandatoryKeys && k !in args
  {
    var missing := (set k | k in mandatoryKeys) - args.Keys;
    assert forall k :: k in mandatoryKeys && k !in args ==> k in missing;
    if missing == {} then Pass else Fail(MissingKeys(missing, args))
  }

  /**
   * `checkMandatoryKeys` as the source computes it, step by step: a set
   * built from the mandatory keys is shrunk in place by the map's key set
   * and then tested for emptiness. Its outcome is `CheckMandatory`, the
   * function the other converters' models call, since a function cannot
   * call a method.
   */
  method CheckMandatoryKeys(args: StringMap, mandatoryKeys: seq<string>) returns (r: Outcome<ConversionError>)
    ensures r == CheckMandatory(args, mandatoryKeys)
  {
    var missing := set k | k in mandatoryKeys;
    missing := missing - args.Keys;
    if missing != {} {
      r := Fail(MissingKeys(missing, args));
    } else {
      r := Pass;
    }
  }

  /** Only the set of mandatory keys matters: order and duplicates do not. */
  lemma CheckMandatoryDependsOnKeySet(args: StringMap, keys1: seq<string>, keys2: seq<string>)
    requires forall k :: k in keys1 <==> k in keys2
    ensures CheckMandatory(args, keys1) == CheckMandatory(args, keys2)
  {
    assert (set k | k in keys1) == (set k | k in keys2);
  }

  /** Two maps with the same key set pass or fail the check alike: values, null included, are never consulted. */
  lemma CheckMandatoryReadsKeysOnly(args1: StringMap, args2: StringMap, mandatoryKeys: seq<string>)
    requires args1.Keys == args2.Keys
    ensures CheckMandatory(args1, mandatoryKeys).Pass? <==> CheckMandatory(args2, mandatoryKeys).Pass?
    ensures CheckMandatory(args1, mandatoryKeys).Fail? ==>
              CheckMandatory(args1, mandatoryKeys).error.missing == CheckMandatory(args2, mandatoryKeys).error.missing
  {
  }
}
