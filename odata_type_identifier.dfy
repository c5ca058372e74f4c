/** `ODataTypeIdentifier.identify`: the `@odata.type` string of a path, from
    the versioned parse of its identifier or, when that fails, the unversioned
    one. Exceptions are modelled as `Result`s. */
module ODataTypeIdentifiers {
  import opened Wrappers
  import U = UnversionedSchemaIdentifiers
  import opened SchemaPatterns

  /** What the getters of a parsed `VersionedSchemaIdentifier` render to. */
  datatype VersionedSchemaIdentifier = VersionedSchemaIdentifier(moduleName: string, version: string, model: string)

  /** The collaborators `identify` calls, none of which is part of this
      model: `ModelResolver.getPathIdentifier`, the `VersionedSchemaIdentifier`
      constructor (success or the `IdentifierParseError` it throws), and the
      rendering of a `PascalCaseName` built from a group of text. */
  datatype Collaborators = Collaborators(
    getPathIdentifier: string -> string,
    parseVersioned: string -> Result<VersionedSchemaIdentifier, U.IdentifierParseError>,
    pascalCase: string -> string)

  function Identify(path: string, c: Collaborators): (r: Result<string, U.IdentifierParseError>)
    ensures r.Success? ==> |r.value| > 0 && r.value[0] == '#'
    ensures r.Failure? <==> c.parseVersioned(c.getPathIdentifier(path)).Failure?
                            && U.Parse(c.getPathIdentifier(path)).Failure?
    ensures r.Failure? ==> r.error == U.Parse(c.getPathIdentifier(path)).error
  {
    var identifier := c.getPathIdentifier(path);
    match c.parseVersioned(identifier)
    case Success(versioned) =>
      Success("#" + versioned.moduleName + "." + versioned.version + "." + versioned.model)
    case Failure(_) =>
      match U.Parse(identifier)
      case Success(unversioned) =>
        Success("#" + c.pascalCase(unversioned.moduleName) + "." + c.pascalCase(unversioned.model))
      case Failure(e) => Failure(e)
  }

  /** Only the identifier of the path matters, not the rest of it. */
  lemma IdentifyUsesPathIdentifier(p: string, q: string, c: Collaborators)
    requires c.getPathIdentifier(p) == c.getPathIdentifier(q)
    ensures Identify(p, c) == Identify(q, c)
  {
  }

  /** A versioned identifier gives `#module.version.model`, whatever the
      unversioned pattern would make of it. */
  lemma VersionedFirst(path: string, c: Collaborators, other: string -> string)
    requires c.parseVersioned(c.getPathIdentifier(path)).Success?
    ensures var v := c.parseVersioned(c.getPathIdentifier(path)).value;
            Identify(path, c) == Success("#" + v.moduleName + "." + v.version + "." + v.model)
    ensures Identify(path, c) == Identify(path, c.(pascalCase := other))
  {
  }

  /** When the versioned parse fails and the identifier has a `_` followed by
      an ASCII letter or digit, the result is `#` + module + `.` + model, where
      `module_model` is the leftmost match of the unversioned pattern in the
      identifier, its module group is the longest at that offset, and its
      model run cannot be extended. */
  lemma UnversionedFallback(path: string, c: Collaborators, p: nat) returns (st: nat, me: nat, e: nat)
    requires c.parseVersioned(c.getPathIdentifier(path)).Failure?
    requires U.UnderscoreBeforeAlnum(c.getPathIdentifier(path), p)
    ensures var id := c.getPathIdentifier(path);
            && U.Fits(id, st, me, e) && st <= p
            && (e == |id| || !IsAlnum(id[e]))
            && Identify(path, c) == Success("#" + c.pascalCase(id[st..me]) + "." + c.pascalCase(id[me + 1..e]))
    ensures var id := c.getPathIdentifier(path);
            forall st': nat, me': nat, e': nat :: U.Fits(id, st', me', e') ==> st <= st' && (st' == st ==> me' <= me)
  {
    var id := c.getPathIdentifier(path);
    assert U.Fits(id, p, p, p + 2);
    U.LocateLeftmostGreedy(id, p, p, p + 2);
    var g := U.Locate(id).value;
    st, me, e := g.start, g.moduleEnd, g.end;
    forall st': nat, me': nat, e': nat | U.Fits(id, st', me', e') ensures st <= st' && (st' == st ==> me' <= me) {
      U.LocateLeftmostGreedy(id, st', me', e');
    }
  }

  /** `identify` throws exactly when the versioned parse fails and the
      identifier has no `_` followed by an ASCII letter or digit; the error is
      the unversioned constructor's. */
  lemma IdentifyFailsIff(path: string, c: Collaborators)
    ensures var id := c.getPathIdentifier(path);
            Identify(path, c).Failure? <==>
              c.parseVersioned(id).Failure? && forall p: nat :: !U.UnderscoreBeforeAlnum(id, p)
    ensures var id := c.getPathIdentifier(path);
            Identify(path, c).Failure? ==>
              Identify(path, c).error.message == id + " is not an unversioned identifier"
  {
    U.ParseFailsIff(c.getPathIdentifier(path));
  }
}
