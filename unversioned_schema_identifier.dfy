/** `UnversionedSchemaIdentifier`: parses schema names without a version with
    the pattern `(?<module>[a-zA-z0-9]*)_(?<model>[a-zA-Z0-9]+)`, or fails with
    an `IdentifierParseError`. */
module UnversionedSchemaIdentifiers {
  import opened Wrappers
  import opened SchemaPatterns

  /** The parsed identifier; its fields are what `getModule()` and
      `getModel()` return. */
  datatype UnversionedSchemaIdentifier = UnversionedSchemaIdentifier(moduleName: string, model: string)

  datatype IdentifierParseError = IdentifierParseError(message: string)

  /** The whole pattern matches `s[start..e]`, with the module group
      `s[start..moduleEnd]` and the model `s[moduleEnd + 1..e]`. */
  predicate Fits(s: string, start: nat, moduleEnd: nat, e: nat) {
    All(s, start, moduleEnd, IsModuleChar) && moduleEnd < |s| && s[moduleEnd] == '_' && Alnums(s, moduleEnd + 1, e)
  }

  /** The tail `_<model>` at `p`, with the longest model run. */
  function TailAt(s: string, p: nat): (r: Option<nat>)
    ensures r.Some? ==> p < |s| && s[p] == '_' && Alnums(s, p + 1, r.value)
    ensures r.Some? ==> r.value == |s| || !IsAlnum(s[r.value])
  {
    if p < |s| && s[p] == '_' then
      var e := RunEnd(s, p + 1, IsAlnum);
      if p + 1 < e then Some(e) else None
    else None
  }

  lemma TailAtComplete(s: string, p: nat, e: nat)
    requires p < |s| && s[p] == '_' && Alnums(s, p + 1, e)
    ensures TailAt(s, p).Some? && e <= TailAt(s, p).value
  {
    RunEndBounds(s, p + 1, e, IsAlnum);
  }

  predicate HasTail(s: string, p: nat) {
    TailAt(s, p).Some?
  }

  datatype Groups = Groups(start: nat, moduleEnd: nat, end: nat)

  /** `matcher.find()`: where the groups of the match lie, if there is one. */
  function Locate(name: string): (r: Option<Groups>)
    ensures r.Some? ==> Fits(name, r.value.start, r.value.moduleEnd, r.value.end)
    ensures r.Some? ==> r.value.end == |name| || !IsAlnum(name[r.value.end])
  {
    match Find(name, HasTail)
    case None => None
    case Some((start, moduleEnd)) => Some(Groups(start, moduleEnd, TailAt(name, moduleEnd).value))
  }

  /** The match is the leftmost one, and at its offset the module group is
      the longest one. */
  lemma LocateLeftmostGreedy(name: string, st: nat, me: nat, e: nat)
    requires Fits(name, st, me, e)
    ensures Locate(name).Some?
    ensures Locate(name).value.start <= st
    ensures st == Locate(name).value.start ==> me <= Locate(name).value.moduleEnd
  {
    TailAtComplete(name, me, e);
    assert MatchAt(name, st, me, HasTail);
  }

  /** The constructor: the module and model groups, or the error it throws. */
  function Parse(name: string): (r: Result<UnversionedSchemaIdentifier, IdentifierParseError>)
    ensures r.Failure? <==> Locate(name).None?
    ensures r.Failure? ==> r.error.message == name + " is not an unversioned identifier"
    ensures r.Success? ==>
              var g := Locate(name).value;
              r.value == UnversionedSchemaIdentifier(name[g.start..g.moduleEnd], name[g.moduleEnd + 1..g.end])
  {
    match Locate(name)
    case None => Failure(IdentifierParseError(name + " is not an unversioned identifier"))
    case Some(g) => Success(UnversionedSchemaIdentifier(name[g.start..g.moduleEnd], name[g.moduleEnd + 1..g.end]))
  }

  /** A `_` followed at once by an ASCII letter or digit. */
  predicate UnderscoreBeforeAlnum(name: string, p: nat) {
    p + 1 < |name| && name[p] == '_' && IsAlnum(name[p + 1])
  }

  /** The constructor throws exactly when no `_` in the name is followed by
      an ASCII letter or digit. */
  lemma ParseFailsIff(name: string)
    ensures Parse(name).Failure? <==> forall p: nat :: !UnderscoreBeforeAlnum(name, p)
  {
    if Parse(name).Failure? {
      forall p: nat ensures !UnderscoreBeforeAlnum(name, p) {
        if UnderscoreBeforeAlnum(name, p) {
          assert Fits(name, p, p, p + 2);
          LocateLeftmostGreedy(name, p, p, p + 2);
        }
      }
    } else {
      var g := Locate(name).value;
      assert UnderscoreBeforeAlnum(name, g.moduleEnd);
    }
  }

  /** On success the module group is made of characters of `[a-zA-z0-9]` and
      the model is a non-empty run of ASCII letters and digits, the longest
      at its place. */
  lemma ParsedGroups(name: string)
    requires Parse(name).Success?
    ensures var id := Parse(name).value;
            && (forall k :: 0 <= k < |id.moduleName| ==> IsModuleChar(id.moduleName[k]))
            && |id.model| > 0 && (forall k :: 0 <= k < |id.model| ==> IsAlnum(id.model[k]))
  {
    var g := Locate(name).value;
    var id := Parse(name).value;
    assert forall k :: 0 <= k < |id.moduleName| ==> id.moduleName[k] == name[g.start + k];
    assert forall k :: 0 <= k < |id.model| ==> id.model[k] == name[g.moduleEnd + 1 + k];
  }

  const ABC: string := "A_B_C"
  const UnderscoreFoo: string := "_Foo"

  lemma ABCShape()
    ensures |ABC| == 5 && ABC[0..3] == "A_B" && ABC[4..5] == "C"
    ensures Fits(ABC, 0, 3, 5)
    ensures forall k :: 3 < k < 5 ==> ABC[k] != '_'
  {
  }

  /** `[a-zA-z0-9]` admits `_`, so the greedy module group of `A_B_C` is
      `A_B`. */
  lemma ABCExample()
    ensures Parse(ABC) == Success(UnversionedSchemaIdentifier("A_B", "C"))
  {
    ABCShape();
    LocateLeftmostGreedy(ABC, 0, 3, 5);
    TailAtComplete(ABC, 3, 5);
  }

  lemma UnderscoreFooShape()
    ensures |UnderscoreFoo| == 4 && UnderscoreFoo[1..4] == "Foo"
    ensures Fits(UnderscoreFoo, 0, 0, 4)
    ensures forall k :: 0 < k < 4 ==> UnderscoreFoo[k] != '_'
  {
  }

  /** The module group may be empty: `_Foo` has module `""` and model `Foo`. */
  lemma UnderscoreFooExample()
    ensures Parse(UnderscoreFoo) == Success(UnversionedSchemaIdentifier("", "Foo"))
  {
    UnderscoreFooShape();
    LocateLeftmostGreedy(UnderscoreFoo, 0, 0, 4);
    TailAtComplete(UnderscoreFoo, 0, 4);
  }
}
