/** `VersionedModelMapper`: recognises schema names of the shape
    `Module_vX_Y_Z_Model` with the pattern
    `(?<module>[a-zA-z0-9]*)_(?<version>v[0-9]+_[0-9]+_[0-9]+)_(?<model>[a-zA-Z0-9]+)`
    and maps them to the module path `[module, version]` and the model name. */
module VersionedModelMapper {
  import opened Wrappers
  import opened SchemaPatterns
  import Text

  /** The tail `_v<digits>_<digits>_<digits>_<model>` occupies `s[p..e]`: the
      version is `s[p + 1..versionEnd]`, its digit runs end at `a`, `b` and
      `versionEnd`, and the model is `s[versionEnd + 1..e]`. */
  predicate TailFits(s: string, p: nat, a: nat, b: nat, versionEnd: nat, e: nat) {
    && p + 1 < |s| && s[p] == '_' && s[p + 1] == 'v'
    && Digits(s, p + 2, a) && a < |s| && s[a] == '_'
    && Digits(s, a + 1, b) && b < |s| && s[b] == '_'
    && Digits(s, b + 1, versionEnd) && versionEnd < |s| && s[versionEnd] == '_'
    && Alnums(s, versionEnd + 1, e)
  }

  /** The whole pattern matches `s[start..e]`, its module group being
      `s[start..moduleEnd]`. */
  predicate Fits(s: string, start: nat, moduleEnd: nat, a: nat, b: nat, versionEnd: nat, e: nat) {
    All(s, start, moduleEnd, IsModuleChar) && TailFits(s, moduleEnd, a, b, versionEnd, e)
  }

  datatype Tail = Tail(a: nat, b: nat, versionEnd: nat, end: nat)

  /** The tail as the matcher takes it at `p`: each digit run is the whole run
      (the `_` after it cannot be a digit), and the model run is the longest. */
  function TailAt(s: string, p: nat): (r: Option<Tail>)
    ensures r.Some? ==> TailFits(s, p, r.value.a, r.value.b, r.value.versionEnd, r.value.end)
    ensures r.Some? ==> r.value.end == |s| || !IsAlnum(s[r.value.end])
  {
    if p + 1 < |s| && s[p] == '_' && s[p + 1] == 'v' then
      var a := RunEnd(s, p + 2, IsDigit);
      if p + 2 < a < |s| && s[a] == '_' then
        var b := RunEnd(s, a + 1, IsDigit);
        if a + 1 < b < |s| && s[b] == '_' then
          var versionEnd := RunEnd(s, b + 1, IsDigit);
          if b + 1 < versionEnd < |s| && s[versionEnd] == '_' then
            var e := RunEnd(s, versionEnd + 1, IsAlnum);
            if versionEnd + 1 < e then Some(Tail(a, b, versionEnd, e)) else None
          else None
        else None
      else None
    else None
  }

  /** Every way the tail can match at `p` is the one `TailAt` finds, up to a
      shorter model run. */
  lemma TailAtComplete(s: string, p: nat, a: nat, b: nat, versionEnd: nat, e: nat)
    requires TailFits(s, p, a, b, versionEnd, e)
    ensures TailAt(s, p).Some?
    ensures TailAt(s, p).value.a == a && TailAt(s, p).value.b == b
    ensures TailAt(s, p).value.versionEnd == versionEnd && e <= TailAt(s, p).value.end
  {
    RunEndBounds(s, p + 2, a, IsDigit);
    RunEndBounds(s, a + 1, b, IsDigit);
    RunEndBounds(s, b + 1, versionEnd, IsDigit);
    RunEndBounds(s, versionEnd + 1, e, IsAlnum);
  }

  predicate HasTail(s: string, p: nat) {
    TailAt(s, p).Some?
  }

  /** Where the groups of the match lie. */
  datatype Groups = Groups(start: nat, moduleEnd: nat, a: nat, b: nat, versionEnd: nat, end: nat)

  /** `matcher.find()`: where the groups of the match lie, if there is one. */
  function Locate(name: string): (r: Option<Groups>)
    ensures r.Some? ==> Fits(name, r.value.start, r.value.moduleEnd, r.value.a, r.value.b, r.value.versionEnd, r.value.end)
    ensures r.Some? ==> r.value.end == |name| || !IsAlnum(name[r.value.end])
  {
    match Find(name, HasTail)
    case None => None
    case Some((start, moduleEnd)) =>
      var t := TailAt(name, moduleEnd).value;
      Some(Groups(start, moduleEnd, t.a, t.b, t.versionEnd, t.end))
  }

  lemma FitsMatchAt(name: string, st: nat, me: nat, a: nat, b: nat, ve: nat, e: nat)
    requires Fits(name, st, me, a, b, ve, e)
    ensures MatchAt(name, st, me, HasTail)
  {
    TailAtComplete(name, me, a, b, ve, e);
  }

  /** There is no match exactly when no substring has the pattern's shape. */
  lemma LocateNone(name: string)
    ensures Locate(name).None? <==> forall st: nat, me: nat, a: nat, b: nat, ve: nat, e: nat :: !Fits(name, st, me, a, b, ve, e)
  {
    if Locate(name).None? {
      forall st: nat, me: nat, a: nat, b: nat, ve: nat, e: nat ensures !Fits(name, st, me, a, b, ve, e) {
        if Fits(name, st, me, a, b, ve, e) {
          FitsMatchAt(name, st, me, a, b, ve, e);
        }
      }
    }
  }

  /** The match is the leftmost one, and at its offset the module group is
      the longest one. */
  lemma LocateLeftmostGreedy(name: string, st: nat, me: nat, a: nat, b: nat, ve: nat, e: nat)
    requires Fits(name, st, me, a, b, ve, e)
    ensures Locate(name).Some?
    ensures Locate(name).value.start <= st
    ensures st == Locate(name).value.start ==> me <= Locate(name).value.moduleEnd
  {
    FitsMatchAt(name, st, me, a, b, ve, e);
  }

  /** `ModelMatchResult`: the module path and the model name. */
  datatype ModelMatchResult = ModelMatchResult(modulePath: seq<string>, model: string)

  /** `matches(name)`: `None` for `null`. The module group goes through
      `CaseConversion.toSnakeCase`, whose definition is not part of this
      model; the version group is kept verbatim. */
  function Matches(name: string, toSnakeCase: string -> string): (r: Option<ModelMatchResult>)
    ensures r.None? <==> Locate(name).None?
    ensures r.Some? ==>
              var g := Locate(name).value;
              && r.value.modulePath == [toSnakeCase(name[g.start..g.moduleEnd]), name[g.moduleEnd + 1..g.versionEnd]]
              && r.value.model == name[g.versionEnd + 1..g.end]
  {
    match Locate(name)
    case None => None
    case Some(g) =>
      Some(ModelMatchResult([toSnakeCase(name[g.start..g.moduleEnd]), name[g.moduleEnd + 1..g.versionEnd]],
                            name[g.versionEnd + 1..g.end]))
  }

  /** `v` then three non-empty digit runs joined by `_`. */
  predicate IsVersion(t: string) {
    exists i: nat, j: nat :: 1 < i < j < |t| - 1 && t[0] == 'v'
      && Digits(t, 1, i) && t[i] == '_' && Digits(t, i + 1, j) && t[j] == '_' && Digits(t, j + 1, |t|)
  }

  lemma DigitsSlice(s: string, lo: nat, i: nat, j: nat, hi: nat)
    requires lo <= i && j <= hi <= |s|
    requires Digits(s, i, j)
    ensures Digits(s[lo..hi], i - lo, j - lo)
  {
  }

  lemma AlnumsSlice(s: string, i: nat, j: nat)
    requires Alnums(s, i, j)
    ensures |s[i..j]| > 0 && forall k :: 0 <= k < |s[i..j]| ==> IsAlnum(s[i..j][k])
  {
  }

  /** `null` exactly when no substring of the name has the shape
      `module_vD+_D+_D+_model`. */
  lemma NoMatchIff(name: string, toSnakeCase: string -> string)
    ensures Matches(name, toSnakeCase).None? <==> forall st: nat, me: nat, a: nat, b: nat, ve: nat, e: nat :: !Fits(name, st, me, a, b, ve, e)
  {
    LocateNone(name);
  }

  /** The version group of a tail has the version shape. */
  lemma TailVersionShape(s: string, p: nat, a: nat, b: nat, versionEnd: nat, e: nat)
    requires TailFits(s, p, a, b, versionEnd, e)
    ensures IsVersion(s[p + 1..versionEnd])
  {
    var version := s[p + 1..versionEnd];
    DigitsSlice(s, p + 1, p + 2, a, versionEnd);
    DigitsSlice(s, p + 1, a + 1, b, versionEnd);
    DigitsSlice(s, p + 1, b + 1, versionEnd, versionEnd);
    var i := a - (p + 1);
    var j := b - (p + 1);
    assert version[0] == s[p + 1];
    assert version[i] == s[a] && version[j] == s[b];
    assert Digits(version, 1, i) && Digits(version, i + 1, j) && Digits(version, j + 1, |version|);
  }

  /** A match's groups, joined by `_`, are the text it spans. */
  lemma FitsOccurs(s: string, st: nat, me: nat, a: nat, b: nat, versionEnd: nat, e: nat,
                    version: string, model: string)
    requires Fits(s, st, me, a, b, versionEnd, e)
    requires version == s[me + 1..versionEnd] && model == s[versionEnd + 1..e]
    ensures Text.OccursAt(s, s[st..me] + "_" + version + "_" + model, st)
  {
    assert s[me..me + 1] == "_" && s[versionEnd..versionEnd + 1] == "_";
    assert s[st..e] == s[st..me] + s[me..me + 1] + s[me + 1..versionEnd]
                       + s[versionEnd..versionEnd + 1] + s[versionEnd + 1..e];
  }

  /** On a match the module path has two components: the snake-cased
      module group, then the version group, which has the version shape. */
  lemma MatchModulePath(name: string, toSnakeCase: string -> string)
    requires Matches(name, toSnakeCase).Some?
    ensures var r := Matches(name, toSnakeCase).value;
            var g := Locate(name).value;
            && |r.modulePath| == 2
            && r.modulePath[0] == toSnakeCase(name[g.start..g.moduleEnd])
            && IsVersion(r.modulePath[1])
  {
    var g := Locate(name).value;
    TailVersionShape(name, g.moduleEnd, g.a, g.b, g.versionEnd, g.end);
  }

  /** On a match the model is a non-empty run of ASCII letters and digits,
      and it is the longest such run at its place in the name. */
  lemma MatchModel(name: string, toSnakeCase: string -> string)
    requires Matches(name, toSnakeCase).Some?
    ensures var r := Matches(name, toSnakeCase).value;
            && |r.model| > 0
            && (forall k :: 0 <= k < |r.model| ==> IsAlnum(r.model[k]))
            && var g := Locate(name).value; g.end == |name| || !IsAlnum(name[g.end])
  {
    var g := Locate(name).value;
    AlnumsSlice(name, g.versionEnd + 1, g.end);
  }

  /** The module group, the version and the model, joined by `_`, occur in
      the name: the match is unanchored. */
  lemma MatchOccurs(name: string, toSnakeCase: string -> string)
    requires Matches(name, toSnakeCase).Some?
    ensures var r := Matches(name, toSnakeCase).value;
            var g := Locate(name).value;
            Text.OccursAt(name, name[g.start..g.moduleEnd] + "_" + r.modulePath[1] + "_" + r.model, g.start)
  {
    var g := Locate(name).value;
    var r := Matches(name, toSnakeCase).value;
    FitsOccurs(name, g.start, g.moduleEnd, g.a, g.b, g.versionEnd, g.end, r.modulePath[1], r.model);
  }

  const Chassis: string := "Chassis_v1_0_0_PowerState"

  lemma ChassisShape()
    ensures |Chassis| == 25
    ensures Chassis[0..7] == "Chassis" && Chassis[8..14] == "v1_0_0" && Chassis[15..25] == "PowerState"
    ensures Fits(Chassis, 0, 7, 10, 12, 14, 25)
    ensures forall k :: 0 <= k < |Chassis| && Chassis[k] == 'v' ==> k == 8
  {
    ChassisFits();
    ChassisOneV();
  }

  lemma ChassisFits()
    ensures Fits(Chassis, 0, 7, 10, 12, 14, 25)
  {
    ChassisModule();
    ChassisVersion();
    ChassisModel();
  }

  lemma ChassisModule()
    ensures All(Chassis, 0, 7, IsModuleChar)
  {
  }

  lemma ChassisVersion()
    ensures Chassis[7] == '_' && Chassis[8] == 'v' && Chassis[10] == '_' && Chassis[12] == '_' && Chassis[14] == '_'
    ensures Digits(Chassis, 9, 10) && Digits(Chassis, 11, 12) && Digits(Chassis, 13, 14)
  {
  }

  lemma ChassisModel()
    ensures Alnums(Chassis, 15, 25)
  {
  }

  lemma ChassisOneV()
    ensures forall k :: 0 <= k < |Chassis| && Chassis[k] == 'v' ==> k == 8
  {
  }

  /** Where the groups of `Chassis_v1_0_0_PowerState` lie. */
  lemma ChassisGroups()
    ensures Locate(Chassis) == Some(Groups(0, 7, 10, 12, 14, 25))
  {
    ChassisFits();
    ChassisOneV();
    LocateLeftmostGreedy(Chassis, 0, 7, 10, 12, 14, 25);
    var g := Locate(Chassis).value;
    assert g.start == 0;
    assert Chassis[g.moduleEnd + 1] == 'v';
    assert g.moduleEnd == 7;
    TailAtComplete(Chassis, 7, 10, 12, 14, 25);
  }

  /** `Chassis_v1_0_0_PowerState`: module group `Chassis`, version `v1_0_0`,
      model `PowerState`. */
  lemma ChassisExample(toSnakeCase: string -> string)
    ensures Matches(Chassis, toSnakeCase) == Some(ModelMatchResult([toSnakeCase("Chassis"), "v1_0_0"], "PowerState"))
  {
    ChassisShape();
    ChassisGroups();
  }
}
