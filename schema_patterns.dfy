/** The leftmost-then-greedy search `Matcher.find()` performs for the two
    schema-name patterns `(?<module>[a-zA-z0-9]*)_<tail>`: the module group is
    a run of characters of the class `[a-zA-z0-9]`, and the rest of the
    pattern (the tail) starts with the `_` that ends the module group.

    The search tries every start offset from the left; at a start offset the
    module group first takes the whole run of class characters and gives back
    one character at a time until the tail matches where the group ends. */
module SchemaPatterns {
  import opened Wrappers

  /** The class `[a-zA-z0-9]`. Its middle range runs from `A` to `z`, so it
      also holds `[ \ ] ^ _` and the backtick. */
  predicate IsModuleChar(c: char) {
    ('a' <= c <= 'z') || ('A' <= c <= 'z') || ('0' <= c <= '9')
  }

  /** The class `[a-zA-Z0-9]`. */
  predicate IsAlnum(c: char) {
    ('a' <= c <= 'z') || ('A' <= c <= 'Z') || ('0' <= c <= '9')
  }

  /** The class `[0-9]`. */
  predicate IsDigit(c: char) {
    '0' <= c <= '9'
  }

  lemma ModuleClassQuirk()
    ensures IsModuleChar('_') && IsModuleChar('[') && IsModuleChar('^') && IsModuleChar('`')
    ensures !IsAlnum('_')
    ensures forall c :: IsAlnum(c) ==> IsModuleChar(c)
  {
  }

  /** Every character of `s[i..j]` is in the class `p`. */
  predicate All(s: string, i: nat, j: nat, p: char -> bool) {
    i <= j <= |s| && forall k :: i <= k < j ==> p(s[k])
  }

  /** The end of the run of characters of class `p` that starts at `i`. */
  function RunEnd(s: string, i: nat, p: char -> bool): (e: nat)
    requires i <= |s|
    ensures All(s, i, e, p)
    ensures e < |s| ==> !p(s[e])
    decreases |s| - i
  {
    if i < |s| && p(s[i]) then RunEnd(s, i + 1, p) else i
  }

  /** A run of class `p` starting at `i` ends no later than `RunEnd`, and when
      the character after it is outside `p` it ends exactly there. */
  lemma RunEndBounds(s: string, i: nat, j: nat, p: char -> bool)
    requires i <= |s|
    requires All(s, i, j, p)
    ensures j <= RunEnd(s, i, p)
    ensures j < |s| && !p(s[j]) ==> RunEnd(s, i, p) == j
  {
  }

  /** `s[i..j]` is a non-empty run of digits. */
  predicate Digits(s: string, i: nat, j: nat) {
    i < j && All(s, i, j, IsDigit)
  }

  /** `s[i..j]` is a non-empty run of `[a-zA-Z0-9]`. */
  predicate Alnums(s: string, i: nat, j: nat) {
    i < j && All(s, i, j, IsAlnum)
  }

  /** The module group can span `s[st..me]` and the tail matches at `me`. */
  predicate MatchAt(s: string, st: nat, me: nat, tail: (string, nat) -> bool) {
    All(s, st, me, IsModuleChar) && tail(s, me)
  }

  /** The greedy module group at start `st`: the largest end at most `me`
      where the tail matches. */
  function SearchDown(s: string, st: nat, me: nat, tail: (string, nat) -> bool): (r: Option<nat>)
    requires All(s, st, me, IsModuleChar)
    ensures r.Some? ==> st <= r.value <= me && MatchAt(s, st, r.value, tail)
    ensures r.Some? ==> forall m: nat :: r.value < m <= me ==> !tail(s, m)
    ensures r.None? ==> forall m: nat :: st <= m <= me ==> !tail(s, m)
    decreases me
  {
    if tail(s, me) then Some(me)
    else if me == st then None
    else SearchDown(s, st, me - 1, tail)
  }

  /** `find()` from offset `from` on: the first start offset at which the
      pattern matches, with the greedy module end there. */
  function FindFrom(s: string, from: nat, tail: (string, nat) -> bool): (r: Option<(nat, nat)>)
    requires from <= |s|
    ensures r.None? ==> forall st: nat, me: nat :: from <= st && MatchAt(s, st, me, tail) ==> false
    ensures r.Some? ==> from <= r.value.0 && MatchAt(s, r.value.0, r.value.1, tail)
    ensures r.Some? ==> forall st: nat, me: nat :: from <= st < r.value.0 && MatchAt(s, st, me, tail) ==> false
    ensures r.Some? ==> forall me: nat :: r.value.1 < me && MatchAt(s, r.value.0, me, tail) ==> false
    decreases |s| - from
  {
    var end := RunEnd(s, from, IsModuleChar);
    var found := SearchDown(s, from, end, tail);
    forall me: nat | MatchAt(s, from, me, tail) ensures me <= end {
      RunEndBounds(s, from, me, IsModuleChar);
    }
    if found.Some? then Some((from, found.value))
    else if from == |s| then None
    else
      var r := FindFrom(s, from + 1, tail);
      r
  }

  /** `matcher.find()` on the whole string. */
  function Find(s: string, tail: (string, nat) -> bool): (r: Option<(nat, nat)>)
    ensures r.None? <==> forall st: nat, me: nat :: !MatchAt(s, st, me, tail)
    ensures r.Some? ==> MatchAt(s, r.value.0, r.value.1, tail)
    ensures r.Some? ==> forall st: nat, me: nat :: st < r.value.0 ==> !MatchAt(s, st, me, tail)
    ensures r.Some? ==> forall me: nat :: r.value.1 < me ==> !MatchAt(s, r.value.0, me, tail)
  {
    FindFrom(s, 0, tail)
  }
}
