/** Strings as the Java standard library treats them: `String.compareTo`,
    `String.contains`, `String.join` and `String.split` on a one-character
    separator. Java strings are sequences of UTF-16 code units; here they are
    sequences of Dafny characters and compared by code point. */
module Text {

  /** `t` occurs in `s` starting at offset `i`. */
  predicate OccursAt(s: string, t: string, i: nat) {
    i <= |s| && t <= s[i..]
  }

  /** `s.contains(t)`: `t` occurs in `s` at some offset. */
  predicate Contains(s: string, t: string) {
    exists i :: 0 <= i <= |s| && OccursAt(s, t, i)
  }

  /** `a.compareTo(b)`: the difference of the first two differing characters,
      or of the lengths when one string is a prefix of the other. */
  function CompareTo(a: string, b: string): (r: int)
    ensures r == 0 <==> a == b
    ensures a < b ==> r < 0
  {
    if a == [] || b == [] then |a| - |b|
    else if a[0] != b[0] then a[0] as int - b[0] as int
    else
      assert a == [a[0]] + a[1..] && b == [b[0]] + b[1..];
      CompareTo(a[1..], b[1..])
  }

  /** The order `sorted()` puts strings in. */
  predicate Less(a: string, b: string) {
    CompareTo(a, b) < 0
  }

  lemma {:induction false} CompareToFlips(a: string, b: string)
    ensures CompareTo(b, a) == -CompareTo(a, b)
  {
    if a != [] && b != [] && a[0] == b[0] {
      CompareToFlips(a[1..], b[1..]);
    }
  }

  lemma {:induction false} LessTransitive(a: string, b: string, c: string)
    requires Less(a, b) && Less(b, c)
    ensures Less(a, c)
  {
    if a != [] && b != [] && c != [] && a[0] == b[0] && b[0] == c[0] {
      LessTransitive(a[1..], b[1..], c[1..]);
    }
  }

  /** `Less` is a strict total order on strings. */
  lemma LessIsStrictTotalOrder()
    ensures forall a: string :: !Less(a, a)
    ensures forall a: string, b: string :: Less(a, b) ==> !Less(b, a)
    ensures forall a: string, b: string :: a != b ==> Less(a, b) || Less(b, a)
    ensures forall a: string, b: string, c: string :: Less(a, b) && Less(b, c) ==> Less(a, c)
  {
    forall a: string, b: string ensures CompareTo(b, a) == -CompareTo(a, b) {
      CompareToFlips(a, b);
    }
    forall a: string, b: string, c: string | Less(a, b) && Less(b, c) ensures Less(a, c) {
      LessTransitive(a, b, c);
    }
  }

  /** `String.join(sep, parts)`. */
  function Join(parts: seq<string>, sep: string): string
  {
    if |parts| == 0 then ""
    else if |parts| == 1 then parts[0]
    else Join(parts[..|parts| - 1], sep) + sep + parts[|parts| - 1]
  }

  /** Every piece of `s` between occurrences of `c` (the pieces of
      `s.split(c, -1)`), in order; there is always at least one. */
  function SplitAll(s: string, c: char): (parts: seq<string>)
    ensures |parts| >= 1
    ensures forall k :: 0 <= k < |parts| ==> c !in parts[k]
    ensures Join(parts, [c]) == s
    ensures c !in s ==> parts == [s]
  {
    if s == [] then [""]
    else
      var rest := SplitAll(s[..|s| - 1], c);
      assert s == s[..|s| - 1] + [s[|s| - 1]];
      if s[|s| - 1] == c then rest + [""]
      else
        var last := rest[|rest| - 1] + [s[|s| - 1]];
        var parts := rest[..|rest| - 1] + [last];
        assert parts[..|parts| - 1] == rest[..|rest| - 1];
        if |rest| == 1 then parts
        else
          assert rest == rest[..|rest| - 1] + [rest[|rest| - 1]];
          parts
  }

  function DropTrailingEmpty(parts: seq<string>): (r: seq<string>)
    ensures r <= parts
    ensures r != [] ==> r[|r| - 1] != ""
    ensures forall k :: |r| <= k < |parts| ==> parts[k] == ""
  {
    if parts != [] && parts[|parts| - 1] == "" then DropTrailingEmpty(parts[..|parts| - 1])
    else parts
  }

  /** Pieces that are all empty are all dropped. */
  lemma {:induction false} AllEmptyDropped(parts: seq<string>)
    requires forall k :: 0 <= k < |parts| ==> parts[k] == ""
    ensures DropTrailingEmpty(parts) == []
  {
    if parts != [] {
      AllEmptyDropped(parts[..|parts| - 1]);
    }
  }

  /** `s.split(c)` with the default limit: when `c` does not occur the whole
      string is the only element, otherwise trailing empty pieces are removed. */
  function Split(s: string, c: char): (parts: seq<string>)
    ensures forall k :: 0 <= k < |parts| ==> c !in parts[k]
  {
    if c !in s then [s] else DropTrailingEmpty(SplitAll(s, c))
  }

  /** Every character of a piece occurs in the joined string. */
  lemma {:induction false} PieceInJoin(parts: seq<string>, sep: string, k: nat, ch: char)
    requires k < |parts| && ch in parts[k]
    ensures ch in Join(parts, sep)
    decreases |parts|
  {
    if |parts| > 1 && k < |parts| - 1 {
      PieceInJoin(parts[..|parts| - 1], sep, k, ch);
    }
  }

  /** Joining empty pieces with `c` leaves one `c` between each two. */
  lemma {:induction false} JoinOfEmpty(parts: seq<string>, c: char)
    requires |parts| >= 1 && forall k :: 0 <= k < |parts| ==> parts[k] == ""
    ensures |Join(parts, [c])| == |parts| - 1
    ensures forall k :: 0 <= k < |Join(parts, [c])| ==> Join(parts, [c])[k] == c
  {
    if |parts| > 1 {
      JoinOfEmpty(parts[..|parts| - 1], c);
    }
  }

  /** Dropping empty pieces `m..` from the end removes only a run of `c`s. */
  lemma {:induction false} JoinTrailingEmpty(parts: seq<string>, c: char, m: nat)
    requires 1 <= m <= |parts|
    requires forall k :: m <= k < |parts| ==> parts[k] == ""
    ensures exists t :: Join(parts, [c]) == Join(parts[..m], [c]) + t && forall k :: 0 <= k < |t| ==> t[k] == c
    decreases |parts| - m
  {
    if m == |parts| {
      assert parts[..m] == parts;
      assert Join(parts, [c]) == Join(parts[..m], [c]) + [];
    } else {
      var init := parts[..|parts| - 1];
      assert init[..m] == parts[..m];
      JoinTrailingEmpty(init, c, m);
      var t :| Join(init, [c]) == Join(init[..m], [c]) + t && forall k :: 0 <= k < |t| ==> t[k] == c;
      assert Join(parts, [c]) == Join(parts[..m], [c]) + (t + [c]);
    }
  }

  /** `s.split(c)` is empty exactly when `s` is non-empty and made of `c`s only. */
  lemma SplitEmptyIff(s: string, c: char)
    ensures Split(s, c) == [] <==> s != [] && forall k :: 0 <= k < |s| ==> s[k] == c
  {
    var all := SplitAll(s, c);
    if s != [] && forall k :: 0 <= k < |s| ==> s[k] == c {
      assert s[0] == c;
      forall k | 0 <= k < |all| ensures all[k] == "" {
        if all[k] != "" {
          PieceInJoin(all, [c], k, all[k][0]);
        }
      }
      AllEmptyDropped(all);
    }
    if Split(s, c) == [] {
      assert c in s;
      JoinOfEmpty(all, c);
    }
  }

  /** The last piece of `s.split(c)` follows the start of `s` or a `c`, and
      only `c`s follow it. */
  lemma LastPiece(s: string, c: char) returns (w: string, t: string)
    requires Split(s, c) != []
    ensures s == w + Split(s, c)[|Split(s, c)| - 1] + t
    ensures w == [] || w[|w| - 1] == c
    ensures forall k :: 0 <= k < |t| ==> t[k] == c
  {
    var parts := Split(s, c);
    var x := parts[|parts| - 1];
    if c !in s {
      w, t := [], [];
      assert s == w + x + t;
    } else {
      var all := SplitAll(s, c);
      var m := |parts|;
      assert parts == all[..m];
      JoinTrailingEmpty(all, c, m);
      t :| Join(all, [c]) == Join(all[..m], [c]) + t && forall k :: 0 <= k < |t| ==> t[k] == c;
      if m == 1 {
        w := [];
        assert s == w + x + t;
      } else {
        w := Join(all[..m][..m - 1], [c]) + [c];
        assert s == w + x + t;
      }
    }
  }
}
