/** The map that a loop of `m.put(s[j], x)` over the positions `j` of a
    sequence builds when it records positions: every key to the last position
    that holds it. */
module LastIndex {

  function Latest<K(!new)>(s: seq<K>): map<K, nat> {
    if s == [] then map[] else Latest(s[..|s| - 1])[s[|s| - 1] := |s| - 1]
  }

  /** A key is recorded exactly when some position holds it. */
  lemma {:induction false} LatestKeys<K(!new)>(s: seq<K>)
    ensures forall k :: k in Latest(s) <==> k in s
  {
    if s != [] {
      var init := s[..|s| - 1];
      LatestKeys(init);
      assert s == init + [s[|s| - 1]];
    }
  }

  /** The position recorded for `k` holds `k`, and no later one does. */
  lemma {:induction false} LatestIndex<K(!new)>(s: seq<K>, k: K)
    requires k in s
    ensures k in Latest(s) && Latest(s)[k] < |s| && s[Latest(s)[k]] == k
    ensures forall j :: Latest(s)[k] < j < |s| ==> s[j] != k
  {
    if s[|s| - 1] != k {
      var init := s[..|s| - 1];
      assert k in init by {
        var i :| 0 <= i < |s| && s[i] == k;
        assert init[i] == k;
      }
      LatestIndex(init, k);
    }
  }

  /** A position that holds `k` is at most the one recorded for it. */
  lemma LatestIsLast<K(!new)>(s: seq<K>, j: nat)
    requires j < |s|
    ensures s[j] in Latest(s) && j <= Latest(s)[s[j]]
  {
    LatestIndex(s, s[j]);
  }

  /** Recording the next position overrides only its own key. */
  lemma LatestSnoc<K(!new)>(s: seq<K>, k: K)
    ensures Latest(s + [k]) == Latest(s)[k := |s|]
  {
    assert (s + [k])[..|s|] == s;
  }
}
