/** The `(pfail, reliability)` series the gate evaluates per endpoint (gate.py), with the library
    operations applied to them: a stable sort by failure probability, the minimum reliability, and
    the first entry that attains it. */
module GateScores {

  datatype Score = Score(pfail: real, reliability: real)

  predicate SortedByPfail(s: seq<Score>)
  {
    forall i, j :: 0 <= i < j < |s| ==> s[i].pfail <= s[j].pfail
  }

  // ---------------------------------------------------------------------------------------------
  // Stable sort by failure probability

  /** Places `x` after every entry whose failure probability is not larger than its own. */
  function Insert(s: seq<Score>, x: Score): (r: seq<Score>)
    ensures multiset(r) == multiset(s) + multiset{x}
    ensures |r| == |s| + 1
  {
    if s == [] || s[|s| - 1].pfail <= x.pfail then s + [x]
    else
      assert s == s[..|s| - 1] + [s[|s| - 1]];
      Insert(s[..|s| - 1], x) + [s[|s| - 1]]
  }

  lemma {:induction false} InsertSorted(s: seq<Score>, x: Score)
    requires SortedByPfail(s)
    ensures SortedByPfail(Insert(s, x))
  {
    if s != [] && s[|s| - 1].pfail > x.pfail {
      var init, last := s[..|s| - 1], s[|s| - 1];
      InsertSorted(init, x);
      var r := Insert(init, x);
      forall i | 0 <= i < |r| ensures r[i].pfail <= last.pfail {
        assert r[i] in multiset(r);
        if r[i] != x {
          assert r[i] in multiset(init);
          var j :| 0 <= j < |init| && init[j] == r[i];
          assert s[j] == init[j];
        }
      }
    }
  }

  /** `entries.sort(key=lambda pair: pair[0])`: Python's sort is stable, as insertion sort is. */
  function SortByPfail(s: seq<Score>): (r: seq<Score>)
    ensures multiset(r) == multiset(s)
    ensures |r| == |s|
  {
    if s == [] then []
    else
      assert s == s[..|s| - 1] + [s[|s| - 1]];
      Insert(SortByPfail(s[..|s| - 1]), s[|s| - 1])
  }

  lemma {:induction false} SortByPfailSorted(s: seq<Score>)
    ensures SortedByPfail(SortByPfail(s))
  {
    if s != [] {
      SortByPfailSorted(s[..|s| - 1]);
      InsertSorted(SortByPfail(s[..|s| - 1]), s[|s| - 1]);
    }
  }

  /** The entries whose failure probability is `q`, in their order. */
  function WithPfail(s: seq<Score>, q: real): seq<Score>
  {
    if s == [] then []
    else WithPfail(s[..|s| - 1], q) + (if s[|s| - 1].pfail == q then [s[|s| - 1]] else [])
  }

  lemma {:induction false} WithPfailAppend(a: seq<Score>, b: seq<Score>, q: real)
    ensures WithPfail(a + b, q) == WithPfail(a, q) + WithPfail(b, q)
    decreases |b|
  {
    if b == [] {
      assert a + b == a;
    } else {
      var init := b[..|b| - 1];
      assert (a + b)[..|a + b| - 1] == a + init;
      WithPfailAppend(a, init, q);
    }
  }

  lemma WithPfailSingle(x: Score, q: real)
    ensures WithPfail([x], q) == if x.pfail == q then [x] else []
  {
    assert [x][..0] == [];
  }

  lemma SortedInit(s: seq<Score>)
    requires SortedByPfail(s) && s != []
    ensures SortedByPfail(s[..|s| - 1])
  {
    var init := s[..|s| - 1];
    forall i, j | 0 <= i < j < |init| ensures init[i].pfail <= init[j].pfail {
      assert init[i] == s[i] && init[j] == s[j];
    }
  }

  lemma {:induction false} InsertStable(s: seq<Score>, x: Score, q: real)
    requires SortedByPfail(s)
    ensures WithPfail(Insert(s, x), q) == WithPfail(s, q) + WithPfail([x], q)
  {
    if s == [] || s[|s| - 1].pfail <= x.pfail {
      WithPfailAppend(s, [x], q);
    } else {
      SortedInit(s);
      InsertStable(s[..|s| - 1], x, q);
      InsertBehindLast(s, x, q);
    }
  }

  /** When `x` goes in front of the last entry: if inserting it into the rest keeps the order of
      the entries with failure probability `q`, so does inserting it into the whole. */
  lemma InsertBehindLast(s: seq<Score>, x: Score, q: real)
    requires s != [] && s[|s| - 1].pfail > x.pfail
    requires WithPfail(Insert(s[..|s| - 1], x), q) == WithPfail(s[..|s| - 1], q) + WithPfail([x], q)
    ensures WithPfail(Insert(s, x), q) == WithPfail(s, q) + WithPfail([x], q)
  {
    var init, last := s[..|s| - 1], s[|s| - 1];
    var r := Insert(init, x);
    var wi, wx, wl := WithPfail(init, q), WithPfail([x], q), WithPfail([last], q);
    assert WithPfail(Insert(s, x), q) == WithPfail(r, q) + wl by {
      assert Insert(s, x) == r + [last];
      WithPfailAppend(r, [last], q);
    }
    assert WithPfail(s, q) == wi + wl by {
      WithPfailSingle(last, q);
    }
    assert wx == [] || wl == [] by {
      WithPfailSingle(x, q);
      WithPfailSingle(last, q);
    }
    SwapAroundEmpty(wi, wx, wl);
  }

  /** Two sequences one of which is empty can be appended in either order. */
  lemma SwapAroundEmpty<T>(a: seq<T>, b: seq<T>, c: seq<T>)
    requires b == [] || c == []
    ensures a + b + c == a + c + b
  {
    if b == [] {
      assert a + b == a && a + c + b == a + c;
    } else {
      assert a + c == a && a + b + c == a + b;
    }
  }

  /** The sort is stable: entries with equal failure probability keep their relative order. */
  lemma {:induction false} SortByPfailStable(s: seq<Score>, q: real)
    ensures WithPfail(SortByPfail(s), q) == WithPfail(s, q)
  {
    if s != [] {
      var init, last := s[..|s| - 1], s[|s| - 1];
      var sorted := SortByPfail(init);
      SortByPfailStable(init, q);
      SortByPfailSorted(init);
      InsertStable(sorted, last, q);
      assert SortByPfail(s) == Insert(sorted, last);
      WithPfailSingle(last, q);
    }
  }

  // ---------------------------------------------------------------------------------------------
  // Minimum reliability

  /** `min(reliability for _, reliability in entries)`. */
  function MinReliability(s: seq<Score>): (m: real)
    requires s != []
    ensures forall i :: 0 <= i < |s| ==> m <= s[i].reliability
    ensures exists i :: 0 <= i < |s| && m == s[i].reliability
  {
    if |s| == 1 then s[0].reliability
    else
      var m0 := MinReliability(s[..|s| - 1]);
      assert forall i :: 0 <= i < |s| - 1 ==> s[..|s| - 1][i] == s[i];
      if s[|s| - 1].reliability < m0 then s[|s| - 1].reliability else m0
  }

  /** The minimum depends only on which entries there are, not on their order. */
  lemma MinReliabilityOfPermutation(a: seq<Score>, b: seq<Score>)
    requires a != [] && multiset(a) == multiset(b)
    ensures b != [] && MinReliability(a) == MinReliability(b)
  {
    assert a[0] in multiset(b);
    var i :| 0 <= i < |a| && MinReliability(a) == a[i].reliability;
    var j :| 0 <= j < |b| && MinReliability(b) == b[j].reliability;
    assert a[i] in multiset(b);
    assert b[j] in multiset(a);
  }

  /** `min(entries, key=lambda pair: pair[1])`: the first entry with the minimum reliability, as a
      scan that replaces its candidate only on a strictly smaller value finds it. */
  function FirstMinimum(s: seq<Score>): (k: nat)
    requires s != []
    ensures k < |s| && s[k].reliability == MinReliability(s)
    ensures forall j :: 0 <= j < k ==> s[j].reliability > s[k].reliability
  {
    if |s| == 1 then 0
    else
      var init := s[..|s| - 1];
      var k := FirstMinimum(init);
      assert forall j :: 0 <= j < |init| ==> init[j] == s[j];
      if s[|s| - 1].reliability < s[k].reliability then |s| - 1 else k
  }
}
