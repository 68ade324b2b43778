/**
 * The ranking step of `recommend`. A row of the similarity matrix is
 * enumerated (each score paired with its position), sorted by
 * score from high to low by a stable sort (equal scores keep their original,
 * ascending-position order even with reverse=True), and the entries at sorted
 * positions 1 to 5 are kept. The entry at sorted position 0, the "head", is
 * dropped whatever it is.
 */
module Ranking {

  /** One pair produced by `enumerate(row)`: a catalog position and its score. */
  datatype Scored = Scored(index: nat, score: real)

  /** `enumerate(row)` as a list. */
  function Enumerate(row: seq<real>): seq<Scored>
  {
    seq(|row|, i requires 0 <= i < |row| => Scored(i, row[i]))
  }

  /**
   * `a` comes before `b` in the stable descending sort of an enumerated row:
   * a higher score, or the same score and a lower position.
   */
  predicate Outranks(a: Scored, b: Scored) {
    a.score > b.score || (a.score == b.score && a.index < b.index)
  }

  /** Every entry outranks every later entry. */
  predicate StrictlyRanked(s: seq<Scored>) {
    forall i, j :: 0 <= i < j < |s| ==> Outranks(s[i], s[j])
  }

  /** Positions strictly increase along the list, as they do in `enumerate`. */
  predicate IndicesIncreasing(s: seq<Scored>) {
    forall i, j :: 0 <= i < j < |s| ==> s[i].index < s[j].index
  }

  /**
   * Inserts `x` after every entry whose score is at least its own: the step
   * of a stable descending insertion sort in which `x` is the latest element.
   */
  function InsertDesc(x: Scored, s: seq<Scored>): (r: seq<Scored>)
    ensures |r| == |s| + 1
    ensures multiset(r) == multiset(s) + multiset{x}
  {
    if s == [] then [x]
    else if s[0].score >= x.score then
      assert s == [s[0]] + s[1..];
      [s[0]] + InsertDesc(x, s[1..])
    else [x] + s
  }

  /** Python's `sorted(s, key=score, reverse=True)`, as a stable insertion sort. */
  function SortDesc(s: seq<Scored>): (r: seq<Scored>)
    ensures |r| == |s|
    ensures multiset(r) == multiset(s)
    decreases |s|
  {
    if s == [] then []
    else
      assert s == s[..|s| - 1] + [s[|s| - 1]];
      InsertDesc(s[|s| - 1], SortDesc(s[..|s| - 1]))
  }

  /** The sorted, enumerated row before slicing. */
  function Ranked(row: seq<real>): (r: seq<Scored>)
    ensures |r| == |row|
    ensures multiset(r) == multiset(Enumerate(row))
    ensures StrictlyRanked(r)
  {
    SortRanks(Enumerate(row));
    SortDesc(Enumerate(row))
  }

  function Min(a: int, b: int): int { if a <= b then a else b }

  function Max(a: int, b: int): int { if a <= b then b else a }

  /** Python's `s[lo:hi]` for 0 <= lo <= hi: bounds past the end are clipped. */
  function Slice<T>(s: seq<T>, lo: nat, hi: nat): seq<T>
    requires lo <= hi
  {
    s[Min(lo, |s|)..Min(hi, |s|)]
  }

  /** The five recommendations: sorted positions 1 to 5 of the ranked row. */
  function TopFive(row: seq<real>): (r: seq<Scored>)
    ensures |r| == Min(5, Max(0, |row| - 1))
  {
    Slice(Ranked(row), 1, 6)
  }

  /** The positions named by a list of scored entries. */
  function Positions(s: seq<Scored>): seq<nat>
  {
    seq(|s|, k requires 0 <= k < |s| => s[k].index)
  }

  /** `p` is the lowest position whose score is the maximum of the row. */
  predicate IsLowestArgMax(row: seq<real>, p: nat) {
    && p < |row|
    && (forall j :: 0 <= j < |row| ==> row[j] <= row[p])
    && (forall j :: 0 <= j < p ==> row[j] < row[p])
  }

  /** The positions that the sort places ahead of position `p`. */
  function AheadOf(row: seq<real>, p: nat): set<nat>
    requires p < |row|
  {
    set j: nat | j < |row| && Outranks(Scored(j, row[j]), Scored(p, row[p]))
  }

  // ---------------------------------------------------------------------
  // The sort keeps the ranking
  // ---------------------------------------------------------------------

  /** An element of a list is one of its entries, at some position. */
  lemma InMultisetAt(y: Scored, s: seq<Scored>) returns (m: nat)
    requires y in multiset(s)
    ensures m < |s| && s[m] == y
  {
    assert y in s;
    m :| 0 <= m < |s| && s[m] == y;
  }

  /**
   * Inserting an entry whose position exceeds every position already in a
   * ranked list leaves the list ranked.
   */
  lemma {:induction false} InsertKeepsRanked(x: Scored, s: seq<Scored>)
    requires StrictlyRanked(s)
    requires forall k :: 0 <= k < |s| ==> s[k].index < x.index
    ensures StrictlyRanked(InsertDesc(x, s))
  {
    if s == [] {
    } else if s[0].score >= x.score {
      InsertKeepsRanked(x, s[1..]);
      var t := InsertDesc(x, s[1..]);
      forall k | 0 <= k < |t|
        ensures Outranks(s[0], t[k])
      {
        assert t[k] in multiset(t);
        if t[k] != x {
          var m := InMultisetAt(t[k], s[1..]);
          assert Outranks(s[0], s[m + 1]);
        }
      }
      var r := [s[0]] + t;
      forall i, j | 0 <= i < j < |r|
        ensures Outranks(r[i], r[j])
      {
        if i == 0 {
          assert r[j] == t[j - 1];
        } else {
          assert r[i] == t[i - 1] && r[j] == t[j - 1];
        }
      }
    } else {
      var r := [x] + s;
      forall i, j | 0 <= i < j < |r|
        ensures Outranks(r[i], r[j])
      {
        if i == 0 {
          assert r[j] == s[j - 1];
          if j > 1 {
            assert Outranks(s[0], s[j - 1]);
          }
        } else {
          assert r[i] == s[i - 1] && r[j] == s[j - 1];
        }
      }
    }
  }

  /** Sorting a list whose positions increase yields a ranked list. */
  lemma {:induction false} SortRanks(s: seq<Scored>)
    requires IndicesIncreasing(s)
    ensures StrictlyRanked(SortDesc(s))
    decreases |s|
  {
    if s != [] {
      var init, x := s[..|s| - 1], s[|s| - 1];
      SortRanks(init);
      var t := SortDesc(init);
      forall k | 0 <= k < |t|
        ensures t[k].index < x.index
      {
        assert t[k] in multiset(t);
        var m := InMultisetAt(t[k], init);
      }
      InsertKeepsRanked(x, t);
    }
  }

  // ---------------------------------------------------------------------
  // Properties of the ranked row
  // ---------------------------------------------------------------------

  /** Every entry of the ranked row is some position paired with its own score. */
  lemma RankedEntry(row: seq<real>, k: nat)
    requires k < |row|
    ensures Ranked(row)[k].index < |row|
    ensures Ranked(row)[k].score == row[Ranked(row)[k].index]
  {
    var r := Ranked(row);
    assert r[k] in multiset(r);
    var m := InMultisetAt(r[k], Enumerate(row));
  }

  /**
   * The ranked row is a permutation of `enumerate(row)`: each position
   * 0..N-1 occurs exactly once, paired with its own score.
   */
  lemma RankedIsPermutation(row: seq<real>)
    ensures |Ranked(row)| == |row|
    ensures forall k :: 0 <= k < |row| ==>
      Ranked(row)[k].index < |row| && Ranked(row)[k].score == row[Ranked(row)[k].index]
    ensures forall i :: 0 <= i < |row| ==> Scored(i, row[i]) in Ranked(row)
    ensures forall k, l :: 0 <= k < l < |row| ==> Ranked(row)[k].index != Ranked(row)[l].index
  {
    var r := Ranked(row);
    forall k | 0 <= k < |row|
      ensures r[k].index < |row| && r[k].score == row[r[k].index]
    {
      RankedEntry(row, k);
    }
    forall i | 0 <= i < |row|
      ensures Scored(i, row[i]) in r
    {
      assert Enumerate(row)[i] == Scored(i, row[i]);
      assert Scored(i, row[i]) in multiset(Enumerate(row));
    }
  }

  /**
   * The ranked row is non-increasing in score, and equal scores keep their
   * ascending-position order: the sort is stable under reverse=True.
   */
  lemma RankedIsSorted(row: seq<real>)
    ensures forall k, l :: 0 <= k < l < |Ranked(row)| ==> Ranked(row)[k].score >= Ranked(row)[l].score
    ensures forall k, l :: 0 <= k < l < |Ranked(row)| && Ranked(row)[k].score == Ranked(row)[l].score ==>
      Ranked(row)[k].index < Ranked(row)[l].index
  {
  }

  /**
   * Two ranked lists holding the same entries are equal: the ranking is
   * determined by its entries alone.
   */
  lemma {:induction false} RankedListsAgree(a: seq<Scored>, b: seq<Scored>)
    requires StrictlyRanked(a) && StrictlyRanked(b)
    requires multiset(a) == multiset(b)
    ensures a == b
    decreases |a|
  {
    if a == [] {
      assert |b| == |multiset(b)| == 0;
    } else {
      assert |b| == |multiset(b)| == |multiset(a)| == |a|;
      assert a[0] in multiset(b);
      var kb := InMultisetAt(a[0], b);
      assert b[0] in multiset(a);
      var ka := InMultisetAt(b[0], a);
      // Each head would outrank the other if they were different entries.
      assert a[0] == b[0];
      assert a == [a[0]] + a[1..] && b == [b[0]] + b[1..];
      assert multiset(a) == multiset{a[0]} + multiset(a[1..]);
      assert multiset(b) == multiset{b[0]} + multiset(b[1..]);
      assert multiset(a[1..]) == multiset(a) - multiset{a[0]} == multiset(b) - multiset{b[0]} == multiset(b[1..]);
      RankedListsAgree(a[1..], b[1..]);
    }
  }

  /**
   * Reference characterisation of the sort: any permutation of
   * `enumerate(row)` that is ranked by descending score, ties by ascending
   * position, is exactly the ranked row.
   */
  lemma RankedIsUnique(row: seq<real>, s: seq<Scored>)
    requires multiset(s) == multiset(Enumerate(row))
    requires StrictlyRanked(s)
    ensures s == Ranked(row)
  {
    RankedListsAgree(s, Ranked(row));
  }

  // ---------------------------------------------------------------------
  // Properties of the five recommendations
  // ---------------------------------------------------------------------

  /**
   * The recommendations are ranked row entries 1 to 5: each names a
   * position in range with its own score, no position twice, never the
   * dropped head, in descending score order with ties by ascending position.
   */
  lemma TopFiveEntries(row: seq<real>)
    ensures forall k :: 0 <= k < |TopFive(row)| ==>
      TopFive(row)[k].index < |row| && TopFive(row)[k].score == row[TopFive(row)[k].index]
    ensures forall k, l :: 0 <= k < l < |TopFive(row)| ==> TopFive(row)[k].index != TopFive(row)[l].index
    ensures forall k :: 0 <= k < |TopFive(row)| ==> TopFive(row)[k].index != Ranked(row)[0].index
    ensures StrictlyRanked(TopFive(row))
  {
    var r, t := Ranked(row), TopFive(row);
    RankedIsPermutation(row);
    forall k | 0 <= k < |t|
      ensures t[k] == r[k + 1]
    {
    }
  }

  /**
   * Top-k dominance: every position that is neither recommended nor the
   * dropped head is outranked by the last recommendation, so its score is at
   * most the last recommended score.
   */
  lemma TopFiveDominates(row: seq<real>, i: nat)
    requires i < |row|
    requires |TopFive(row)| > 0
    requires i != Ranked(row)[0].index
    requires i !in Positions(TopFive(row))
    ensures Outranks(TopFive(row)[|TopFive(row)| - 1], Scored(i, row[i]))
    ensures row[i] <= TopFive(row)[|TopFive(row)| - 1].score
  {
    var r, t := Ranked(row), TopFive(row);
    RankedIsPermutation(row);
    var m := InMultisetAt(Scored(i, row[i]), r);
    RecommendedIffPlace(row, i, m);
    assert t[|t| - 1] == r[|t|];
  }

  /**
   * The dropped head is the lowest position attaining the row's maximum, and
   * a position is dropped as the head exactly when it is that position.
   */
  lemma HeadIsLowestArgMax(row: seq<real>, p: nat)
    requires p < |row|
    ensures IsLowestArgMax(row, Ranked(row)[0].index)
    ensures Ranked(row)[0].index == p <==> IsLowestArgMax(row, p)
  {
    var r := Ranked(row);
    RankedIsPermutation(row);
    var h := r[0].index;
    forall j | 0 <= j < |row|
      ensures row[j] <= row[h]
      ensures j < h ==> row[j] < row[h]
    {
      var m := InMultisetAt(Scored(j, row[j]), r);
      if m != 0 {
        assert Outranks(r[0], r[m]);
      }
    }
  }

  /** `|{ xs[k] | k < n }| == n` for a list of distinct positions. */
  lemma {:induction false} DistinctPrefixCard(xs: seq<nat>, n: nat)
    requires n <= |xs|
    requires forall k, l :: 0 <= k < l < |xs| ==> xs[k] != xs[l]
    ensures |set k | 0 <= k < n :: xs[k]| == n
  {
    if n > 0 {
      DistinctPrefixCard(xs, n - 1);
      var before := set k | 0 <= k < n - 1 :: xs[k];
      assert (set k | 0 <= k < n :: xs[k]) == before + {xs[n - 1]};
      assert xs[n - 1] !in before;
    }
  }

  /**
   * The place of a position in the ranked row is the number of positions
   * ahead of it.
   */
  lemma PlaceIsRank(row: seq<real>, p: nat, m: nat)
    requires p < |row| && m < |row|
    requires Ranked(row)[m].index == p
    ensures |AheadOf(row, p)| == m
  {
    var r := Ranked(row);
    RankedIsPermutation(row);
    var pos := Positions(r);
    var ahead := set k | 0 <= k < m :: pos[k];
    forall j | j in AheadOf(row, p)
      ensures j in ahead
    {
      var l := InMultisetAt(Scored(j, row[j]), r);
      if l >= m {
        assert false;
      }
      assert pos[l] == j;
    }
    forall j | j in ahead
      ensures j in AheadOf(row, p)
    {
      var k :| 0 <= k < m && pos[k] == j;
      assert Outranks(r[k], r[m]);
    }
    assert AheadOf(row, p) == ahead;
    DistinctPrefixCard(pos, m);
  }

  /** A position is recommended exactly when its place in the ranked row is 1 to 5. */
  lemma RecommendedIffPlace(row: seq<real>, p: nat, m: nat)
    requires m < |row|
    requires Ranked(row)[m].index == p
    ensures p in Positions(TopFive(row)) <==> 1 <= m <= 5
  {
    var r, t := Ranked(row), TopFive(row);
    RankedIsPermutation(row);
    if p in Positions(t) {
      var k :| 0 <= k < |t| && Positions(t)[k] == p;
      assert t[k] == r[k + 1];
      assert k + 1 == m;
    }
    if 1 <= m <= 5 {
      assert t[m - 1] == r[m];
      assert Positions(t)[m - 1] == p;
    }
  }

  /**
   * The selected position is recommended exactly when one to five
   * positions are ranked ahead of it. In particular it is left out when it
   * is the lowest position attaining the row's maximum (nothing is ahead
   * of it), and also when six or more positions are ahead of it.
   */
  lemma SelectedRecommendedIff(row: seq<real>, p: nat)
    requires p < |row|
    ensures p in Positions(TopFive(row)) <==> 1 <= |AheadOf(row, p)| <= 5
    ensures |AheadOf(row, p)| == 0 <==> IsLowestArgMax(row, p)
  {
    RankedIsPermutation(row);
    var m := InMultisetAt(Scored(p, row[p]), Ranked(row));
    PlaceIsRank(row, p, m);
    RecommendedIffPlace(row, p, m);
    HeadIsLowestArgMax(row, p);
  }

  /**
   * When the selected position's score is strictly above every other score
   * of its row (its self-similarity), it is never recommended to itself.
   */
  lemma SelectedExcludedWhenStrictMax(row: seq<real>, p: nat)
    requires p < |row|
    requires forall j :: 0 <= j < |row| && j != p ==> row[j] < row[p]
    ensures p !in Positions(TopFive(row))
  {
    SelectedRecommendedIff(row, p);
    assert IsLowestArgMax(row, p);
  }

  /**
   * The head, not the selected position, is what the slice drops: with a
   * tie at the top of row [1, 1, 0] and position 1 selected, position 0 is
   * dropped and position 1 is recommended to itself.
   */
  lemma SelectedCanBeRecommended()
    ensures 1 in Positions(TopFive([1.0, 1.0, 0.0]))
  {
    var row := [1.0, 1.0, 0.0];
    SelectedRecommendedIff(row, 1);
    assert AheadOf(row, 1) == {0};
  }

  /** The entries of the example row below, in the order the sort gives them. */
  function TieExampleRanking(): seq<Scored> {
    [Scored(3, 1.0), Scored(0, 0.9), Scored(2, 0.9), Scored(4, 0.9), Scored(1, 0.5)]
  }

  lemma TieExampleIsPermutation(row: seq<real>)
    requires row == [0.9, 0.5, 0.9, 1.0, 0.9]
    ensures multiset(TieExampleRanking()) == multiset(Enumerate(row))
  {
    assert Enumerate(row) == [Scored(0, 0.9), Scored(1, 0.5), Scored(2, 0.9), Scored(3, 1.0), Scored(4, 0.9)];
  }

  lemma TieExampleIsRanked()
    ensures StrictlyRanked(TieExampleRanking())
  {
  }

  /**
   * Ties keep ascending position order: in row [0.9, 0.5, 0.9, 1.0, 0.9]
   * position 3 is the head and the three 0.9 scores follow in the order
   * 0, 2, 4, before position 1.
   */
  lemma StableTieOrderExample(row: seq<real>)
    requires row == [0.9, 0.5, 0.9, 1.0, 0.9]
    ensures TopFive(row) == [Scored(0, 0.9), Scored(2, 0.9), Scored(4, 0.9), Scored(1, 0.5)]
  {
    TieExampleIsPermutation(row);
    TieExampleIsRanked();
    RankedIsUnique(row, TieExampleRanking());
  }
}
