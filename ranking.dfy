/**
 * The top-5 leaderboard shared by the browser and the server: scores ordered by
 * moves, then time, kept in a stable order and cut to the first five.
 */
module Ranking {

  import opened Wrappers

  const MaxScores: nat := 5

  datatype Score = Score(name: string, moves: int, time: int)

  /** The sort comparator: negative, zero or positive as a goes before, ties with, or after b. */
  function Compare(a: Score, b: Score): int {
    if a.moves != b.moves then a.moves - b.moves else a.time - b.time
  }

  /** a may stand before b. */
  predicate Le(a: Score, b: Score) {
    a.moves < b.moves || (a.moves == b.moves && a.time <= b.time)
  }

  /** Le is what the comparator says. */
  lemma LeIsCompare(a: Score, b: Score)
    ensures Le(a, b) <==> Compare(a, b) <= 0
  {
  }

  /** The comparator is a total preorder on (moves, time). */
  lemma CompareIsTotalPreorder(a: Score, b: Score, c: Score)
    ensures Le(a, a)
    ensures Le(a, b) || Le(b, a)
    ensures Le(a, b) && Le(b, c) ==> Le(a, c)
    ensures Le(a, b) && Le(b, a) <==> a.moves == b.moves && a.time == b.time
  {
  }

  predicate Sorted(s: seq<Score>) {
    forall i, j :: 0 <= i < j < |s| ==> Le(s[i], s[j])
  }

  /** Inserts x after every entry of t that does not come after it (so after its ties). */
  function Insert(t: seq<Score>, x: Score): (r: seq<Score>)
    ensures |r| == |t| + 1
    ensures multiset(r) == multiset(t) + multiset{x}
    decreases |t|
  {
    if t == [] then [x]
    else if Le(t[|t| - 1], x) then t + [x]
    else
      var init := t[..|t| - 1];
      assert t == init + [t[|t| - 1]];
      Insert(init, x) + [t[|t| - 1]]
  }

  /** Where Insert puts x. */
  function InsertPos(t: seq<Score>, x: Score): (p: nat)
    ensures p <= |t|
    decreases |t|
  {
    if t == [] then 0
    else if Le(t[|t| - 1], x) then |t|
    else InsertPos(t[..|t| - 1], x)
  }

  /** Insert splits t at InsertPos. */
  lemma {:induction false} InsertAt(t: seq<Score>, x: Score)
    ensures Insert(t, x) == t[..InsertPos(t, x)] + [x] + t[InsertPos(t, x)..]
    decreases |t|
  {
    if t != [] && !Le(t[|t| - 1], x) {
      var init, last := t[..|t| - 1], t[|t| - 1];
      InsertAt(init, x);
      var p := InsertPos(init, x);
      assert t[..p] == init[..p];
      assert t[p..] == init[p..] + [last];
      calc {
        Insert(t, x);
        Insert(init, x) + [last];
        init[..p] + [x] + init[p..] + [last];
        init[..p] + [x] + (init[p..] + [last]);
      }
    }
  }

  /** Everything Insert skips over comes strictly after x. */
  lemma {:induction false} InsertPosAfter(t: seq<Score>, x: Score)
    ensures forall i :: InsertPos(t, x) <= i < |t| ==> !Le(t[i], x)
    ensures InsertPos(t, x) == |t| <==> t == [] || Le(t[|t| - 1], x)
    decreases |t|
  {
    if t != [] && !Le(t[|t| - 1], x) {
      var init := t[..|t| - 1];
      InsertPosAfter(init, x);
      assert forall i :: InsertPos(t, x) <= i < |init| ==> t[i] == init[i];
    }
  }

  /** In a sorted list, everything before InsertPos does not come after x. */
  lemma {:induction false} InsertPosSorted(t: seq<Score>, x: Score)
    requires Sorted(t)
    ensures forall i :: 0 <= i < InsertPos(t, x) ==> Le(t[i], x)
    decreases |t|
  {
    if t != [] {
      if Le(t[|t| - 1], x) {
        forall i | 0 <= i < |t| ensures Le(t[i], x) {
          CompareIsTotalPreorder(t[i], t[|t| - 1], x);
        }
      } else {
        InsertPosSorted(t[..|t| - 1], x);
      }
    }
  }

  /** The entry at each position after inserting x. */
  lemma InsertIndex(t: seq<Score>, x: Score, i: nat)
    requires i <= |t|
    ensures Insert(t, x)[i] ==
      if i < InsertPos(t, x) then t[i] else if i == InsertPos(t, x) then x else t[i - 1]
  {
    InsertAt(t, x);
    var p := InsertPos(t, x);
    var r := t[..p] + [x] + t[p..];
    if i < p {
      assert r[i] == t[..p][i];
    } else if i > p {
      assert r[i] == t[p..][i - p - 1];
    }
  }

  lemma {:induction false} InsertSorted(t: seq<Score>, x: Score)
    requires Sorted(t)
    ensures Sorted(Insert(t, x))
  {
    InsertPosAfter(t, x);
    InsertPosSorted(t, x);
    var p := InsertPos(t, x);
    var r := Insert(t, x);
    forall i, j | 0 <= i < j < |r| ensures Le(r[i], r[j]) {
      InsertIndex(t, x, i);
      InsertIndex(t, x, j);
      if i == p {
        CompareIsTotalPreorder(t[j - 1], x, x);
      }
    }
  }

  /**
   * Array.prototype.sort with the (moves, time) comparator. ECMAScript requires the
   * sort to be stable, so it is the stable insertion sort: each entry is inserted
   * after the entries before it.
   */
  function SortScores(s: seq<Score>): (r: seq<Score>)
    ensures multiset(r) == multiset(s)
    ensures |r| == |s|
    decreases |s|
  {
    if s == [] then []
    else
      var init := s[..|s| - 1];
      assert s == init + [s[|s| - 1]];
      Insert(SortScores(init), s[|s| - 1])
  }

  /** The sort's output is in (moves, time) order. */
  lemma {:induction false} SortSorted(s: seq<Score>)
    ensures Sorted(SortScores(s))
    decreases |s|
  {
    if s != [] {
      var init := s[..|s| - 1];
      SortSorted(init);
      InsertSorted(SortScores(init), s[|s| - 1]);
    }
  }

  /** Sorting a sorted list changes nothing. */
  lemma {:induction false} SortSortedIsIdentity(s: seq<Score>)
    requires Sorted(s)
    ensures SortScores(s) == s
    decreases |s|
  {
    if s != [] {
      var init, last := s[..|s| - 1], s[|s| - 1];
      SortedPrefix(s, |s| - 1);
      SortSortedIsIdentity(init);
      if init != [] {
        assert Le(s[|s| - 2], last);
        assert init[|init| - 1] == s[|s| - 2];
      }
      assert s == init + [last];
    }
  }

  /** a and b have the same (moves, time). */
  predicate Tie(a: Score, b: Score) { Le(a, b) && Le(b, a) }

  /** The entries of s that tie with k, in their order in s. */
  function Ties(s: seq<Score>, k: Score): (r: seq<Score>)
    decreases |s|
  {
    if s == [] then []
    else
      var last := s[|s| - 1];
      Ties(s[..|s| - 1], k) + (if Tie(last, k) then [last] else [])
  }

  lemma TiesSingle(e: Score, k: Score)
    ensures Ties([e], k) == if Tie(e, k) then [e] else []
  {
    assert [e][..0] == [];
  }

  lemma {:induction false} TiesConcat(a: seq<Score>, b: seq<Score>, k: Score)
    ensures Ties(a + b, k) == Ties(a, k) + Ties(b, k)
    decreases |b|
  {
    if b == [] {
      assert a + b == a;
    } else {
      TiesConcat(a, b[..|b| - 1], k);
      assert (a + b)[..|a + b| - 1] == a + b[..|b| - 1];
    }
  }

  lemma {:induction false} TiesInsert(t: seq<Score>, x: Score, k: Score)
    ensures Ties(Insert(t, x), k) == Ties(t, k) + Ties([x], k)
    decreases |t|
  {
    if t == [] {
    } else if Le(t[|t| - 1], x) {
      TiesConcat(t, [x], k);
    } else {
      var init, last := t[..|t| - 1], t[|t| - 1];
      assert t == init + [last];
      TiesInsert(init, x, k);
      TiesConcat(Insert(init, x), [last], k);
      TiesConcat(init, [last], k);
      TiesSwap(x, last, k);
      calc {
        Ties(Insert(t, x), k);
        Ties(Insert(init, x) + [last], k);
        Ties(Insert(init, x), k) + Ties([last], k);
        Ties(init, k) + Ties([x], k) + Ties([last], k);
        Ties(init, k) + Ties([last], k) + Ties([x], k);
        Ties(t, k) + Ties([x], k);
      }
    }
  }

  /** Entries that do not tie with each other never both tie with k. */
  lemma TiesSwap(x: Score, y: Score, k: Score)
    requires !Le(y, x)
    ensures Ties([x], k) + Ties([y], k) == Ties([y], k) + Ties([x], k)
  {
    TiesSingle(x, k);
    TiesSingle(y, k);
    if Tie(x, k) && Tie(y, k) {
      CompareIsTotalPreorder(y, k, x);
    }
  }

  /** The sort is stable: entries that tie keep their relative order. */
  lemma {:induction false} SortStable(s: seq<Score>, k: Score)
    ensures Ties(SortScores(s), k) == Ties(s, k)
    decreases |s|
  {
    if s != [] {
      var init, last := s[..|s| - 1], s[|s| - 1];
      assert s == init + [last];
      SortStable(init, k);
      TiesInsert(SortScores(init), last, k);
      TiesConcat(init, [last], k);
    }
  }

  lemma {:induction false} TiesMembers(s: seq<Score>, k: Score)
    ensures forall e :: e in Ties(s, k) ==> e in s && Tie(e, k)
    decreases |s|
  {
    if s != [] {
      TiesMembers(s[..|s| - 1], k);
    }
  }

  /** An entry that ties with something of a sorted list is at most its last entry. */
  lemma TiedBelowLast(b: seq<Score>, x: Score)
    requires Sorted(b) && Ties(b, x) != []
    ensures Le(x, b[|b| - 1])
  {
    TiesMembers(b, x);
    var e := Ties(b, x)[0];
    assert e in Ties(b, x);
    var i :| 0 <= i < |b| && b[i] == e;
    if i < |b| - 1 { assert Le(b[i], b[|b| - 1]); }
    CompareIsTotalPreorder(x, e, b[|b| - 1]);
  }

  /** The last entries of two sorted, non-empty lists with the same groups of ties tie. */
  lemma LastEntriesTie(a: seq<Score>, b: seq<Score>)
    requires Sorted(a) && Sorted(b) && a != [] && b != []
    requires Ties(a, a[|a| - 1]) == Ties(b, a[|a| - 1])
    requires Ties(a, b[|b| - 1]) == Ties(b, b[|b| - 1])
    ensures Tie(a[|a| - 1], b[|b| - 1])
  {
    var la, lb := a[|a| - 1], b[|b| - 1];
    CompareIsTotalPreorder(la, la, la);
    CompareIsTotalPreorder(lb, lb, lb);
    TiedBelowLast(b, la);
    TiedBelowLast(a, lb);
  }

  /** Two sorted lists that agree on every group of ties are the same list. */
  lemma {:induction false} SortedTiesDetermine(a: seq<Score>, b: seq<Score>)
    requires Sorted(a) && Sorted(b)
    requires forall k :: Ties(a, k) == Ties(b, k)
    ensures a == b
    decreases |a| + |b|
  {
    if a == [] && b == [] {
    } else if a == [] || b == [] {
      var c := if a == [] then b else a;
      var last := c[|c| - 1];
      assert Ties(c, last) != [] by { CompareIsTotalPreorder(last, last, last); }
      assert false;
    } else {
      var a', la := a[..|a| - 1], a[|a| - 1];
      var b', lb := b[..|b| - 1], b[|b| - 1];
      CompareIsTotalPreorder(la, la, la);
      CompareIsTotalPreorder(lb, lb, lb);
      assert Ties(a, la) == Ties(b, la) && Ties(a, lb) == Ties(b, lb);
      LastEntriesTie(a, b);
      var ta, tb := Ties(a, la), Ties(b, la);
      assert ta == Ties(a', la) + [la];
      assert tb == Ties(b', la) + [lb];
      assert la == ta[|ta| - 1] == tb[|tb| - 1] == lb;
      forall k ensures Ties(a', k) == Ties(b', k) {
        var ends := if Tie(la, k) then [la] else [];
        assert Ties(a, k) == Ties(a', k) + ends;
        assert Ties(b, k) == Ties(b', k) + ends;
        assert Ties(a', k) == Ties(a, k)[..|Ties(a, k)| - |ends|];
      }
      SortedPrefix(a, |a| - 1);
      SortedPrefix(b, |b| - 1);
      SortedTiesDetermine(a', b');
      assert a == a' + [la] && b == b' + [lb];
    }
  }

  /**
   * Any sorted rearrangement that keeps ties in their order is SortScores: every
   * stable sort with this comparator returns the same list.
   */
  lemma StableSortUnique(s: seq<Score>, r: seq<Score>)
    requires Sorted(r)
    requires forall k :: Ties(r, k) == Ties(s, k)
    ensures r == SortScores(s)
  {
    SortSorted(s);
    forall k ensures Ties(r, k) == Ties(SortScores(s), k) {
      SortStable(s, k);
    }
    SortedTiesDetermine(r, SortScores(s));
  }

  /** s[0..min(n, |s|)], i.e. Array.prototype.slice(0, n). */
  function Take(s: seq<Score>, n: nat): (r: seq<Score>)
    ensures |r| == if |s| < n then |s| else n
    ensures r == s[..|r|]
  {
    if |s| < n then s else s[..n]
  }

  /** The leaderboard after a new score: append, sort, keep the first MaxScores. */
  function TopScores(current: seq<Score>, x: Score): seq<Score> {
    Take(SortScores(current + [x]), MaxScores)
  }

  lemma SortAppend(current: seq<Score>, x: Score)
    ensures SortScores(current + [x]) == Insert(SortScores(current), x)
  {
    assert (current + [x])[..|current|] == current;
  }

  lemma MultisetPrefix(s: seq<Score>, n: nat)
    requires n <= |s|
    ensures multiset(s[..n]) <= multiset(s)
  {
    assert s == s[..n] + s[n..];
  }

  /**
   * The new leaderboard is sorted, holds min(5, |current| + 1) entries, invents
   * nothing, and drops nothing while the old list had room.
   */
  lemma TopScoresSpec(current: seq<Score>, x: Score)
    ensures Sorted(TopScores(current, x))
    ensures |TopScores(current, x)| == if |current| + 1 < MaxScores then |current| + 1 else MaxScores
    ensures multiset(TopScores(current, x)) <= multiset(current) + multiset{x}
    ensures |current| < MaxScores ==> multiset(TopScores(current, x)) == multiset(current) + multiset{x}
  {
    var sorted := SortScores(current + [x]);
    var r := TopScores(current, x);
    SortSorted(current + [x]);
    assert r == sorted[..|r|];
    if |current| < MaxScores {
      assert r == sorted;
    }
    MultisetPrefix(sorted, |r|);
    SortedPrefix(sorted, |r|);
  }

  lemma SortedPrefix(s: seq<Score>, n: nat)
    requires Sorted(s) && n <= |s|
    ensures Sorted(s[..n])
  {
    forall i, j | 0 <= i < j < n ensures Le(s[..n][i], s[..n][j]) {
      assert s[..n][i] == s[i] && s[..n][j] == s[j];
    }
  }

  /** A newcomer goes after every entry it ties with. */
  lemma NewcomerAfterTies(current: seq<Score>, x: Score)
    ensures Ties(SortScores(current + [x]), x) == Ties(current, x) + [x]
  {
    SortStable(current + [x], x);
    TiesConcat(current, [x], x);
    TiesSingle(x, x);
  }

  /**
   * When the fifth-best old entry does not come after the newcomer (a tie
   * included), the newcomer is dropped and the top five are the old top five.
   */
  lemma NewcomerDropped(current: seq<Score>, x: Score)
    requires |current| >= MaxScores && Le(SortScores(current)[MaxScores - 1], x)
    ensures TopScores(current, x) == Take(SortScores(current), MaxScores)
  {
    SortAppend(current, x);
    InsertBeyond(SortScores(current), x);
  }

  lemma InsertBeyond(t: seq<Score>, x: Score)
    requires |t| >= MaxScores && Le(t[MaxScores - 1], x)
    ensures Take(Insert(t, x), MaxScores) == Take(t, MaxScores)
  {
    InsertPosAfter(t, x);
    InsertKeepsPrefix(t, x, MaxScores);
  }

  /** Inserting x leaves the entries before its position where they were. */
  lemma InsertKeepsPrefix(t: seq<Score>, x: Score, n: nat)
    requires n <= InsertPos(t, x)
    ensures Insert(t, x)[..n] == t[..n]
  {
    var r := Insert(t, x);
    forall i | 0 <= i < n ensures r[i] == t[i] {
      InsertIndex(t, x, i);
    }
  }

  /**
   * The win-time high-score test: there is room in the list, or (moves, time)
   * beats the list's last entry.
   */
  function Qualifies(highScores: seq<Score>, moves: int, time: int): bool {
    var worstScore := if |highScores| > 0 then Some(highScores[|highScores| - 1]) else None;
    || |highScores| < MaxScores
    || worstScore.None?
    || moves < worstScore.value.moves
    || (moves == worstScore.value.moves && time < worstScore.value.time)
  }

  /** When x beats the last of five entries, the top five lose that last entry and gain x. */
  lemma InsertDropsLast(t: seq<Score>, x: Score)
    requires |t| == MaxScores && !Le(t[MaxScores - 1], x)
    ensures multiset(Take(Insert(t, x), MaxScores)) == multiset(t[..MaxScores - 1]) + multiset{x}
  {
    InsertPosAfter(t, x);
    InsertAt(t, x);
    var p := InsertPos(t, x);
    var r := Insert(t, x);
    assert r == t[..p] + [x] + t[p..];
    assert t[p..] == t[p..MaxScores - 1] + [t[MaxScores - 1]];
    assert r[..MaxScores] == t[..p] + [x] + t[p..MaxScores - 1];
    assert t[..MaxScores - 1] == t[..p] + t[p..MaxScores - 1];
  }

  /**
   * For a sorted list of at most five entries (what the game stores), the
   * high-score test passes exactly when saving the score would keep the new
   * entry in the list; when it fails, saving changes nothing.
   */
  lemma QualifiesIffKept(highScores: seq<Score>, x: Score)
    requires Sorted(highScores) && |highScores| <= MaxScores
    ensures Qualifies(highScores, x.moves, x.time)
            <==> multiset(TopScores(highScores, x))[x] == multiset(highScores)[x] + 1
    ensures !Qualifies(highScores, x.moves, x.time) ==> TopScores(highScores, x) == highScores
  {
    if |highScores| < MaxScores {
      TopScoresSpec(highScores, x);
    } else if Le(highScores[MaxScores - 1], x) {
      FullNotBeaten(highScores, x);
    } else {
      FullBeaten(highScores, x);
    }
  }

  /** A full leaderboard whose last entry x does not beat is left as it is. */
  lemma FullNotBeaten(highScores: seq<Score>, x: Score)
    requires Sorted(highScores) && |highScores| == MaxScores && Le(highScores[MaxScores - 1], x)
    ensures TopScores(highScores, x) == highScores
  {
    SortSortedIsIdentity(highScores);
    SortAppend(highScores, x);
    InsertBeyond(highScores, x);
    assert highScores[..MaxScores] == highScores;
  }

  /** A full leaderboard whose last entry x beats gains x. */
  lemma FullBeaten(highScores: seq<Score>, x: Score)
    requires Sorted(highScores) && |highScores| == MaxScores && !Le(highScores[MaxScores - 1], x)
    ensures multiset(TopScores(highScores, x))[x] == multiset(highScores)[x] + 1
  {
    SortSortedIsIdentity(highScores);
    SortAppend(highScores, x);
    InsertDropsLast(highScores, x);
    assert highScores == highScores[..MaxScores - 1] + [highScores[MaxScores - 1]];
    assert highScores[MaxScores - 1] != x;
  }
}
