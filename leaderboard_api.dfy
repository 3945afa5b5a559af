/**
 * The server-side leaderboard: the POST handler that validates a submitted
 * score, appends it to the stored list, sorts the list in place and stores its
 * first five entries, and the GET handler's reading of the stored list. The
 * key-value store is a value passed in (what kv.get returned) and a value
 * passed out (what kv.set is given, None when it is not called).
 */
module LeaderboardApi {
  import opened Wrappers
  import opened Ranking

  /** A parsed JSON request body. Numbers are modelled as integers. */
  datatype Json =
    | JNull
    | JBool(b: bool)
    | JNumber(n: int)
    | JString(s: string)
    | JArray(items: seq<Json>)
    | JObject(fields: map<string, Json>)

  /** The body declares a string name and numeric moves and time. */
  predicate WellFormed(body: Json) {
    && body.JObject?
    && "name" in body.fields && body.fields["name"].JString?
    && "moves" in body.fields && body.fields["moves"].JNumber?
    && "time" in body.fields && body.fields["time"].JNumber?
  }

  /**
   * The handler's validation: a null body, or a body whose name is not a string
   * or whose moves or time is not a number, is refused.
   */
  function ValidatePayload(body: Json): (r: Option<Score>)
    ensures r.Some? <==> WellFormed(body)
  {
    if WellFormed(body) then
      Some(Score(body.fields["name"].s, body.fields["moves"].n, body.fields["time"].n))
    else None
  }

  /** The body the client sends for a score. */
  function ScoreToJson(s: Score): (j: Json)
    ensures j.JObject?
  {
    JObject(map["name" := JString(s.name), "moves" := JNumber(s.moves), "time" := JNumber(s.time)])
  }

  /** Every score the client can send is accepted and read back unchanged. */
  lemma ValidateOfScore(s: Score)
    ensures ValidatePayload(ScoreToJson(s)) == Some(s)
  {
  }

  /** Fields other than name, moves and time neither block nor change the accepted score. */
  lemma ValidateIgnoresExtraFields(s: Score, extra: map<string, Json>)
    ensures ValidatePayload(JObject(extra + ScoreToJson(s).fields)) == Some(s)
  {
    var body := JObject(extra + ScoreToJson(s).fields);
    assert body.fields["name"] == JString(s.name);
    assert body.fields["moves"] == JNumber(s.moves);
    assert body.fields["time"] == JNumber(s.time);
  }

  /** Array.prototype.sort with the leaderboard comparator, in place. */
  method SortInPlace(a: array<Score>)
    modifies a
    ensures a[..] == SortScores(old(a[..]))
  {
    ghost var s := a[..];
    for i := 0 to a.Length
      invariant a[..i] == SortScores(s[..i])
      invariant a[i..] == s[i..]
    {
      ghost var before := a[..];
      InsertInPlace(a, i);
      SortStep(s, i, before, a[..]);
    }
    SortDone(s, a[..]);
  }

  /** After pass i the first i + 1 entries are the sorted first i + 1 of s, the rest untouched. */
  lemma SortStep(s: seq<Score>, i: nat, before: seq<Score>, after: seq<Score>)
    requires i < |s| == |before| == |after|
    requires before[..i] == SortScores(s[..i]) && before[i..] == s[i..]
    requires after[..i + 1] == Insert(before[..i], before[i]) && after[i + 1..] == before[i + 1..]
    ensures after[..i + 1] == SortScores(s[..i + 1]) && after[i + 1..] == s[i + 1..]
  {
    var t := s[..i];
    assert before[i] == s[i] && before[i + 1..] == s[i + 1..] by {
      assert before[i..][0] == before[i] && before[i..][1..] == before[i + 1..];
      assert s[i..][0] == s[i] && s[i..][1..] == s[i + 1..];
    }
    assert s[..i + 1] == t + [s[i]];
    SortAppend(t, s[i]);
  }

  lemma SortDone(s: seq<Score>, a: seq<Score>)
    requires |a| == |s| && a[..|s|] == SortScores(s[..|s|])
    ensures a == SortScores(s)
  {
    assert a[..|s|] == a && s[..|s|] == s;
  }

  /**
   * One pass of the sort: a[i] moves left past the entries of a[..i] that sort
   * after it, which shift one place right.
   */
  method InsertInPlace(a: array<Score>, i: nat)
    requires i < a.Length
    modifies a
    ensures a[..i + 1] == Insert(old(a[..i]), old(a[i]))
    ensures a[i + 1..] == old(a[i + 1..])
  {
    ghost var before := a[..];
    var x := a[i];
    var j := i;
    while j > 0 && !Le(a[j - 1], x)
      invariant 0 <= j <= i
      invariant forall k :: 0 <= k < j ==> a[k] == before[k]
      invariant forall k :: j < k <= i ==> a[k] == before[k - 1]
      invariant forall k :: i < k < a.Length ==> a[k] == before[k]
      invariant forall k :: j < k <= i ==> !Le(a[k], x)
    {
      a[j] := a[j - 1];
      j := j - 1;
    }
    a[j] := x;
    InsertedSlice(before, a[..], i, j);
  }

  /** What one pass leaves, read as sequences: the first i + 1 entries are Insert's. */
  lemma InsertedSlice(before: seq<Score>, after: seq<Score>, i: nat, j: nat)
    requires |after| == |before| && j <= i < |before| && after[j] == before[i]
    requires forall k :: 0 <= k < j ==> after[k] == before[k]
    requires forall k :: j < k <= i ==> after[k] == before[k - 1]
    requires forall k :: i < k < |before| ==> after[k] == before[k]
    requires j == 0 || Le(after[j - 1], after[j])
    requires forall k :: j < k <= i ==> !Le(after[k], after[j])
    ensures after[..i + 1] == Insert(before[..i], before[i])
    ensures after[i + 1..] == before[i + 1..]
  {
    var t, x := before[..i], before[i];
    forall k | j <= k < |t| ensures !Le(t[k], x) {
      assert t[k] == after[k + 1];
    }
    InsertAfterScan(t, x, j);
    Assemble(after[..i + 1], t, x, j);
  }

  lemma Assemble(b: seq<Score>, t: seq<Score>, x: Score, j: nat)
    requires |b| == |t| + 1 && j <= |t|
    requires forall k :: 0 <= k < j ==> b[k] == t[k]
    requires b[j] == x
    requires forall k :: j < k < |b| ==> b[k] == t[k - 1]
    ensures b == t[..j] + [x] + t[j..]
  {
  }

  /**
   * Insert puts x just after the last entry that does not sort after it: after a
   * scan from the back that stops at j, x goes at index j.
   */
  lemma InsertAfterScan(t: seq<Score>, x: Score, j: nat)
    requires j <= |t| && (j == 0 || Le(t[j - 1], x))
    requires forall k :: j <= k < |t| ==> !Le(t[k], x)
    ensures Insert(t, x) == t[..j] + [x] + t[j..]
  {
    ScanFindsInsertPos(t, x, j);
    InsertAt(t, x);
  }

  lemma {:induction false} ScanFindsInsertPos(t: seq<Score>, x: Score, j: nat)
    requires j <= |t| && (j == 0 || Le(t[j - 1], x))
    requires forall k :: j <= k < |t| ==> !Le(t[k], x)
    ensures InsertPos(t, x) == j
    decreases |t|
  {
    if j < |t| {
      var init := t[..|t| - 1];
      assert !Le(t[|t| - 1], x);
      assert j > 0 ==> init[j - 1] == t[j - 1];
      ScanFindsInsertPos(init, x, j);
    }
  }

  /** The POST handler's ranking update: push, sort in place, keep the first five. */
  method Post(body: Json, stored: Option<seq<Score>>) returns (status: int, written: Option<seq<Score>>)
    ensures status == 400 <==> !WellFormed(body)
    ensures status == 400 ==> written == None
    ensures status != 400 ==> status == 201 && written.Some?
    ensures written.Some? ==> written.value == TopScores(Get(stored), ValidatePayload(body).value)
  {
    var newScore := ValidatePayload(body);
    if newScore.None? {
      return 400, None;
    }
    var currentScores := Get(stored);
    var all := new Score[|currentScores| + 1](k => if 0 <= k < |currentScores| then currentScores[k] else newScore.value);
    assert all[..] == currentScores + [newScore.value];
    SortInPlace(all);
    var topScores := Take(all[..], MaxScores);
    return 201, Some(topScores);
  }

  /** The stored list as both handlers read it: an absent list is empty. */
  function Get(stored: Option<seq<Score>>): (r: seq<Score>)
    ensures stored.None? ==> r == []
    ensures stored.Some? ==> r == stored.value
  {
    stored.GetOr([])
  }

  /**
   * What a valid POST stores: a sorted list of min(5, |old| + 1) scores drawn from
   * the old list and the new score, with nothing dropped while there was room.
   */
  lemma PostWrites(stored: Option<seq<Score>>, x: Score)
    ensures var w := TopScores(Get(stored), x);
      && Sorted(w)
      && |w| == (if |Get(stored)| + 1 < MaxScores then |Get(stored)| + 1 else MaxScores)
      && multiset(w) <= multiset(Get(stored)) + multiset{x}
      && (|Get(stored)| < MaxScores ==> multiset(w) == multiset(Get(stored)) + multiset{x})
  {
    TopScoresSpec(Get(stored), x);
  }

  /** A GET after POSTs reads back a leaderboard of at most five sorted scores. */
  lemma {:induction false} GetAfterPosts(stored: Option<seq<Score>>, xs: seq<Score>)
    requires stored.Some? ==> Sorted(stored.value) && |stored.value| <= MaxScores
    ensures Sorted(Get(Posted(stored, xs))) && |Get(Posted(stored, xs))| <= MaxScores
    decreases |xs|
  {
    if xs != [] {
      GetAfterPosts(stored, xs[..|xs| - 1]);
      TopScoresSpec(Get(Posted(stored, xs[..|xs| - 1])), xs[|xs| - 1]);
    }
  }

  /** The store after valid POSTs of xs, in order. */
  function Posted(stored: Option<seq<Score>>, xs: seq<Score>): (r: Option<seq<Score>>)
    ensures xs != [] ==> r.Some?
    decreases |xs|
  {
    if xs == [] then stored
    else Some(TopScores(Get(Posted(stored, xs[..|xs| - 1])), xs[|xs| - 1]))
  }

  /** Two players on an empty board: the one with fewer moves leads. */
  lemma FewerMovesLeads()
    ensures Get(Posted(None, [Score("A", 10, 30), Score("B", 5, 40)]))
            == [Score("B", 5, 40), Score("A", 10, 30)]
  {
    var a, b := Score("A", 10, 30), Score("B", 5, 40);
    assert [a, b][..1] == [a];
    assert Posted(None, [a]) == Some([a]);
    assert [a] + [b] == [a, b];
    assert SortScores([a, b]) == Insert(SortScores([a]), b) by { SortAppend([a], b); }
  }
}
