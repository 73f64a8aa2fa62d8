/** The read side of the election: counting the votes sealed in the chain per
    candidate and ordering the per-candidate results by vote count. */
module Tally {
  import opened Ledger

  /** No element occurs twice. */
  ghost predicate NoDup<T>(s: seq<T>)
  {
    forall i, j :: 0 <= i < j < |s| ==> s[i] != s[j]
  }

  /** Every vote sealed in the chain, block by block, in chain order. */
  function AllVotes(chain: seq<Block>): seq<Vote>
  {
    if chain == [] then [] else AllVotes(chain[..|chain| - 1]) + chain[|chain| - 1].votes
  }

  lemma AllVotesAppend(chain: seq<Block>, b: Block)
    ensures AllVotes(chain + [b]) == AllVotes(chain) + b.votes
  {
  }

  lemma AllVotesPrefix(chain: seq<Block>, i: nat)
    requires i < |chain|
    ensures AllVotes(chain[..i + 1]) == AllVotes(chain[..i]) + chain[i].votes
  {
    assert chain[..i + 1] == chain[..i] + [chain[i]];
    AllVotesAppend(chain[..i], chain[i]);
  }

  lemma PrefixSnoc<T>(s: seq<T>, j: nat)
    requires j < |s|
    ensures s[..j + 1] == s[..j] + [s[j]]
  {
  }

  /** The number of votes for candidate `c`. */
  function CountFor(vs: seq<Vote>, c: string): nat
  {
    if vs == [] then 0
    else CountFor(vs[..|vs| - 1], c) + (if vs[|vs| - 1].candidateId == c then 1 else 0)
  }

  lemma {:induction false} CountForAppend(vs: seq<Vote>, ws: seq<Vote>, c: string)
    ensures CountFor(vs + ws, c) == CountFor(vs, c) + CountFor(ws, c)
  {
    if ws != [] {
      var n := |ws| - 1;
      assert (vs + ws)[..|vs| + n] == vs + ws[..n];
      CountForAppend(vs, ws[..n], c);
    } else {
      assert vs + ws == vs;
    }
  }

  /** The candidates that received at least one vote, in the order of their
      first vote (the iteration order of the source's counting dictionary). */
  function Candidates(vs: seq<Vote>): (cs: seq<string>)
    ensures NoDup(cs)
    ensures forall c :: c in cs <==> CountFor(vs, c) > 0
  {
    if vs == [] then []
    else
      var rest := Candidates(vs[..|vs| - 1]);
      var c := vs[|vs| - 1].candidateId;
      if c in rest then rest else rest + [c]
  }

  /** The candidates of every prefix of the votes are a prefix of the
      candidates of all of them: a candidate keeps the place its first vote
      gave it, after every candidate voted for earlier. */
  lemma {:induction false} CandidatesGrow(vs: seq<Vote>, k: nat)
    requires k <= |vs|
    ensures Candidates(vs[..k]) <= Candidates(vs)
  {
    if k == |vs| {
      assert vs[..k] == vs;
    } else {
      var init := vs[..|vs| - 1];
      assert init[..k] == vs[..k];
      CandidatesGrow(init, k);
    }
  }

  /** The sum of the counts of the candidates in `cs`. */
  function SumCounts(cs: seq<string>, vs: seq<Vote>): nat
  {
    if cs == [] then 0 else SumCounts(cs[..|cs| - 1], vs) + CountFor(vs, cs[|cs| - 1])
  }

  /** One more vote adds one to the sum over a duplicate-free list of
      candidates exactly when its candidate is in the list. */
  lemma {:induction false} SumCountsSnoc(cs: seq<string>, vs: seq<Vote>, v: Vote)
    requires NoDup(cs)
    ensures SumCounts(cs, vs + [v]) == SumCounts(cs, vs) + (if v.candidateId in cs then 1 else 0)
  {
    if cs != [] {
      var init := cs[..|cs| - 1];
      var last := cs[|cs| - 1];
      assert cs == init + [last];
      assert (vs + [v])[..|vs|] == vs;
      SumCountsSnoc(init, vs, v);
    }
  }

  /** The counts of all candidates add up to the number of votes. */
  lemma {:induction false} CountsSumToTotal(vs: seq<Vote>)
    ensures SumCounts(Candidates(vs), vs) == |vs|
  {
    if vs != [] {
      var init := vs[..|vs| - 1];
      var v := vs[|vs| - 1];
      assert vs == init + [v];
      CountsSumToTotal(init);
      var d := Candidates(init);
      SumCountsSnoc(d, init, v);
      if v.candidateId !in d {
        var d' := d + [v.candidateId];
        assert d'[..|d|] == d;
        assert CountFor(init, v.candidateId) == 0;
      }
    }
  }

  /** `voteCounts`, its insertion order `order` and `total` are the tally of
      the votes `seen`. */
  ghost predicate Counted(voteCounts: map<string, nat>, order: seq<string>, total: nat, seen: seq<Vote>)
  {
    && order == Candidates(seen)
    && (forall c :: c in voteCounts <==> c in order)
    && (forall c :: c in voteCounts ==> voteCounts[c] == CountFor(seen, c))
    && total == |seen|
  }

  /** Counting one more vote, as the source's inner loop body does, keeps the
      tally up to date. */
  lemma CountStep(voteCounts: map<string, nat>, order: seq<string>, total: nat, seen: seq<Vote>, vote: Vote)
    requires Counted(voteCounts, order, total, seen)
    ensures var c := vote.candidateId;
            var count := if c in voteCounts then voteCounts[c] else 0;
            Counted(voteCounts[c := count + 1], if c in voteCounts then order else order + [c],
                    total + 1, seen + [vote])
  {
  }

  /** Counts the votes of every sealed block per candidate, as the nested
      loops of the source do; `order` is the insertion order of the counting
      dictionary and `total` the number of votes seen. */
  method CountVotes(chain: seq<Block>) returns (voteCounts: map<string, nat>, order: seq<string>, total: nat)
    ensures order == Candidates(AllVotes(chain))
    ensures forall c :: c in voteCounts <==> c in order
    ensures forall c :: c in voteCounts ==> voteCounts[c] == CountFor(AllVotes(chain), c)
    ensures total == |AllVotes(chain)|
    ensures total == SumCounts(order, AllVotes(chain))
  {
    voteCounts, order, total := map[], [], 0;
    for i := 0 to |chain|
      invariant Counted(voteCounts, order, total, AllVotes(chain[..i]))
    {
      voteCounts, order, total := CountBlockVotes(chain[i].votes, voteCounts, order, total, AllVotes(chain[..i]));
      AllVotesPrefix(chain, i);
    }
    assert chain[..|chain|] == chain;
    CountsSumToTotal(AllVotes(chain));
  }

  /** The inner loop of the count: adds the votes of one block to a tally of
      the votes `seen` so far. */
  method CountBlockVotes(votes: seq<Vote>, counts0: map<string, nat>, order0: seq<string>, total0: nat,
                         ghost seen0: seq<Vote>)
    returns (voteCounts: map<string, nat>, order: seq<string>, total: nat)
    requires Counted(counts0, order0, total0, seen0)
    ensures Counted(voteCounts, order, total, seen0 + votes)
  {
    voteCounts, order, total := counts0, order0, total0;
    ghost var seen := seen0;
    for j := 0 to |votes|
      invariant seen == seen0 + votes[..j]
      invariant Counted(voteCounts, order, total, seen)
    {
      var vote := votes[j];
      PrefixSnoc(votes, j);
      var candidateId := vote.candidateId;
      CountStep(voteCounts, order, total, seen, vote);
      var count := if candidateId in voteCounts then voteCounts[candidateId] else 0;
      order := if candidateId in voteCounts then order else order + [candidateId];
      voteCounts := voteCounts[candidateId := count + 1];
      total := total + 1;
      seen := seen + [vote];
    }
    assert votes[..|votes|] == votes;
  }

  /** One line of the results: a candidate and its number of votes. */
  datatype Row = Row(candidateId: string, votes: nat)

  /** Builds one row per counted candidate, in the counting dictionary's
      order. */
  method FormatResults(voteCounts: map<string, nat>, order: seq<string>) returns (rows: seq<Row>)
    requires forall c :: c in order ==> c in voteCounts
    ensures |rows| == |order|
    ensures forall i :: 0 <= i < |order| ==> rows[i] == Row(order[i], voteCounts[order[i]])
  {
    rows := [];
    for i := 0 to |order|
      invariant |rows| == i
      invariant forall k :: 0 <= k < i ==> rows[k] == Row(order[k], voteCounts[order[k]])
    {
      var candidateId := order[i];
      rows := rows + [Row(candidateId, voteCounts[candidateId])];
    }
  }

  /** The rows for the candidates `cs`, each with its count in `vs`. */
  function RowsFor(cs: seq<string>, vs: seq<Vote>): (rows: seq<Row>)
    ensures |rows| == |cs|
    ensures forall i :: 0 <= i < |cs| ==> rows[i] == Row(cs[i], CountFor(vs, cs[i]))
  {
    if cs == [] then [] else RowsFor(cs[..|cs| - 1], vs) + [Row(cs[|cs| - 1], CountFor(vs, cs[|cs| - 1]))]
  }

  /** The rows built from the counting dictionary are the rows of the
      candidates of `vs` with their counts. */
  lemma FormattedRows(voteCounts: map<string, nat>, order: seq<string>, vs: seq<Vote>, rows: seq<Row>)
    requires order == Candidates(vs)
    requires forall c :: c in voteCounts ==> voteCounts[c] == CountFor(vs, c)
    requires forall c :: c in order ==> c in voteCounts
    requires |rows| == |order|
    requires forall i :: 0 <= i < |order| ==> rows[i] == Row(order[i], voteCounts[order[i]])
    ensures rows == RowsFor(Candidates(vs), vs)
  {
  }

  /** Each row has at least as many votes as the next. */
  ghost predicate NonIncreasing(rows: seq<Row>)
  {
    forall i :: 0 <= i < |rows| - 1 ==> rows[i].votes >= rows[i + 1].votes
  }

  /** No candidate has two rows. */
  ghost predicate DistinctIds(rows: seq<Row>)
  {
    forall i, j :: 0 <= i < j < |rows| ==> rows[i].candidateId != rows[j].candidateId
  }

  /** Places `x` into a non-increasing list after every row with at least as
      many votes, which keeps rows with equal counts in arrival order. */
  function Insert(s: seq<Row>, x: Row): (r: seq<Row>)
    requires NonIncreasing(s)
    ensures |r| == |s| + 1 && (r[0] == x || (s != [] && r[0] == s[0]))
    ensures NonIncreasing(r)
    ensures multiset(r) == multiset(s) + multiset{x}
  {
    if s == [] then [x]
    else if s[0].votes >= x.votes then
      assert s == [s[0]] + s[1..];
      [s[0]] + Insert(s[1..], x)
    else [x] + s
  }

  /** Inserting a row for a candidate that has none keeps candidates
      distinct. */
  lemma {:induction false} InsertDistinct(s: seq<Row>, x: Row)
    requires NonIncreasing(s) && DistinctIds(s)
    requires forall y :: y in s ==> y.candidateId != x.candidateId
    ensures DistinctIds(Insert(s, x))
  {
    if s != [] && s[0].votes >= x.votes {
      var t := s[1..];
      assert NonIncreasing(t);
      InsertDistinct(t, x);
      var r := Insert(s, x);
      assert r == [s[0]] + Insert(t, x);
      forall j | 1 <= j < |r|
        ensures r[0].candidateId != r[j].candidateId
      {
        var y := r[j];
        assert y in multiset(Insert(t, x));
        assert y in t || y == x;
      }
    }
  }

  /** The source's `sort(key=votes, reverse=True)`: a stable sort by
      decreasing vote count. */
  function SortByVotes(rows: seq<Row>): (r: seq<Row>)
    ensures NonIncreasing(r)
    ensures multiset(r) == multiset(rows)
  {
    if rows == [] then []
    else
      var n := |rows| - 1;
      assert rows == rows[..n] + [rows[n]];
      Insert(SortByVotes(rows[..n]), rows[n])
  }

  /** Sorting keeps candidates distinct. */
  lemma {:induction false} SortDistinct(rows: seq<Row>)
    requires DistinctIds(rows)
    ensures DistinctIds(SortByVotes(rows))
  {
    if rows != [] {
      var n := |rows| - 1;
      assert rows == rows[..n] + [rows[n]];
      SortDistinct(rows[..n]);
      var s := SortByVotes(rows[..n]);
      forall y | y in s
        ensures y.candidateId != rows[n].candidateId
      {
        assert y in multiset(rows[..n]);
      }
      InsertDistinct(s, rows[n]);
    }
  }

  /** The rows with exactly `k` votes, in order. */
  function WithVotes(rows: seq<Row>, k: nat): seq<Row>
  {
    if rows == [] then [] else (if rows[0].votes == k then [rows[0]] else []) + WithVotes(rows[1..], k)
  }

  lemma {:induction false} WithVotesAppend(a: seq<Row>, b: seq<Row>, k: nat)
    ensures WithVotes(a + b, k) == WithVotes(a, k) + WithVotes(b, k)
  {
    if a != [] {
      assert (a + b)[1..] == a[1..] + b;
      WithVotesAppend(a[1..], b, k);
    } else {
      assert a + b == b;
    }
  }

  /** A non-increasing list whose first row has fewer than `k` votes has no
      row with `k` votes. */
  lemma {:induction false} WithVotesBelow(s: seq<Row>, k: nat)
    requires NonIncreasing(s)
    requires s != [] ==> s[0].votes < k
    ensures WithVotes(s, k) == []
  {
    if s != [] {
      assert NonIncreasing(s[1..]);
      WithVotesBelow(s[1..], k);
    }
  }

  /** Inserting a row appends it to the rows of its own count and leaves
      the rows of every other count as they were. */
  lemma {:induction false} InsertStable(s: seq<Row>, x: Row, k: nat)
    requires NonIncreasing(s)
    ensures WithVotes(Insert(s, x), k) == WithVotes(s, k) + (if x.votes == k then [x] else [])
  {
    if s == [] || s[0].votes < x.votes {
      InsertFrontStable(s, x, k);
    } else {
      var t := s[1..];
      assert NonIncreasing(t);
      var head := if s[0].votes == k then [s[0]] else [];
      var tail := if x.votes == k then [x] else [];
      var rest := Insert(t, x);
      InsertStable(t, x, k);
      assert Insert(s, x) == [s[0]] + rest;
      WithVotesCons(s[0], rest, k);
      assert WithVotes(s, k) == head + WithVotes(t, k);
      assert WithVotes(Insert(s, x), k) == head + (WithVotes(t, k) + tail);
    }
  }

  lemma WithVotesCons(h: Row, t: seq<Row>, k: nat)
    ensures WithVotes([h] + t, k) == (if h.votes == k then [h] else []) + WithVotes(t, k)
  {
  }

  /** The case of `InsertStable` where the row goes in front. */
  lemma InsertFrontStable(s: seq<Row>, x: Row, k: nat)
    requires NonIncreasing(s)
    requires s == [] || s[0].votes < x.votes
    ensures WithVotes(Insert(s, x), k) == WithVotes(s, k) + (if x.votes == k then [x] else [])
  {
    var r := Insert(s, x);
    assert r[0] == x && r[1..] == s;
    if x.votes == k {
      WithVotesBelow(s, k);
    }
  }

  /** The sort is stable: the rows with any given count keep their relative
      order. */
  lemma {:induction false} SortStable(rows: seq<Row>, k: nat)
    ensures WithVotes(SortByVotes(rows), k) == WithVotes(rows, k)
  {
    if rows != [] {
      var n := |rows| - 1;
      assert rows == rows[..n] + [rows[n]];
      SortStable(rows[..n], k);
      InsertStable(SortByVotes(rows[..n]), rows[n], k);
      WithVotesAppend(rows[..n], [rows[n]], k);
    }
  }

  /** The ordered results of the tally of `vs`. */
  function Results(vs: seq<Vote>): seq<Row>
  {
    SortByVotes(RowsFor(Candidates(vs), vs))
  }

  /** The results list every candidate with at least one vote exactly once,
      with its count, and no other candidate, ordered by decreasing count. */
  lemma ResultsCorrect(vs: seq<Vote>)
    ensures NonIncreasing(Results(vs))
    ensures DistinctIds(Results(vs))
    ensures forall r :: r in Results(vs) ==> r.votes == CountFor(vs, r.candidateId) > 0
    ensures forall c :: CountFor(vs, c) > 0 <==> Row(c, CountFor(vs, c)) in Results(vs)
  {
    var cs := Candidates(vs);
    var rows := RowsFor(cs, vs);
    var res := Results(vs);
    assert res == SortByVotes(rows);
    assert DistinctIds(rows);
    SortDistinct(rows);
    forall r
      ensures r in res <==> r in rows
    {
      assert r in res <==> r in multiset(res);
      assert r in rows <==> r in multiset(rows);
    }
    forall c | CountFor(vs, c) > 0
      ensures Row(c, CountFor(vs, c)) in rows
    {
      var i :| 0 <= i < |cs| && cs[i] == c;
      assert rows[i] == Row(c, CountFor(vs, c));
    }
    forall r | r in rows
      ensures r.votes == CountFor(vs, r.candidateId) > 0
    {
      var i :| 0 <= i < |rows| && rows[i] == r;
      assert cs[i] in cs;
    }
  }
}
