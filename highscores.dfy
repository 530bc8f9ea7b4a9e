/**
 * The list logic of RatingSystem.save_highscore (rating.py): append the new
 * record, sort by score from highest to lowest, keep the first CAPACITY.
 */
module Highscores {

  /** One record of the highscore list. `date` is the tick count passed in by the caller. */
  datatype Entry = Entry(nickname: string, score: int, level: int, lines: int, date: int)

  /** The number of records kept. */
  const CAPACITY: nat := 100

  /** Scores never increase along the list. */
  predicate Sorted(l: seq<Entry>)
  {
    forall i, j :: 0 <= i < j < |l| ==> l[i].score >= l[j].score
  }

  /** The records with score `s`, in list order. */
  function WithScore(l: seq<Entry>, s: int): seq<Entry>
  {
    if l == [] then [] else (if l[0].score == s then [l[0]] else []) + WithScore(l[1..], s)
  }

  function Min(a: int, b: int): int
  {
    if a < b then a else b
  }

  /** Insert `e` into a list sorted by score, in front of the records it does not lose to. */
  function Insert(e: Entry, l: seq<Entry>): (r: seq<Entry>)
    ensures |r| == |l| + 1
  {
    if l == [] || l[0].score <= e.score then [e] + l
    else [l[0]] + Insert(e, l[1..])
  }

  /** Insertion adds exactly the inserted record. */
  lemma {:induction false} InsertPermutes(e: Entry, l: seq<Entry>)
    ensures multiset(Insert(e, l)) == multiset(l) + multiset{e}
  {
    if l != [] && l[0].score > e.score {
      InsertPermutes(e, l[1..]);
      assert l == [l[0]] + l[1..];
    }
  }

  /** Insertion into a sorted list keeps it sorted. */
  lemma {:induction false} InsertSorted(e: Entry, l: seq<Entry>)
    requires Sorted(l)
    ensures Sorted(Insert(e, l))
  {
    if l != [] && l[0].score > e.score {
      var rest := Insert(e, l[1..]);
      InsertSorted(e, l[1..]);
      assert rest[0] == e || rest[0] == l[1];
      ConsSorted(l[0], rest);
    }
  }

  /** A record no lower than the head of a sorted list can go in front of it. */
  lemma ConsSorted(h: Entry, l: seq<Entry>)
    requires Sorted(l) && (l != [] ==> h.score >= l[0].score)
    ensures Sorted([h] + l)
  {
    var r := [h] + l;
    forall i, j | 0 <= i < j < |r|
      ensures r[i].score >= r[j].score
    {
      assert r[j] == l[j - 1];
      if i > 0 {
        assert r[i] == l[i - 1];
      } else if j > 1 {
        assert l[0].score >= l[j - 1].score;
      }
    }
  }

  /**
   * `list.sort(key=score, reverse=True)`: a stable sort by score from highest
   * to lowest, written as an insertion sort.
   */
  function SortByScore(l: seq<Entry>): (r: seq<Entry>)
    ensures |r| == |l| && multiset(r) == multiset(l) && Sorted(r)
  {
    if l == [] then []
    else
      assert l == [l[0]] + l[1..];
      var rest := SortByScore(l[1..]);
      InsertSorted(l[0], rest);
      InsertPermutes(l[0], rest);
      Insert(l[0], rest)
  }

  /** Inserting a record puts it in front of the records with its own score. */
  lemma {:induction false} InsertWithScore(e: Entry, l: seq<Entry>, s: int)
    ensures WithScore(Insert(e, l), s) == (if e.score == s then [e] else []) + WithScore(l, s)
  {
    var mine := if e.score == s then [e] else [];
    if l == [] || l[0].score <= e.score {
      var r := [e] + l;
      assert r[0] == e && r[1..] == l;
      assert WithScore(r, s) == mine + WithScore(l, s);
    } else {
      var rest := Insert(e, l[1..]);
      InsertWithScore(e, l[1..], s);
      var r := [l[0]] + rest;
      assert r[0] == l[0] && r[1..] == rest;
      var head := if l[0].score == s then [l[0]] else [];
      assert WithScore(r, s) == head + (mine + WithScore(l[1..], s));
      assert WithScore(l, s) == head + WithScore(l[1..], s);
    }
  }

  /** The sort is stable: the records of every score keep their relative order. */
  lemma {:induction false} SortWithScore(l: seq<Entry>, s: int)
    ensures WithScore(SortByScore(l), s) == WithScore(l, s)
  {
    if l != [] {
      SortWithScore(l[1..], s);
      InsertWithScore(l[0], SortByScore(l[1..]), s);
    }
  }

  lemma {:induction false} WithScoreAppend(a: seq<Entry>, b: seq<Entry>, s: int)
    ensures WithScore(a + b, s) == WithScore(a, s) + WithScore(b, s)
  {
    if a == [] {
      assert a + b == b;
    } else {
      var ab := a + b;
      assert ab[0] == a[0] && ab[1..] == a[1..] + b;
      WithScoreAppend(a[1..], b, s);
      var head := if a[0].score == s then [a[0]] else [];
      assert WithScore(ab, s) == head + (WithScore(a[1..], s) + WithScore(b, s));
      assert WithScore(a, s) == head + WithScore(a[1..], s);
    }
  }

  /** The first `n` records of a sorted list are a sorted list of `n` records taken from it. */
  lemma SortedPrefix(l: seq<Entry>, n: nat)
    requires Sorted(l) && n <= |l|
    ensures |l[..n]| == n && Sorted(l[..n])
    ensures multiset(l[..n]) <= multiset(l)
  {
    assert l == l[..n] + l[n..];
  }

  /** Cutting a sorted list after its first `n` records cuts off none that beats one kept. */
  lemma CutOffScoresLower(l: seq<Entry>, n: nat)
    requires Sorted(l) && n <= |l|
    ensures forall x, y | x in multiset(l) - multiset(l[..n]) && y in l[..n] :: x.score <= y.score
  {
    assert l == l[..n] + l[n..];
    assert multiset(l) - multiset(l[..n]) == multiset(l[n..]);
    forall x, y | x in l[n..] && y in l[..n]
      ensures x.score <= y.score
    {
      var k :| n <= k < |l| && l[k] == x;
      var j :| 0 <= j < n && l[j] == y;
    }
  }

  /** A prefix keeps the first records of each score. */
  lemma PrefixWithScore(l: seq<Entry>, n: nat, s: int)
    requires n <= |l|
    ensures WithScore(l[..n], s) <= WithScore(l, s)
  {
    assert l == l[..n] + l[n..];
    WithScoreAppend(l[..n], l[n..], s);
  }

  /** The first `n` records of the sorted list hold, for each score, the first records of `l` with that score. */
  lemma RankedPrefix(l: seq<Entry>, n: nat)
    requires n <= |l|
    ensures forall s :: WithScore(SortByScore(l)[..n], s) <= WithScore(l, s)
  {
    forall s
      ensures WithScore(SortByScore(l)[..n], s) <= WithScore(l, s)
    {
      PrefixWithScore(SortByScore(l), n, s);
      SortWithScore(l, s);
    }
  }

  /** The appended record comes after every older record with its score. */
  lemma AppendedWithScore(l: seq<Entry>, e: Entry)
    ensures forall s :: WithScore(l + [e], s) == WithScore(l, s) + if s == e.score then [e] else []
  {
    forall s
      ensures WithScore(l + [e], s) == WithScore(l, s) + if s == e.score then [e] else []
    {
      WithScoreAppend(l, [e], s);
      assert [e][1..] == [];
    }
  }

  /**
   * RatingSystem.save_highscore without the file write: the list that is
   * saved after adding a record with the given fields.
   */
  function SaveHighscore(highscores: seq<Entry>, nickname: string, score: int, level: int, lines: int, date: int): (r: seq<Entry>)
    ensures |r| == Min(|highscores| + 1, CAPACITY)
    ensures Sorted(r)
    ensures multiset(r) <= multiset(highscores + [Entry(nickname, score, level, lines, date)])
    ensures forall x, y | x in multiset(highscores + [Entry(nickname, score, level, lines, date)]) - multiset(r) && y in r ::
      x.score <= y.score
  {
    var added := highscores + [Entry(nickname, score, level, lines, date)];
    var n := Min(|added|, CAPACITY);
    SortedPrefix(SortByScore(added), n);
    CutOffScoresLower(SortByScore(added), n);
    SortByScore(added)[..n]
  }

  /**
   * The saved list is stable: its records of each score are the first ones
   * of the old list with that score, then the new record.
   */
  lemma SaveHighscoreStable(highscores: seq<Entry>, nickname: string, score: int, level: int, lines: int, date: int)
    ensures forall s ::
      WithScore(SaveHighscore(highscores, nickname, score, level, lines, date), s) <=
      WithScore(highscores, s) + if s == score then [Entry(nickname, score, level, lines, date)] else []
  {
    var entry := Entry(nickname, score, level, lines, date);
    var added := highscores + [entry];
    RankedPrefix(added, Min(|added|, CAPACITY));
    AppendedWithScore(highscores, entry);
  }

  /** While the old list has fewer than CAPACITY records, nothing is cut off. */
  lemma SaveHighscoreKeepsAll(highscores: seq<Entry>, nickname: string, score: int, level: int, lines: int, date: int)
    requires |highscores| < CAPACITY
    ensures multiset(SaveHighscore(highscores, nickname, score, level, lines, date)) ==
      multiset(highscores + [Entry(nickname, score, level, lines, date)])
  {
    var added := highscores + [Entry(nickname, score, level, lines, date)];
    assert SortByScore(added)[..|added|] == SortByScore(added);
  }
}
