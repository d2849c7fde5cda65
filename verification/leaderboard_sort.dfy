/**
 * `leaderboard.sortedByDescending { it.score }`: a stable sort on the score,
 * highest first. Kotlin sorts with a stable merge sort; the model is a stable
 * insertion sort, and the lemmas show that any stable descending sort gives
 * the same list.
 */
module LeaderboardSort {
  import opened Options
  import opened KotlinText
  import opened Leaderboard

  /** Scores never increase along the list. */
  predicate NonIncreasing(s: seq<Entry>) {
    forall i, j :: 0 <= i < j < |s| ==> s[i].score >= s[j].score
  }

  /** The entries of `s` whose score is `k`, in their order in `s`. */
  function WithScore(s: seq<Entry>, k: int): (r: seq<Entry>)
    ensures forall i :: 0 <= i < |r| ==> r[i].score == k
    ensures forall i :: 0 <= i < |s| && s[i].score == k ==> s[i] in r
    ensures forall x :: x in r ==> x in s
  {
    if s == [] then []
    else
      var rest := WithScore(s[1..], k);
      assert forall i :: 1 <= i < |s| ==> s[i] == s[1..][i - 1];
      if s[0].score == k then [s[0]] + rest else rest
  }

  /**
   * Places `x` after the entries of `t` that score strictly more, and before
   * the first one that scores as much or less.
   */
  function Insert(x: Entry, t: seq<Entry>): (r: seq<Entry>)
    ensures multiset(r) == multiset(t) + multiset{x}
    ensures NonIncreasing(t) ==> NonIncreasing(r)
  {
    if t == [] then [x]
    else if t[0].score > x.score then
      var rest := Insert(x, t[1..]);
      assert t == [t[0]] + t[1..];
      InsertBelow(x, t, rest);
      [t[0]] + rest
    else
      [x] + t
  }

  /** The first entry of a sorted `t` scores at least as much as all of `Insert(x, t[1..])`. */
  lemma InsertBelow(x: Entry, t: seq<Entry>, rest: seq<Entry>)
    requires t != [] && t[0].score > x.score
    requires multiset(rest) == multiset(t[1..]) + multiset{x}
    requires NonIncreasing(t) ==> NonIncreasing(rest)
    ensures NonIncreasing(t) ==> NonIncreasing([t[0]] + rest)
  {
    if NonIncreasing(t) {
      var r := [t[0]] + rest;
      forall j | 0 < j < |r| ensures t[0].score >= r[j].score {
        assert rest[j - 1] in multiset(rest);
        if rest[j - 1] != x {
          assert rest[j - 1] in multiset(t[1..]);
          var m :| 0 <= m < |t[1..]| && t[1..][m] == rest[j - 1];
          assert t[m + 1] == rest[j - 1];
        }
      }
    }
  }

  /**
   * `sortedByDescending { it.score }`: a permutation of `s` whose scores never
   * increase.
   */
  function SortedByDescending(s: seq<Entry>): (r: seq<Entry>)
    ensures multiset(r) == multiset(s)
    ensures NonIncreasing(r)
  {
    if s == [] then []
    else
      assert s == [s[0]] + s[1..];
      Insert(s[0], SortedByDescending(s[1..]))
  }

  /** Inserting `x` adds it in front of the entries that share its score. */
  lemma {:induction false} WithScoreInsert(x: Entry, t: seq<Entry>, k: int)
    ensures WithScore(Insert(x, t), k) == WithScore([x] + t, k)
  {
    if t != [] && t[0].score > x.score {
      WithScoreInsert(x, t[1..], k);
      assert ([x] + t)[1..] == t;
      assert ([x] + t[1..])[1..] == t[1..];
      assert ([t[0]] + Insert(x, t[1..]))[1..] == Insert(x, t[1..]);
      if t[0].score == k {
        assert x.score != k;
      }
    }
  }

  /**
   * Stability: for every score, the entries with that score come out in the
   * order they went in.
   */
  lemma {:induction false} SortIsStable(s: seq<Entry>, k: int)
    ensures WithScore(SortedByDescending(s), k) == WithScore(s, k)
  {
    if s != [] {
      SortIsStable(s[1..], k);
      WithScoreInsert(s[0], SortedByDescending(s[1..]), k);
      assert ([s[0]] + SortedByDescending(s[1..]))[1..] == SortedByDescending(s[1..]);
    }
  }

  /**
   * Two lists sorted by descending score that agree, score by score, on the
   * order of their entries are the same list.
   */
  lemma {:induction false} SameOrderPerScore(a: seq<Entry>, b: seq<Entry>)
    requires NonIncreasing(a) && NonIncreasing(b)
    requires forall k :: WithScore(a, k) == WithScore(b, k)
    ensures a == b
    decreases |a| + |b|
  {
    if a != [] {
      NoneMissing(a, b);
    }
    if b != [] {
      NoneMissing(b, a);
    }
    if a != [] {
      HeadsAgree(a, b);
      SameOrderPerScore(a[1..], b[1..]);
      assert a == [a[0]] + a[1..] && b == [b[0]] + b[1..];
    }
  }

  /** A list agreeing score by score with a non-empty list is not empty. */
  lemma NoneMissing(a: seq<Entry>, b: seq<Entry>)
    requires a != []
    requires forall k :: WithScore(a, k) == WithScore(b, k)
    ensures b != []
  {
    assert a[0] in WithScore(a, a[0].score);
  }

  /**
   * Two non-empty sorted lists that agree score by score start with the same
   * entry, and their tails agree score by score too.
   */
  lemma HeadsAgree(a: seq<Entry>, b: seq<Entry>)
    requires a != [] && b != []
    requires NonIncreasing(a) && NonIncreasing(b)
    requires forall k :: WithScore(a, k) == WithScore(b, k)
    ensures a[0] == b[0]
    ensures forall k :: WithScore(a[1..], k) == WithScore(b[1..], k)
  {
    var m := a[0].score;
    assert b[0].score >= m by {
      assert a[0] in WithScore(a, m);
      assert WithScore(a, m) == WithScore(b, m);
      var j :| 0 <= j < |b| && b[j] == a[0];
    }
    assert m >= b[0].score by {
      assert b[0] in WithScore(b, b[0].score);
      assert WithScore(a, b[0].score) == WithScore(b, b[0].score);
      var j :| 0 <= j < |a| && a[j] == b[0];
    }
    assert b[0].score == m;
    assert a[0] == b[0] by {
      assert WithScore(a, m)[0] == a[0];
      assert WithScore(b, m)[0] == b[0];
      assert WithScore(a, m) == WithScore(b, m);
    }
    forall k ensures WithScore(a[1..], k) == WithScore(b[1..], k) {
      assert WithScore(a, k) == WithScore(b, k);
      if k == m {
        assert WithScore(a[1..], k) == WithScore(a, k)[1..];
        assert WithScore(b[1..], k) == WithScore(b, k)[1..];
      }
    }
  }

  /**
   * The sort is determined by its specification: a list that is sorted by
   * descending score and keeps, for every score, the input's order of the
   * entries with that score, is the result of the sort.
   */
  lemma SortIsUnique(s: seq<Entry>, r: seq<Entry>)
    requires NonIncreasing(r)
    requires forall k :: WithScore(r, k) == WithScore(s, k)
    ensures r == SortedByDescending(s)
  {
    forall k ensures WithScore(r, k) == WithScore(SortedByDescending(s), k) {
      SortIsStable(s, k);
    }
    SameOrderPerScore(r, SortedByDescending(s));
  }

  /**
   * What the screen lists: the decoded entries of the stored value, highest
   * score first.
   */
  function Displayed(stored: Option<string>): (r: seq<Entry>)
    ensures multiset(r) == multiset(LoadStored(stored))
    ensures NonIncreasing(r)
    ensures forall i :: 0 <= i < |r| ==> ValidEntry(r[i])
  {
    var loaded := LoadStored(stored);
    var r := SortedByDescending(loaded);
    forall i | 0 <= i < |r| ensures ValidEntry(r[i]) {
      assert r[i] in multiset(loaded);
    }
    r
  }

  /**
   * The shape of `Ana,50|Bruno,80|Carla,30`: three records stored in the order
   * middle, highest, lowest are listed highest, middle, lowest.
   */
  lemma ThreePlayers(stored: string, ana: Entry, bruno: Entry, carla: Entry)
    requires ValidEntry(ana) && ValidEntry(bruno) && ValidEntry(carla)
    requires bruno.score > ana.score > carla.score
    requires stored == Encode([ana, bruno, carla])
    ensures Displayed(Some(stored)) == [bruno, ana, carla]
  {
    var entries := [ana, bruno, carla];
    assert LoadStored(Some(stored)) == entries by {
      LoadStoredRoundTrip(entries);
    }
    SortThree(ana, bruno, carla);
  }

  /** Worked example: `Ana,50|Bruno,80|Carla,30` is listed Bruno, Ana, Carla. */
  lemma ThreePlayersListed()
    ensures Displayed(Some("Ana,50|Bruno,80|Carla,30"))
            == [Entry("Bruno", 80), Entry("Ana", 50), Entry("Carla", 30)]
  {
    ThreePlayersStored();
    ThreePlayers("Ana,50|Bruno,80|Carla,30", Entry("Ana", 50), Entry("Bruno", 80), Entry("Carla", 30));
  }

  lemma SortThree(ana: Entry, bruno: Entry, carla: Entry)
    requires bruno.score > ana.score > carla.score
    ensures SortedByDescending([ana, bruno, carla]) == [bruno, ana, carla]
  {
    var entries := [ana, bruno, carla];
    assert entries[1..] == [bruno, carla];
    assert entries[1..][1..] == [carla];
    assert entries[1..][1..][1..] == [];
    assert SortedByDescending([carla]) == [carla];
    assert SortedByDescending([bruno, carla]) == [bruno, carla];
    assert Insert(ana, [bruno, carla]) == [bruno] + Insert(ana, [carla]);
  }
}
