/**
  The page component that hosts the game: it records the final score when the
  field reports game over and saves named scores into a leaderboard that is
  kept sorted by score, highest first, and cut to ten entries.
*/
module Index {

  datatype Screen = Menu | Game | Leaderboard | Instructions | Pause | GameOver

  datatype Score = Score(name: string, score: int, level: int)

  const MaxEntries: int := 10
  const PointsPerLevel: int := 1000

  // ---------------------------------------------------------------------------
  // String.prototype.trim
  // ---------------------------------------------------------------------------

  /** The WhiteSpace and LineTerminator code points of ECMAScript. */
  predicate IsWhitespace(c: char)
  {
    || c == '\t' || c == '\n' || c == '\U{000B}' || c == '\U{000C}' || c == '\r'
    || c == ' ' || c == '\U{00A0}' || c == '\U{1680}'
    || ('\U{2000}' <= c <= '\U{200A}')
    || c == '\U{2028}' || c == '\U{2029}' || c == '\U{202F}' || c == '\U{205F}'
    || c == '\U{3000}' || c == '\U{FEFF}'
  }

  /** Trimming never removes an ASCII letter or digit. */
  lemma LettersAndDigitsNotWhitespace(c: char)
    requires '0' <= c <= '9' || 'A' <= c <= 'Z' || 'a' <= c <= 'z'
    ensures !IsWhitespace(c)
  {
  }

  predicate AllWhitespace(s: string)
  {
    forall i :: 0 <= i < |s| ==> IsWhitespace(s[i])
  }

  /** The length of the whitespace prefix of s. */
  function LeadingWhitespace(s: string): (n: nat)
    ensures n <= |s|
    ensures AllWhitespace(s[..n])
    ensures n < |s| ==> !IsWhitespace(s[n])
  {
    if |s| == 0 || !IsWhitespace(s[0]) then 0
    else
      var m := LeadingWhitespace(s[1..]);
      assert s[..m + 1] == [s[0]] + s[1..][..m];
      m + 1
  }

  /** The length of the whitespace suffix of s. */
  function TrailingWhitespace(s: string): (n: nat)
    ensures n <= |s|
    ensures AllWhitespace(s[|s| - n..])
    ensures n < |s| ==> !IsWhitespace(s[|s| - n - 1])
  {
    if |s| == 0 || !IsWhitespace(s[|s| - 1]) then 0
    else
      var t := s[..|s| - 1];
      var m := TrailingWhitespace(t);
      assert s[|s| - (m + 1)..] == t[|t| - m..] + [s[|s| - 1]];
      m + 1
  }

  lemma AllWhitespaceConcat(x: string, y: string)
    requires AllWhitespace(x) && AllWhitespace(y)
    ensures AllWhitespace(x + y)
  {
    forall i | 0 <= i < |x + y| ensures IsWhitespace((x + y)[i]) {
      if i < |x| {
        assert (x + y)[i] == x[i];
      } else {
        assert (x + y)[i] == y[i - |x|];
      }
    }
  }

  /**
    s without its leading and trailing whitespace: the empty string exactly
    when s is all whitespace, and otherwise a middle slice of s that starts
    and ends with a character that is not whitespace.
  */
  function Trim(s: string): (r: string)
    ensures r == [] <==> AllWhitespace(s)
    ensures r != [] ==> !IsWhitespace(r[0]) && !IsWhitespace(r[|r| - 1])
    ensures LeadingWhitespace(s) + |r| <= |s|
    ensures r == s[LeadingWhitespace(s)..LeadingWhitespace(s) + |r|]
    ensures AllWhitespace(s[LeadingWhitespace(s) + |r|..])
  {
    var a := LeadingWhitespace(s);
    var t := s[a..];
    var b := TrailingWhitespace(t);
    var r := t[..|t| - b];
    assert s[a + |r|..] == t[|t| - b..];
    assert r == [] ==> AllWhitespace(s) by {
      if r == [] {
        assert t[|t| - b..] == t;
        assert s == s[..a] + t;
        AllWhitespaceConcat(s[..a], t);
      }
    }
    assert r != [] ==> r[0] == s[a];
    r
  }

  // ---------------------------------------------------------------------------
  // New entries
  // ---------------------------------------------------------------------------

  /** Math.floor(score / 1000) + 1. */
  function EntryLevel(score: int): (level: int)
    ensures (level - 1) * PointsPerLevel <= score < level * PointsPerLevel
    ensures score >= 0 ==> level >= 1
  {
    score / PointsPerLevel + 1
  }

  function NewEntry(playerName: string, score: int): (e: Score)
    ensures e.name == Trim(playerName) && e.score == score
    ensures (e.level - 1) * PointsPerLevel <= score < e.level * PointsPerLevel
  {
    Score(Trim(playerName), score, EntryLevel(score))
  }

  // ---------------------------------------------------------------------------
  // Sorting: Array.prototype.sort with (a, b) => b.score - a.score, stable
  // ---------------------------------------------------------------------------

  predicate SortedByScore(s: seq<Score>)
  {
    forall i, j :: 0 <= i < j < |s| ==> s[i].score >= s[j].score
  }

  /** No entry of s scores more than v. */
  predicate AtMost(s: seq<Score>, v: int)
  {
    forall i :: 0 <= i < |s| ==> s[i].score <= v
  }

  /** Put e after every entry whose score is at least e's. */
  function Insert(s: seq<Score>, e: Score): (r: seq<Score>)
    ensures |r| == |s| + 1
  {
    if |s| == 0 then [e]
    else if s[0].score >= e.score then [s[0]] + Insert(s[1..], e)
    else [e] + s
  }

  lemma {:induction false} InsertPermutes(s: seq<Score>, e: Score)
    ensures multiset(Insert(s, e)) == multiset(s) + multiset{e}
  {
    if |s| > 0 {
      assert s == [s[0]] + s[1..];
      if s[0].score >= e.score {
        InsertPermutes(s[1..], e);
      }
    }
  }

  lemma {:induction false} InsertAtMost(s: seq<Score>, e: Score, v: int)
    requires AtMost(s, v) && e.score <= v
    ensures AtMost(Insert(s, e), v)
  {
    if |s| > 0 && s[0].score >= e.score {
      InsertAtMost(s[1..], e, v);
    }
  }

  lemma {:induction false} InsertSorted(s: seq<Score>, e: Score)
    requires SortedByScore(s)
    ensures SortedByScore(Insert(s, e))
  {
    if |s| > 0 {
      if s[0].score >= e.score {
        InsertSorted(s[1..], e);
        InsertAtMost(s[1..], e, s[0].score);
      } else {
        assert AtMost(s, e.score);
      }
    }
  }

  /** Insertion sort, taking the entries in their order. */
  function SortByScore(s: seq<Score>): (r: seq<Score>)
    ensures |r| == |s|
  {
    if |s| == 0 then []
    else Insert(SortByScore(s[..|s| - 1]), s[|s| - 1])
  }

  /** The result is sorted, highest score first. */
  lemma {:induction false} SortSortsByScore(s: seq<Score>)
    ensures SortedByScore(SortByScore(s))
  {
    if |s| > 0 {
      SortSortsByScore(s[..|s| - 1]);
      InsertSorted(SortByScore(s[..|s| - 1]), s[|s| - 1]);
    }
  }

  /** The sort is a permutation. */
  lemma {:induction false} SortPermutes(s: seq<Score>)
    ensures multiset(SortByScore(s)) == multiset(s)
  {
    if |s| > 0 {
      var init, last := s[..|s| - 1], s[|s| - 1];
      calc {
        multiset(SortByScore(s));
        multiset(Insert(SortByScore(init), last));
        { InsertPermutes(SortByScore(init), last); }
        multiset(SortByScore(init)) + multiset{last};
        { SortPermutes(init); }
        multiset(init) + multiset{last};
        { assert s == init + [last]; }
        multiset(s);
      }
    }
  }

  /** The entries of s with score v, in their order in s. */
  function WithScore(s: seq<Score>, v: int): seq<Score>
  {
    if |s| == 0 then []
    else (if s[0].score == v then [s[0]] else []) + WithScore(s[1..], v)
  }

  lemma {:induction false} WithScoreAppend(a: seq<Score>, b: seq<Score>, v: int)
    ensures WithScore(a + b, v) == WithScore(a, v) + WithScore(b, v)
  {
    if |a| == 0 {
      assert a + b == b;
    } else {
      var head := if a[0].score == v then [a[0]] else [];
      assert (a + b)[0] == a[0];
      assert (a + b)[1..] == a[1..] + b;
      WithScoreAppend(a[1..], b, v);
      calc {
        WithScore(a + b, v);
        head + WithScore(a[1..] + b, v);
        head + (WithScore(a[1..], v) + WithScore(b, v));
        (head + WithScore(a[1..], v)) + WithScore(b, v);
      }
    }
  }

  lemma {:induction false} WithScoreNone(s: seq<Score>, v: int)
    requires forall i :: 0 <= i < |s| ==> s[i].score < v
    ensures WithScore(s, v) == []
  {
    if |s| > 0 {
      WithScoreNone(s[1..], v);
    }
  }

  lemma {:induction false} InsertStable(s: seq<Score>, e: Score, v: int)
    requires SortedByScore(s)
    ensures WithScore(Insert(s, e), v) == WithScore(s, v) + (if e.score == v then [e] else [])
  {
    if |s| == 0 {
    } else if s[0].score >= e.score {
      InsertStable(s[1..], e, v);
      assert ([s[0]] + Insert(s[1..], e))[1..] == Insert(s[1..], e);
    } else {
      assert ([e] + s)[1..] == s;
      if e.score == v {
        WithScoreNone(s, v);
      }
    }
  }

  /**
    The sort is stable: for every score, the entries with that score appear
    in the result in the order they had in the input.
  */
  lemma {:induction false} SortStable(s: seq<Score>, v: int)
    ensures WithScore(SortByScore(s), v) == WithScore(s, v)
  {
    if |s| > 0 {
      var init, last := s[..|s| - 1], s[|s| - 1];
      SortStable(init, v);
      SortSortsByScore(init);
      InsertStable(SortByScore(init), last, v);
      assert s == init + [last];
      WithScoreAppend(init, [last], v);
      assert [last][1..] == [];
    }
  }

  lemma {:induction false} InsertAtEnd(s: seq<Score>, e: Score)
    requires forall i :: 0 <= i < |s| ==> s[i].score >= e.score
    ensures Insert(s, e) == s + [e]
  {
    if |s| > 0 {
      InsertAtEnd(s[1..], e);
      assert s == [s[0]] + s[1..];
    }
  }

  /** Sorting a sorted sequence changes nothing. */
  lemma {:induction false} SortSorted(s: seq<Score>)
    requires SortedByScore(s)
    ensures SortByScore(s) == s
  {
    if |s| > 0 {
      var init := s[..|s| - 1];
      SortSorted(init);
      InsertAtEnd(init, s[|s| - 1]);
      assert init + [s[|s| - 1]] == s;
    }
  }

  /** Where Insert puts e: after the leading entries that score at least as much. */
  function InsertPoint(s: seq<Score>, e: Score): (k: nat)
    ensures k <= |s|
    ensures forall i :: 0 <= i < k ==> s[i].score >= e.score
    ensures k < |s| ==> s[k].score < e.score
  {
    if |s| == 0 || s[0].score < e.score then 0
    else 1 + InsertPoint(s[1..], e)
  }

  lemma {:induction false} InsertSplits(s: seq<Score>, e: Score)
    ensures Insert(s, e) == s[..InsertPoint(s, e)] + [e] + s[InsertPoint(s, e)..]
  {
    if |s| > 0 && s[0].score >= e.score {
      InsertSplits(s[1..], e);
      var k := InsertPoint(s[1..], e);
      assert s[..k + 1] == [s[0]] + s[1..][..k];
      assert s[k + 1..] == s[1..][k..];
    }
  }

  // ---------------------------------------------------------------------------
  // The leaderboard update
  // ---------------------------------------------------------------------------

  /** [...board, entry].sort(byScoreDescending).slice(0, 10). */
  function Ranked(board: seq<Score>, entry: Score): (r: seq<Score>)
    ensures |r| == if |board| + 1 < MaxEntries then |board| + 1 else MaxEntries
    ensures SortedByScore(r)
  {
    var sorted := SortByScore(board + [entry]);
    SortSortsByScore(board + [entry]);
    sorted[..if |sorted| < MaxEntries then |sorted| else MaxEntries]
  }

  /** Nothing but the old entries and the new one can appear, none of them twice. */
  lemma RankedEntries(board: seq<Score>, entry: Score)
    ensures multiset(Ranked(board, entry)) <= multiset(board) + multiset{entry}
    ensures forall x :: x in Ranked(board, entry) ==> x in board || x == entry
  {
    var sorted := SortByScore(board + [entry]);
    var r := Ranked(board, entry);
    SortPermutes(board + [entry]);
    assert sorted == r + sorted[|r|..];
    assert multiset(board + [entry]) == multiset(board) + multiset{entry};
    forall x | x in r ensures x in board || x == entry {
      assert x in multiset(r);
      assert x in multiset(board) + multiset{entry};
    }
  }

  /**
    The kept entries are the sorted sequence cut after ten, and entries with
    equal scores keep the order in which they were added.
  */
  lemma RankedStable(board: seq<Score>, entry: Score, v: int)
    ensures Ranked(board, entry) == SortByScore(board + [entry])[..|Ranked(board, entry)|]
    ensures WithScore(SortByScore(board + [entry]), v)
            == WithScore(board, v) + (if entry.score == v then [entry] else [])
  {
    SortStable(board + [entry], v);
    WithScoreAppend(board, [entry], v);
    assert [entry][1..] == [];
  }

  /** While there is room, a new score is always kept. */
  lemma RankedKeepsEntryWhenRoom(board: seq<Score>, entry: Score)
    requires |board| < MaxEntries
    ensures entry in Ranked(board, entry)
  {
    var sorted := SortByScore(board + [entry]);
    SortPermutes(board + [entry]);
    assert Ranked(board, entry) == sorted;
    assert entry in multiset(board + [entry]);
  }

  /** On a sorted board, ranking is inserting the new entry after its equals. */
  lemma RankedOnSortedBoard(board: seq<Score>, entry: Score)
    requires SortedByScore(board)
    ensures SortByScore(board + [entry]) == Insert(board, entry)
  {
    SortSorted(board);
    var s := board + [entry];
    assert s[..|s| - 1] == board && s[|s| - 1] == entry;
  }

  /** An entry scoring above the lowest of ten is ranked at its insertion point. */
  lemma RankedAdmitted(board: seq<Score>, entry: Score)
    requires SortedByScore(board) && |board| == MaxEntries
    requires entry.score > board[MaxEntries - 1].score
    ensures InsertPoint(board, entry) < MaxEntries
    ensures Ranked(board, entry) == board[..InsertPoint(board, entry)] + [entry]
                                    + board[InsertPoint(board, entry)..MaxEntries - 1]
    ensures multiset(Ranked(board, entry))[entry] == multiset(board)[entry] + 1
  {
    RankedOnSortedBoard(board, entry);
    InsertSplits(board, entry);
    var k := InsertPoint(board, entry);
    var r := Ranked(board, entry);
    var ins := Insert(board, entry);
    assert k < MaxEntries;
    assert r == ins[..MaxEntries];
    assert ins == board[..k] + [entry] + board[k..];
    assert r == board[..k] + [entry] + board[k..MaxEntries - 1];
    assert multiset(r) == multiset(board[..k]) + multiset{entry} + multiset(board[k..MaxEntries - 1]);
    assert board[..k] + board[k..MaxEntries - 1] == board[..MaxEntries - 1];
    assert board == board[..MaxEntries - 1] + [board[MaxEntries - 1]];
    assert multiset(board) == multiset(board[..k]) + multiset(board[k..MaxEntries - 1]) + multiset{board[MaxEntries - 1]};
    assert board[MaxEntries - 1] != entry;
  }

  /** An entry scoring at most the lowest of ten leaves the board as it was. */
  lemma RankedRejected(board: seq<Score>, entry: Score)
    requires SortedByScore(board) && |board| == MaxEntries
    requires entry.score <= board[MaxEntries - 1].score
    ensures InsertPoint(board, entry) == MaxEntries
    ensures Ranked(board, entry) == board
  {
    RankedOnSortedBoard(board, entry);
    InsertSplits(board, entry);
    var k := InsertPoint(board, entry);
    assert k == MaxEntries;
    assert board[..k] == board && board[k..] == [];
    assert Insert(board, entry) == board + [entry];
    assert (board + [entry])[..MaxEntries] == board;
  }

  /**
    On a full sorted leaderboard the new entry gets in exactly when it beats
    the tenth score, which then drops out; a tie with the tenth score is not
    enough, since the sort is stable and the new entry came last.
  */
  lemma RankedAdmission(board: seq<Score>, entry: Score)
    requires SortedByScore(board) && |board| == MaxEntries
    ensures multiset(Ranked(board, entry))[entry]
            == multiset(board)[entry] + (if entry.score > board[MaxEntries - 1].score then 1 else 0)
    ensures entry.score <= board[MaxEntries - 1].score ==> Ranked(board, entry) == board
    ensures entry.score > board[MaxEntries - 1].score ==>
              Ranked(board, entry) == board[..InsertPoint(board, entry)] + [entry]
                                      + board[InsertPoint(board, entry)..MaxEntries - 1]
  {
    if entry.score > board[MaxEntries - 1].score {
      RankedAdmitted(board, entry);
    } else {
      RankedRejected(board, entry);
    }
  }

  // ---------------------------------------------------------------------------
  // The component state
  // ---------------------------------------------------------------------------

  /** The hard-coded starting leaderboard. */
  function InitialLeaderboard(): (board: seq<Score>)
    ensures SortedByScore(board) && |board| <= MaxEntries
  {
    [Score("Mario", 15000, 8), Score("Luigi", 12500, 7), Score("Peach", 10000, 6),
     Score("Bowser", 8500, 5), Score("Yoshi", 7000, 4)]
  }

  class App {
    var currentScreen: Screen
    var currentScore: int
    var playerName: string
    var leaderboard: seq<Score>

    ghost predicate Valid()
      reads this
    {
      SortedByScore(leaderboard) && |leaderboard| <= MaxEntries
    }

    constructor ()
      ensures Valid()
      ensures currentScreen == Menu && currentScore == 0 && playerName == []
      ensures leaderboard == InitialLeaderboard()
    {
      currentScreen := Menu;
      currentScore := 0;
      playerName := [];
      leaderboard := InitialLeaderboard();
    }

    /** handleGameOver: the field's onGameOver callback. */
    method HandleGameOver(score: int)
      requires Valid()
      modifies this
      ensures Valid()
      ensures currentScore == score && currentScreen == GameOver
      ensures playerName == old(playerName) && leaderboard == old(leaderboard)
    {
      currentScore := score;
      currentScreen := GameOver;
    }

    /** The name input's onChange handler. */
    method TypeName(text: string)
      requires Valid()
      modifies this
      ensures Valid()
      ensures playerName == text
      ensures currentScreen == old(currentScreen) && currentScore == old(currentScore)
      ensures leaderboard == old(leaderboard)
    {
      playerName := text;
    }

    /** saveScore: refused for a blank name, else ranks the entry and shows the table. */
    method SaveScore() returns (saved: bool)
      requires Valid()
      modifies this
      ensures Valid()
      ensures saved <==> Trim(old(playerName)) != []
      ensures !saved ==> unchanged(this)
      ensures saved ==> leaderboard == Ranked(old(leaderboard), NewEntry(old(playerName), old(currentScore)))
      ensures saved ==> playerName == [] && currentScreen == Leaderboard
      ensures currentScore == old(currentScore)
    {
      var name := Trim(playerName);
      if name == [] {
        return false;
      }
      var entry := NewEntry(playerName, currentScore);
      leaderboard := Ranked(leaderboard, entry);
      playerName := [];
      currentScreen := Leaderboard;
      saved := true;
    }
  }
}
