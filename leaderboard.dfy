/** The leaderboard dialog's reduction of all stored results: the best
    result of each player, ranked by pegs left and then by time, and the
    best five results of the current day. The results and the day are
    inputs; reading them from the database is not modelled. */
module Leaderboard {
  import opened Text

  /** One stored leaderboard result. */
  datatype LeaderRecord = LeaderRecord(
    playerName: string, remainingPegs: int, score: int, moves: int, gameTimeSeconds: int, date: string)

  /** Entries shown in the all-time list. */
  const AllTimeShown := 10

  /** Entries kept in the list of the day. */
  const TodayShown := 5

  // ---------------------------------------------------------------------
  // The ranking key: fewer pegs first, then less time
  // ---------------------------------------------------------------------

  /** `compareBy { remainingPegs }.thenBy { gameTimeSeconds }` says `a`
      is not after `b`. */
  predicate KeyLe(a: LeaderRecord, b: LeaderRecord) {
    a.remainingPegs < b.remainingPegs || (a.remainingPegs == b.remainingPegs && a.gameTimeSeconds <= b.gameTimeSeconds)
  }

  /** The same comparison says `a` strictly before `b`. */
  predicate KeyLess(a: LeaderRecord, b: LeaderRecord) {
    a.remainingPegs < b.remainingPegs || (a.remainingPegs == b.remainingPegs && a.gameTimeSeconds < b.gameTimeSeconds)
  }

  predicate Sorted(s: seq<LeaderRecord>) {
    forall i, j :: 0 <= i < j < |s| ==> KeyLe(s[i], s[j])
  }

  // ---------------------------------------------------------------------
  // Grouping by player
  // ---------------------------------------------------------------------

  /** The names that occur in the results. */
  function Players(records: seq<LeaderRecord>): set<string> {
    set r | r in records :: r.playerName
  }

  /** The keys of `groupBy { playerName }`: every name once, in the order
      of its first result. */
  function Names(records: seq<LeaderRecord>): (names: seq<string>)
    ensures forall n :: n in names <==> n in Players(records)
    ensures forall i, j :: 0 <= i < j < |names| ==> names[i] != names[j]
  {
    if records == [] then []
    else
      var front := records[..|records| - 1];
      var last := records[|records| - 1];
      assert records == front + [last];
      var names := Names(front);
      if last.playerName in names then names else names + [last.playerName]
  }

  /** One player's results, in their original order. */
  function Group(records: seq<LeaderRecord>, name: string): (group: seq<LeaderRecord>)
    ensures forall r :: r in group <==> r in records && r.playerName == name
    ensures name in Players(records) ==> |group| > 0
  {
    if records == [] then []
    else
      var front := records[..|records| - 1];
      var last := records[|records| - 1];
      assert records == front + [last];
      var group := Group(front, name);
      if last.playerName == name then group + [last] else group
  }

  /** `minWithOrNull` on a non-empty list: the first result that no
      result beats, since a later one replaces it only when strictly
      better. */
  function MinBy(records: seq<LeaderRecord>): (best: LeaderRecord)
    requires |records| > 0
    ensures best in records
    ensures forall r :: r in records ==> KeyLe(best, r)
    ensures exists i :: 0 <= i < |records| && records[i] == best && forall k :: 0 <= k < i ==> KeyLess(best, records[k])
  {
    if |records| == 1 then records[0]
    else
      var front := records[..|records| - 1];
      var last := records[|records| - 1];
      assert records == front + [last];
      var best := MinBy(front);
      assert forall k :: 0 <= k < |front| ==> records[k] == front[k];
      if KeyLess(last, best) then
        assert forall k :: 0 <= k < |front| ==> front[k] in front;
        last
      else
        best
  }

  /** The best result of each listed player, in the order of `names`. */
  function BestOf(records: seq<LeaderRecord>, names: seq<string>): (bests: seq<LeaderRecord>)
    requires forall n :: n in names ==> n in Players(records)
    ensures |bests| == |names|
  {
    if names == [] then []
    else BestOf(records, names[..|names| - 1]) + [MinBy(Group(records, names[|names| - 1]))]
  }

  /** Each player's best result, players in order of first appearance:
      `groupBy` followed by `minWithOrNull` on each group (the fallback to
      the group's first result is never taken, groups being non-empty). */
  function Leaders(records: seq<LeaderRecord>): seq<LeaderRecord> {
    BestOf(records, Names(records))
  }

  lemma {:induction false} BestOfSpec(records: seq<LeaderRecord>, names: seq<string>, i: int)
    requires forall n :: n in names ==> n in Players(records)
    requires 0 <= i < |names|
    ensures BestOf(records, names)[i] == MinBy(Group(records, names[i]))
  {
    if i < |names| - 1 {
      BestOfSpec(records, names[..|names| - 1], i);
    }
  }

  /** Leaders holds, for each player, one result of that player that is
      a result of the input and that no result of the same player beats. */
  lemma LeadersSpec(records: seq<LeaderRecord>)
    ensures |Leaders(records)| == |Names(records)|
    ensures forall i :: 0 <= i < |Leaders(records)| ==>
      && Leaders(records)[i].playerName == Names(records)[i]
      && Leaders(records)[i] in records
      && forall r :: r in records && r.playerName == Names(records)[i] ==> KeyLe(Leaders(records)[i], r)
  {
    var names := Names(records);
    forall i | 0 <= i < |names|
      ensures Leaders(records)[i] == MinBy(Group(records, names[i]))
    {
      BestOfSpec(records, names, i);
    }
  }

  // ---------------------------------------------------------------------
  // Stable sort by the key
  // ---------------------------------------------------------------------

  /** Puts `x` in front of the first entry it is not after, so it stays
      before the entries it came before and ties keep their order. */
  function Insert(x: LeaderRecord, s: seq<LeaderRecord>): (r: seq<LeaderRecord>)
    ensures multiset(r) == multiset(s) + multiset{x}
  {
    if s == [] then [x]
    else if KeyLe(x, s[0]) then [x] + s
    else
      assert s == [s[0]] + s[1..];
      [s[0]] + Insert(x, s[1..])
  }

  /** Inserting into a sorted list keeps it sorted. */
  lemma {:induction false} InsertSorted(x: LeaderRecord, s: seq<LeaderRecord>)
    requires Sorted(s)
    ensures Sorted(Insert(x, s))
  {
    if s != [] && !KeyLe(x, s[0]) {
      var rest := Insert(x, s[1..]);
      InsertSorted(x, s[1..]);
      forall j | 0 <= j < |rest| ensures KeyLe(s[0], rest[j]) {
        var y := rest[j];
        assert y in multiset(rest);
        if y != x {
          assert y in multiset(s[1..]);
          var m :| 0 <= m < |s[1..]| && s[1..][m] == y;
          assert s[m + 1] == y;
        }
      }
      var r := [s[0]] + rest;
      forall i, j | 0 <= i < j < |r| ensures KeyLe(r[i], r[j]) {
        if i > 0 {
          assert r[i] == rest[i - 1] && r[j] == rest[j - 1];
        } else {
          assert r[j] == rest[j - 1];
        }
      }
    }
  }

  /** `sortedWith(compareBy { remainingPegs }.thenBy { gameTimeSeconds })`:
      an insertion sort, stable like Kotlin's. */
  function SortByKey(s: seq<LeaderRecord>): (r: seq<LeaderRecord>)
    ensures Sorted(r)
    ensures multiset(r) == multiset(s)
  {
    if s == [] then []
    else
      assert s == [s[0]] + s[1..];
      var rest := SortByKey(s[1..]);
      InsertSorted(s[0], rest);
      Insert(s[0], rest)
  }

  /** `take(n)`. */
  function Take(s: seq<LeaderRecord>, n: nat): (r: seq<LeaderRecord>)
    ensures |r| == if |s| < n then |s| else n
    ensures r == s[..|r|]
  {
    if |s| <= n then s else s[..n]
  }

  // ---------------------------------------------------------------------
  // The two lists of the dialog
  // ---------------------------------------------------------------------

  /** All-time ranking: each player's best result, sorted by the key. */
  function UniqueLeaders(records: seq<LeaderRecord>): seq<LeaderRecord> {
    SortByKey(Leaders(records))
  }

  /** The all-time list as shown: its first ten entries. */
  function TopLeaders(records: seq<LeaderRecord>): seq<LeaderRecord> {
    Take(UniqueLeaders(records), AllTimeShown)
  }

  /** Two lists with the same multiset hold the same entries. */
  lemma SameMembers(a: seq<LeaderRecord>, b: seq<LeaderRecord>)
    requires multiset(a) == multiset(b)
    ensures forall x :: x in a <==> x in b
  {
    forall x ensures x in a <==> x in b {
      assert x in a <==> x in multiset(a);
      assert x in b <==> x in multiset(b);
    }
  }

  /** Every entry of the all-time ranking is a result of the input that no
      result of the same player beats, and the ranking is sorted. */
  lemma UniqueLeadersBest(records: seq<LeaderRecord>)
    ensures Sorted(UniqueLeaders(records))
    ensures forall x :: x in UniqueLeaders(records) ==>
      && x in records
      && forall r :: r in records && r.playerName == x.playerName ==> KeyLe(x, r)
  {
    var leaders := Leaders(records);
    LeadersSpec(records);
    SameMembers(UniqueLeaders(records), leaders);
    forall x | x in UniqueLeaders(records)
      ensures x in records && forall r :: r in records && r.playerName == x.playerName ==> KeyLe(x, r)
    {
      var i :| 0 <= i < |leaders| && leaders[i] == x;
    }
  }

  /** Every player with a result appears in the all-time ranking. */
  lemma UniqueLeadersCover(records: seq<LeaderRecord>)
    ensures forall r :: r in records ==> exists x :: x in UniqueLeaders(records) && x.playerName == r.playerName
  {
    var leaders := Leaders(records);
    var names := Names(records);
    LeadersSpec(records);
    SameMembers(UniqueLeaders(records), leaders);
    forall r | r in records
      ensures exists x :: x in UniqueLeaders(records) && x.playerName == r.playerName
    {
      assert r.playerName in Players(records);
      var i :| 0 <= i < |names| && names[i] == r.playerName;
      assert leaders[i] in UniqueLeaders(records);
    }
  }

  /** No player appears twice in the all-time ranking. */
  lemma UniqueLeadersDistinct(records: seq<LeaderRecord>)
    ensures forall i, j :: 0 <= i < j < |UniqueLeaders(records)| ==>
      UniqueLeaders(records)[i].playerName != UniqueLeaders(records)[j].playerName
  {
    var u := UniqueLeaders(records);
    LeadersSpec(records);
    forall i, j | 0 <= i < j < |u| ensures u[i].playerName != u[j].playerName {
      DistinctNamesSorted(Leaders(records), u, Names(records), i, j);
    }
  }

  /** Two different positions of a permutation of the leaders hold two
      different players. */
  lemma DistinctNamesSorted(leaders: seq<LeaderRecord>, u: seq<LeaderRecord>, names: seq<string>, i: int, j: int)
    requires |leaders| == |names|
    requires forall k :: 0 <= k < |leaders| ==> leaders[k].playerName == names[k]
    requires forall k, l :: 0 <= k < l < |names| ==> names[k] != names[l]
    requires multiset(u) == multiset(leaders)
    requires 0 <= i < j < |u|
    ensures u[i].playerName != u[j].playerName
  {
    if u[i].playerName == u[j].playerName {
      var a, b := u[i], u[j];
      assert a in multiset(leaders) && b in multiset(leaders);
      var k :| 0 <= k < |leaders| && leaders[k] == a;
      var l :| 0 <= l < |leaders| && leaders[l] == b;
      assert k == l;
      TwiceCounted(u, i, j);
      NamesOnce(leaders, names, k);
      assert false;
    }
  }

  /** An entry found at two positions is counted at least twice. */
  lemma TwiceCounted(u: seq<LeaderRecord>, i: int, j: int)
    requires 0 <= i < j < |u| && u[i] == u[j]
    ensures multiset(u)[u[i]] >= 2
  {
    assert u == u[..i] + [u[i]] + u[i + 1..j] + [u[j]] + u[j + 1..];
  }

  /** With distinct names, a leader occurs once. */
  lemma {:induction false} NamesOnce(leaders: seq<LeaderRecord>, names: seq<string>, k: int)
    requires |leaders| == |names|
    requires forall m :: 0 <= m < |leaders| ==> leaders[m].playerName == names[m]
    requires forall m, l :: 0 <= m < l < |names| ==> names[m] != names[l]
    requires 0 <= k < |leaders|
    ensures multiset(leaders)[leaders[k]] == 1
  {
    if |leaders| > 1 {
      var n := |leaders| - 1;
      assert leaders == leaders[..n] + [leaders[n]];
      if k < n {
        NamesOnce(leaders[..n], names[..n], k);
        assert leaders[n] != leaders[k];
      } else {
        assert leaders[k] !in leaders[..n];
      }
    }
  }

  /** The shown all-time list has at most ten entries and is the start of
      the ranking. */
  lemma TopLeadersSpec(records: seq<LeaderRecord>)
    ensures |TopLeaders(records)| <= AllTimeShown
    ensures TopLeaders(records) == UniqueLeaders(records)[..|TopLeaders(records)|]
    ensures |UniqueLeaders(records)| >= AllTimeShown ==> |TopLeaders(records)| == AllTimeShown
  {
  }

  // ---------------------------------------------------------------------
  // Results of the day
  // ---------------------------------------------------------------------

  /** A result belongs to `today` (formatted "dd.MM.yyyy") when the part
      of its date before the first space, followed by '.' and the current
      year, is exactly `today`. */
  predicate OfToday(r: LeaderRecord, today: string, year: int) {
    Split(r.date, ' ')[0] + "." + IntToString(year) == today
  }

  /** `filter`: the results of the day, in their original order. */
  function Today(records: seq<LeaderRecord>, today: string, year: int): (matches: seq<LeaderRecord>)
    ensures forall r :: r in matches <==> r in records && OfToday(r, today, year)
    ensures multiset(matches) <= multiset(records)
  {
    if records == [] then []
    else
      var front := records[..|records| - 1];
      var last := records[|records| - 1];
      assert records == front + [last];
      var matches := Today(front, today, year);
      if OfToday(last, today, year) then matches + [last] else matches
  }

  /** The list of the day: the day's results sorted by the key, first
      five. Players may repeat. */
  function TodayLeaders(records: seq<LeaderRecord>, today: string, year: int): seq<LeaderRecord> {
    Take(SortByKey(Today(records, today, year)), TodayShown)
  }

  /** No entry after the first `k` of a sorted list beats one of the
      first `k`. */
  lemma SortedPrefixFirst(s: seq<LeaderRecord>, k: nat)
    requires Sorted(s) && k <= |s|
    ensures forall x, r :: x in s[..k] && r in multiset(s) - multiset(s[..k]) ==> KeyLe(x, r)
  {
    assert s == s[..k] + s[k..];
    assert multiset(s) - multiset(s[..k]) == multiset(s[k..]);
    forall x, r | x in s[..k] && r in multiset(s[k..]) ensures KeyLe(x, r) {
      var i :| 0 <= i < k && s[..k][i] == x;
      assert r in s[k..];
      var j :| 0 <= j < |s[k..]| && s[k..][j] == r;
      assert s[i] == x && s[k + j] == r;
    }
  }

  /** The list of the day holds at most five results, as many as the day
      has up to five, all of them results of the day, sorted. */
  lemma TodayLeadersShape(records: seq<LeaderRecord>, today: string, year: int)
    ensures var shown := TodayLeaders(records, today, year);
      var matches := Today(records, today, year);
      && |shown| == (if |matches| < TodayShown then |matches| else TodayShown)
      && Sorted(shown)
      && forall x :: x in shown ==> x in records && OfToday(x, today, year)
  {
    var matches := Today(records, today, year);
    var sorted := SortByKey(matches);
    var shown := TodayLeaders(records, today, year);
    assert shown == sorted[..|shown|];
    SameMembers(sorted, matches);
    forall x | x in shown ensures x in records && OfToday(x, today, year) {
      assert x in sorted;
    }
  }

  /** The list of the day is part of the day's results, and no result of
      the day left out of it beats one shown. */
  lemma TodayLeadersBest(records: seq<LeaderRecord>, today: string, year: int)
    ensures var shown := TodayLeaders(records, today, year);
      var matches := Today(records, today, year);
      && multiset(shown) <= multiset(matches)
      && forall x, r :: x in shown && r in multiset(matches) - multiset(shown) ==> KeyLe(x, r)
  {
    var sorted := SortByKey(Today(records, today, year));
    var shown := TodayLeaders(records, today, year);
    assert shown == sorted[..|shown|];
    SortedPrefixFirst(sorted, |shown|);
    assert sorted == shown + sorted[|shown|..];
  }
}
