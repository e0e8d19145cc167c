/** The local game history: at most twenty finished games, newest first,
    kept in the app's preferences as one text line per game
    ("pegs,score,moves,date" under the keys game_0, game_1, ...) and a
    count under history_count. The preferences are modelled as a value
    that saving reads and returns; the key game_i is the index i. */
module History {
  import opened Wrappers
  import opened Text
  import opened Scoring

  /** One finished game as the history stores it. */
  datatype GameRecord = GameRecord(remainingPegs: int, score: int, moves: int, date: string)

  /** The history never grows past this many games by saving. */
  const MaxHistory := 20

  /** The character between the fields of a stored line. */
  const FieldSeparator := ','

  /** The part of the preferences the history uses: the stored count, if
      any, and the stored lines by index. */
  datatype Prefs = Prefs(historyCount: Option<int>, lines: map<int, string>)

  /** A record that survives being written as a line and read back: every
      number fits in an `Int` and the date holds no field separator. */
  predicate WellFormed(r: GameRecord) {
    IsInt32(r.remainingPegs) && IsInt32(r.score) && IsInt32(r.moves) && FieldSeparator !in r.date
  }

  // ---------------------------------------------------------------------
  // One line
  // ---------------------------------------------------------------------

  /** The line written for a record. */
  function EncodeRecord(r: GameRecord): string {
    Join([IntToString(r.remainingPegs), IntToString(r.score), IntToString(r.moves), r.date], FieldSeparator)
  }

  /** What reading one stored line gives: it is skipped, it yields a
      record, or a number field fails `toInt` (which throws). */
  datatype LineOutcome = Skipped | Decoded(record: GameRecord) | NotANumber

  /** Reading one line: an empty line and a line that does not split into
      exactly four fields are skipped; otherwise the first three fields
      must be numbers and the fourth is the date. */
  function DecodeLine(line: string): LineOutcome {
    if line == [] then Skipped
    else
      var parts := Split(line, FieldSeparator);
      if |parts| != 4 then Skipped
      else match (ParseInt(parts[0]), ParseInt(parts[1]), ParseInt(parts[2]))
        case (Some(pegs), Some(score), Some(moves)) => Decoded(GameRecord(pegs, score, moves, parts[3]))
        case _ => NotANumber
  }

  /** A decimal `Int` never holds the field separator. */
  lemma NumberFieldFree(i: int)
    ensures FieldSeparator !in IntToString(i)
  {
    IntToStringCharacters(i);
  }

  /** A well-formed record's line is read back as that record. */
  lemma DecodeEncode(r: GameRecord)
    requires WellFormed(r)
    ensures EncodeRecord(r) != []
    ensures DecodeLine(EncodeRecord(r)) == Decoded(r)
  {
    var a, b, c := IntToString(r.remainingPegs), IntToString(r.score), IntToString(r.moves);
    NumberFieldFree(r.remainingPegs);
    NumberFieldFree(r.score);
    NumberFieldFree(r.moves);
    var parts := [a, b, c, r.date];
    assert parts[1..][1..][1..] == [r.date];
    assert Join(parts[1..][1..], FieldSeparator) == c + [FieldSeparator] + r.date;
    var tail := b + [FieldSeparator] + (c + [FieldSeparator] + r.date);
    assert Join(parts[1..], FieldSeparator) == tail;
    assert EncodeRecord(r) == a + [FieldSeparator] + tail;
    SplitPair(c, FieldSeparator, r.date);
    SplitCons(b, FieldSeparator, c + [FieldSeparator] + r.date);
    SplitCons(a, FieldSeparator, tail);
    assert Split(EncodeRecord(r), FieldSeparator) == [a, b, c, r.date];
    ParseIntToString(r.remainingPegs);
    ParseIntToString(r.score);
    ParseIntToString(r.moves);
  }

  /** Whatever a line decodes to is well-formed, so it can be written back
      and read again unchanged. */
  lemma DecodedWellFormed(line: string)
    requires DecodeLine(line).Decoded?
    ensures WellFormed(DecodeLine(line).record)
  {
    SplitPartsFree(line, FieldSeparator);
    assert Split(line, FieldSeparator)[3] in Split(line, FieldSeparator);
  }

  // ---------------------------------------------------------------------
  // Loading
  // ---------------------------------------------------------------------

  /** `getInt("history_count", 0)`. */
  function StoredCount(prefs: Prefs): int {
    match prefs.historyCount
    case None => 0
    case Some(count) => count
  }

  /** `getString("game_$i", "")`. */
  function LineAt(lines: map<int, string>, i: int): string {
    if i in lines then lines[i] else ""
  }

  /** What each of the first `n` stored lines gives when read. */
  function Outcomes(lines: map<int, string>, n: nat): (outcomes: seq<LineOutcome>)
    ensures |outcomes| == n
  {
    seq(n, i => DecodeLine(LineAt(lines, i)))
  }

  /** The history collected from the first `n` line outcomes, in index
      order; the first line whose number field fails makes the whole read
      fail with that line's index. */
  function Collect(outcomes: seq<LineOutcome>, n: nat): Result<seq<GameRecord>, int>
    requires n <= |outcomes|
  {
    if n == 0 then Success([])
    else match Collect(outcomes, n - 1)
      case Failure(i) => Failure(i)
      case Success(history) =>
        match outcomes[n - 1]
        case Skipped => Success(history)
        case Decoded(r) => Success(history + [r])
        case NotANumber => Failure(n - 1)
  }

  /** The number of lines read: `0 until count`, none when the count is
      missing or negative. */
  function LinesRead(prefs: Prefs): nat {
    var count := StoredCount(prefs);
    if count < 0 then 0 else count
  }

  /** The whole stored history. */
  function LoadHistory(prefs: Prefs): Result<seq<GameRecord>, int> {
    Collect(Outcomes(prefs.lines, LinesRead(prefs)), LinesRead(prefs))
  }

  /** Reads the history line by line. */
  method GetGameHistory(prefs: Prefs) returns (history: Result<seq<GameRecord>, int>)
    ensures history == LoadHistory(prefs)
  {
    var count := StoredCount(prefs);
    ghost var outcomes := Outcomes(prefs.lines, LinesRead(prefs));
    var records: seq<GameRecord> := [];
    var i := 0;
    while i < count
      invariant 0 <= i <= LinesRead(prefs)
      invariant Collect(outcomes, i) == Success(records)
      decreases count - i
    {
      var line := LineAt(prefs.lines, i);
      var outcome := DecodeLine(line);
      assert outcomes[i] == outcome;
      match outcome {
        case Skipped =>
        case Decoded(r) =>
          records := records + [r];
        case NotANumber =>
          FailureSticks(outcomes, i + 1, LinesRead(prefs));
          return Failure(i);
      }
      i := i + 1;
    }
    return Success(records);
  }

  /** Once a line fails, reading further lines keeps that failure. */
  lemma {:induction false} FailureSticks(outcomes: seq<LineOutcome>, m: nat, n: nat)
    requires m <= n <= |outcomes| && Collect(outcomes, m).Failure?
    ensures Collect(outcomes, n) == Collect(outcomes, m)
    decreases n - m
  {
    if m < n {
      FailureSticks(outcomes, m + 1, n);
    }
  }

  /** A collected history has at most one record per line read, and every
      record in it is a record some line decoded to; a failure names a line
      that was read. */
  lemma {:induction false} CollectBounds(outcomes: seq<LineOutcome>, n: nat)
    requires n <= |outcomes|
    ensures Collect(outcomes, n).Success? ==>
      && |Collect(outcomes, n).value| <= n
      && forall r :: r in Collect(outcomes, n).value ==> Decoded(r) in outcomes[..n]
    ensures Collect(outcomes, n).Failure? ==>
      0 <= Collect(outcomes, n).error < n && outcomes[Collect(outcomes, n).error] == NotANumber
  {
    if n > 0 {
      CollectBounds(outcomes, n - 1);
      assert forall o :: o in outcomes[..n - 1] ==> o in outcomes[..n];
      if Collect(outcomes, n - 1).Success? && outcomes[n - 1].Decoded? {
        var history := Collect(outcomes, n - 1).value;
        assert Collect(outcomes, n).value == history + [outcomes[n - 1].record];
      }
    }
  }

  /** Every record of a loaded history is well-formed. */
  lemma LoadedWellFormed(prefs: Prefs)
    requires LoadHistory(prefs).Success?
    ensures |LoadHistory(prefs).value| <= LinesRead(prefs)
    ensures forall r :: r in LoadHistory(prefs).value ==> WellFormed(r)
  {
    var n := LinesRead(prefs);
    var outcomes := Outcomes(prefs.lines, n);
    CollectBounds(outcomes, n);
    forall r | r in LoadHistory(prefs).value ensures WellFormed(r) {
      assert Decoded(r) in outcomes[..n];
      var k :| 0 <= k < n && outcomes[k] == Decoded(r);
      DecodedWellFormed(LineAt(prefs.lines, k));
    }
  }

  // ---------------------------------------------------------------------
  // Saving
  // ---------------------------------------------------------------------

  /** The list after a new game: the record goes in front and, when the
      list then exceeds the limit, only its last entry is dropped. */
  function PushRecord(history: seq<GameRecord>, r: GameRecord): (updated: seq<GameRecord>)
    ensures |updated| == if |history| + 1 > MaxHistory then |history| else |history| + 1
    ensures updated[0] == r
    ensures updated[1..] == history[..|updated| - 1]
    ensures |history| <= MaxHistory ==> |updated| <= MaxHistory
    ensures |history| < MaxHistory ==> updated == [r] + history
  {
    var list := [r] + history;
    if |list| > MaxHistory then list[..|list| - 1] else list
  }

  /** The lines after writing the first `n` records of `history` over
      `lines`, record `k` under index `k`. */
  function Written(lines: map<int, string>, history: seq<GameRecord>, n: nat): map<int, string>
    requires n <= |history|
  {
    if n == 0 then lines else Written(lines, history, n - 1)[n - 1 := EncodeRecord(history[n - 1])]
  }

  /** Writing touches exactly the indices `0 until n`, each with its own
      record's line, and keeps every other stored line. */
  lemma {:induction false} WrittenLookup(lines: map<int, string>, history: seq<GameRecord>, n: nat, k: int)
    requires n <= |history|
    ensures 0 <= k < n ==> k in Written(lines, history, n) && Written(lines, history, n)[k] == EncodeRecord(history[k])
    ensures !(0 <= k < n) ==> (k in Written(lines, history, n) <==> k in lines)
    ensures !(0 <= k < n) && k in lines ==> Written(lines, history, n)[k] == lines[k]
  {
    if n > 0 {
      WrittenLookup(lines, history, n - 1, k);
    }
  }

  /** The preferences after the history `history` is written and its
      length stored as the count. */
  function Store(prefs: Prefs, history: seq<GameRecord>): Prefs {
    Prefs(Some(|history|), Written(prefs.lines, history, |history|))
  }

  /** Reading back a stored list of well-formed records gives exactly that
      list, whatever stale lines lie beyond it. */
  lemma LoadStore(prefs: Prefs, history: seq<GameRecord>)
    requires forall r :: r in history ==> WellFormed(r)
    ensures LoadHistory(Store(prefs, history)) == Success(history)
  {
    var stored := Written(prefs.lines, history, |history|);
    var outcomes := Outcomes(stored, |history|);
    forall k | 0 <= k < |history|
      ensures outcomes[k] == Decoded(history[k])
    {
      WrittenLookup(prefs.lines, history, |history|, k);
      DecodeEncode(history[k]);
    }
    CollectDecoded(outcomes, history, |history|);
    assert history[..|history|] == history;
  }

  /** Outcomes that decode, index by index, to the records of `history`
      collect to those records. */
  lemma {:induction false} CollectDecoded(outcomes: seq<LineOutcome>, history: seq<GameRecord>, m: nat)
    requires m <= |history| <= |outcomes|
    requires forall k :: 0 <= k < |history| ==> outcomes[k] == Decoded(history[k])
    ensures Collect(outcomes, m) == Success(history[..m])
  {
    if m > 0 {
      CollectDecoded(outcomes, history, m - 1);
      PrefixSnoc(history, m);
    }
  }

  /** A prefix is the shorter prefix and one more entry. */
  lemma PrefixSnoc(s: seq<GameRecord>, m: nat)
    requires 0 < m <= |s|
    ensures s[..m] == s[..m - 1] + [s[m - 1]]
  {
  }

  /** Saves a finished game: reads the history (a failing read throws
      before anything is written), puts the new record in front, drops the
      oldest past the limit, writes every line and then the count. */
  method SaveGameRecord(prefs: Prefs, remainingPegs: int, moves: int, date: string) returns (saved: Result<Prefs, int>)
    ensures saved.Failure? <==> LoadHistory(prefs).Failure?
    ensures saved.Failure? ==> saved.error == LoadHistory(prefs).error
    ensures saved.Success? ==>
      saved.value == Store(prefs, PushRecord(LoadHistory(prefs).value, GameRecord(remainingPegs, ScoreFor(remainingPegs), moves, date)))
  {
    var score := ScoreFor(remainingPegs);
    var existing := GetGameHistory(prefs);
    if existing.Failure? {
      return Failure(existing.error);
    }
    var history := existing.value;
    var newRecord := GameRecord(remainingPegs, score, moves, date);
    history := [newRecord] + history;
    if |history| > MaxHistory {
      history := history[..|history| - 1];
    }
    var lines := PutRecords(prefs.lines, history);
    return Success(Prefs(Some(|history|), lines));
  }

  /** The editor's `forEachIndexed` loop: record `k`'s line is put under
      index `k`, one after another. */
  method PutRecords(lines: map<int, string>, history: seq<GameRecord>) returns (written: map<int, string>)
    ensures written == Written(lines, history, |history|)
  {
    written := lines;
    var index := 0;
    while index < |history|
      invariant 0 <= index <= |history|
      invariant written == Written(lines, history, index)
    {
      written := written[index := EncodeRecord(history[index])];
      index := index + 1;
    }
  }

  /** After a successful save of a well-formed record, the history reads
      back as the old history with the new record pushed in front; so a
      history within the limit stays within it. */
  lemma SaveThenLoad(prefs: Prefs, r: GameRecord)
    requires LoadHistory(prefs).Success? && WellFormed(r)
    ensures var updated := PushRecord(LoadHistory(prefs).value, r);
      && LoadHistory(Store(prefs, updated)) == Success(updated)
      && (|LoadHistory(prefs).value| <= MaxHistory ==> |updated| <= MaxHistory)
  {
    LoadedWellFormed(prefs);
    var old_ := LoadHistory(prefs).value;
    var updated := PushRecord(old_, r);
    forall x | x in updated ensures WellFormed(x) {
      if x != r {
        assert x in updated[1..];
        assert x in old_;
      }
    }
    LoadStore(prefs, updated);
  }

  /** A game the engine can finish gives a well-formed record for any date
      without a comma (the date format "dd.MM HH:mm" has none). */
  lemma FinishedGameWellFormed(remainingPegs: int, moves: int, date: string)
    requires 0 <= remainingPegs <= 32 && 0 <= moves <= 31 && FieldSeparator !in date
    ensures WellFormed(GameRecord(remainingPegs, ScoreFor(remainingPegs), moves, date))
  {
    ScoreBounds(remainingPegs);
  }
}
