/** The small pure rules around a finished game: the score awarded for
    the pegs left, the m:ss text of the game clock and the check on a new
    player name. */
module Scoring {
  import opened Wrappers
  import opened Position
  import opened Text

  /** The score for the pegs left at the end of a game: the `when` table
      the game-over handler, the score dialog and the history writer each
      spell out, with the same values. */
  function ScoreFor(remainingPegs: int): (score: int) {
    match remainingPegs
    case 1 => 200
    case 2 => 175
    case 3 => 150
    case 4 => 125
    case 5 => 100
    case 6 => 75
    case 7 => 50
    case 8 => 25
    case _ => 0
  }

  /** The table is the line 225 - 25p on 1..8 and zero elsewhere. */
  lemma ScoreClosedForm(remainingPegs: int)
    ensures ScoreFor(remainingPegs) == if 1 <= remainingPegs <= 8 then 225 - 25 * remainingPegs else 0
  {
  }

  /** Scores are multiples of 25 between 0 and 200; 200 only for a single
      peg, and a positive score exactly for one to eight pegs. */
  lemma ScoreBounds(remainingPegs: int)
    ensures 0 <= ScoreFor(remainingPegs) <= 200 && ScoreFor(remainingPegs) % 25 == 0
    ensures ScoreFor(remainingPegs) == 200 <==> remainingPegs == 1
    ensures ScoreFor(remainingPegs) > 0 <==> 1 <= remainingPegs <= 8
  {
    ScoreClosedForm(remainingPegs);
  }

  /** Leaving more pegs never scores more, for any count of at least one
      peg (the only counts a finished game can have). */
  lemma ScoreNonIncreasing(fewer: int, more: int)
    requires 1 <= fewer <= more
    ensures ScoreFor(more) <= ScoreFor(fewer)
  {
    ScoreClosedForm(fewer);
    ScoreClosedForm(more);
  }

  /** The game clock as `minutes:seconds`, the seconds padded to two
      digits; Kotlin's `/` and `%` truncate. */
  function TimeText(seconds: int): string {
    IntToString(KDiv(seconds, 60)) + ":" + PadStart(IntToString(KRem(seconds, 60)), 2, '0')
  }

  /** Reads an `m:ss` text back into seconds. */
  function ReadTime(text: string): Option<int> {
    var parts := Split(text, ':');
    if |parts| != 2 then None
    else match (ParseInt(parts[0]), ParseInt(parts[1]))
      case (Some(minutes), Some(secs)) => Some(60 * minutes + secs)
      case _ => None
  }

  /** Seconds below 60, padded to two digits, parse back to themselves. */
  lemma PaddedSeconds(secs: int)
    requires 0 <= secs < 60
    ensures var text := PadStart(IntToString(secs), 2, '0');
      |text| == 2 && ':' !in text && ParseInt(text) == Some(secs)
  {
    var text := PadStart(IntToString(secs), 2, '0');
    if secs < 10 {
      assert text == ['0', DigitChar(secs)];
      assert text[..1] == ['0'] && ['0'][..0] == [];
      assert DigitsValue(text) == secs;
    } else {
      ParseIntToString(secs);
      IntToStringCharacters(secs);
      assert IntToString(secs) == NatToString(secs / 10) + [DigitChar(secs % 10)];
    }
  }

  /** The time text is the minutes, ':' and the padded seconds. */
  lemma TimeTextParts(seconds: int)
    requires 0 <= seconds
    ensures var mm, ss := IntToString(seconds / 60), PadStart(IntToString(seconds % 60), 2, '0');
      TimeText(seconds) == mm + [':'] + ss && ':' !in mm
  {
    KotlinDivision(seconds, 60);
    IntToStringCharacters(seconds / 60);
  }

  /** Two separator-free numbers around ':' read back as minutes and
      seconds. */
  lemma ReadTimeOfParts(text: string, mm: string, ss: string, minutes: int, secs: int, total: int)
    requires text == mm + [':'] + ss && ':' !in mm && ':' !in ss
    requires ParseInt(mm) == Some(minutes) && ParseInt(ss) == Some(secs)
    requires total == 60 * minutes + secs
    ensures Split(text, ':') == [mm, ss]
    ensures ReadTime(text) == Some(total)
  {
    SplitPair(mm, ':', ss);
  }

  /** For any non-negative `Int` time the text has a two-digit seconds
      field and reads back as the same number of seconds. */
  lemma TimeTextRoundTrip(seconds: int)
    requires 0 <= seconds <= IntMax
    ensures ReadTime(TimeText(seconds)) == Some(seconds)
    ensures |Split(TimeText(seconds), ':')[1]| == 2
  {
    var minutes, secs := seconds / 60, seconds % 60;
    var mm, ss := IntToString(minutes), PadStart(IntToString(secs), 2, '0');
    TimeTextParts(seconds);
    PaddedSeconds(secs);
    ParseIntToString(minutes);
    ReadTimeOfParts(TimeText(seconds), mm, ss, minutes, secs, seconds);
  }

  /** Longest accepted player name. */
  const MaxNameLength := 20

  /** The name dialog's check: the entry is trimmed and kept when it has
      between 1 and 20 characters; otherwise it is refused. */
  function AcceptName(entry: string): Option<string> {
    var name := Trim(entry);
    if |name| > 0 && |name| <= MaxNameLength then Some(name) else None
  }

  /** A name is accepted exactly when its trimmed form has 1 to 20
      characters; the stored name is that trimmed form, has no whitespace at
      either end, and is itself accepted unchanged. */
  lemma AcceptNameSpec(entry: string)
    ensures AcceptName(entry).Some? <==> 1 <= |Trim(entry)| <= MaxNameLength
    ensures AcceptName(entry).Some? ==>
      var name := AcceptName(entry).value;
      && name == Trim(entry)
      && !IsWhitespace(name[0]) && !IsWhitespace(name[|name| - 1])
      && AcceptName(name) == Some(name)
  {
    TrimSpec(entry);
    TrimIdempotent(entry);
  }
}
