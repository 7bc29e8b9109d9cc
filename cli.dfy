/**
 * The value-level helpers of src/cli.py: tag-list parsing, the difficulty
 * check, the solved/struggled classifier of `mark` and the command itself
 * over the review table, the review label of `list`, and the
 * "last reviewed" and success-rate lines of `review`.
 */
module Cli {
  import opened Wrappers
  import opened Text
  import opened Scheduler
  import opened Submissions
  import opened Problems

  // ---------------------------------------------------------------------------
  // Tag parsing

  /** The pieces that are not blank once stripped, stripped, in their order. */
  function CleanPieces(pieces: seq<string>): (tags: seq<string>)
    ensures |tags| <= |pieces|
    ensures forall i :: 0 <= i < |tags| ==> tags[i] != [] && Stripped(tags[i])
  {
    if pieces == [] then []
    else
      var t := Strip(pieces[0]);
      var rest := CleanPieces(pieces[1..]);
      if t != [] then [t] + rest else rest
  }

  /** Cleaning comma-free pieces gives comma-free tags. */
  lemma {:induction false} CleanPiecesCommaFree(pieces: seq<string>)
    requires forall j :: 0 <= j < |pieces| ==> ',' !in pieces[j]
    ensures forall i :: 0 <= i < |CleanPieces(pieces)| ==> ',' !in CleanPieces(pieces)[i]
  {
    if pieces != [] {
      StripKeepsOut(pieces[0], ',');
      var tail := pieces[1..];
      assert forall j :: 0 <= j < |tail| ==> tail[j] == pieces[j + 1];
      CleanPiecesCommaFree(tail);
      var rest := CleanPieces(tail);
      if Strip(pieces[0]) != [] {
        var tags := [Strip(pieces[0])] + rest;
        assert CleanPieces(pieces) == tags;
        assert forall i :: 0 < i < |tags| ==> tags[i] == rest[i - 1];
      }
    }
  }

  /** The list a non-empty tag string parses to. */
  function TagPieces(s: string): seq<string>
  {
    CleanPieces(Split(s, ','))
  }

  /** `_parse_tags`: nothing for a missing or empty argument, else the stripped non-blank comma-separated pieces. */
  function ParseTags(tags: Option<string>): (r: Option<seq<string>>)
    ensures r.None? <==> tags.None? || tags.value == ""
    ensures r.Some? ==> forall i :: 0 <= i < |r.value| ==> r.value[i] != [] && Stripped(r.value[i]) && ',' !in r.value[i]
  {
    if tags.None? || tags.value == "" then None
    else
      SplitPieces(tags.value, ',');
      CleanPiecesCommaFree(Split(tags.value, ','));
      Some(TagPieces(tags.value))
  }

  /** A character not in `s` is not in `s.strip()`. */
  lemma StripKeepsOut(s: string, c: char)
    ensures c !in s ==> c !in Strip(s)
  {
    var l := TrimStart(s);
    assert l == s[|s| - |l|..];
    assert Strip(s) == TrimEnd(l) == l[..|TrimEnd(l)|];
  }

  lemma {:induction false} CleanPiecesAppend(a: seq<string>, b: seq<string>)
    ensures CleanPieces(a + b) == CleanPieces(a) + CleanPieces(b)
  {
    if a == [] {
      assert a + b == b;
    } else {
      assert (a + b)[1..] == a[1..] + b;
      CleanPiecesAppend(a[1..], b);
    }
  }

  lemma {:induction false} CleanPiecesOfClean(tags: seq<string>)
    requires forall i :: 0 <= i < |tags| ==> tags[i] != [] && Stripped(tags[i])
    ensures CleanPieces(tags) == tags
  {
    if tags != [] {
      StripStripped(tags[0]);
      CleanPiecesOfClean(tags[1..]);
    }
  }

  /** One comma-free piece gives its stripped text, or nothing when it is blank. */
  lemma OnePiece(s: string)
    requires ',' !in s
    ensures TagPieces(s) == if Strip(s) == [] then [] else [Strip(s)]
  {
    assert Split(s, ',') == [s];
  }

  /** Parsing keeps the left-to-right order: the pieces on either side of a comma are parsed apart. */
  lemma TagPiecesConcat(a: string, b: string)
    ensures TagPieces(a + [','] + b) == TagPieces(a) + TagPieces(b)
  {
    SplitConcat(a, b, ',');
    CleanPiecesAppend(Split(a, ','), Split(b, ','));
  }

  /** Tags listed with commas parse back to the same list. */
  lemma ParseTagsJoin(tags: seq<string>)
    requires tags != []
    requires forall i :: 0 <= i < |tags| ==> tags[i] != [] && Stripped(tags[i]) && ',' !in tags[i]
    ensures ParseTags(Some(Join(tags, ','))) == Some(tags)
  {
    assert Join(tags, ',') != "" by {
      if |tags| > 1 {
        assert Join(tags, ',') == tags[0] + [','] + Join(tags[1..], ',');
      }
    }
    SplitJoin(tags, ',');
    CleanPiecesOfClean(tags);
  }

  /** A non-empty argument made only of spaces and commas gives the empty list, not nothing. */
  lemma {:induction false} BlankTagsGiveEmptyList(s: string)
    requires s != ""
    requires forall i :: 0 <= i < |s| ==> s[i] == ',' || IsSpace(s[i])
    ensures ParseTags(Some(s)) == Some([])
  {
    BlankPieces(s);
  }

  lemma {:induction false} BlankPieces(s: string)
    requires forall i :: 0 <= i < |s| ==> s[i] == ',' || IsSpace(s[i])
    ensures TagPieces(s) == []
    decreases |s|
  {
    if ',' !in s {
      OnePiece(s);
      TrimStartAllSpace(s);
    } else {
      var x, y := CutAtFirst(s, ',');
      TagPiecesConcat(x, y);
      BlankPieces(x);
      BlankPieces(y);
    }
  }

  // ---------------------------------------------------------------------------
  // The difficulty option

  /** DIFFICULTY_COLORS: the difficulties the command line knows, with their display colours. */
  const DifficultyColors: map<string, string> := map["easy" := "green", "medium" := "yellow", "hard" := "red"]

  /** The `--difficulty` check of `random` and `list`: an absent or empty option passes, as does a known name. */
  function DifficultyAccepted(difficulty: Option<string>): (ok: bool)
    ensures !ok <==> difficulty.Some? && difficulty.value != "" && !IsDifficulty(difficulty.value)
  {
    difficulty.None? || difficulty.value == "" || difficulty.value in DifficultyColors
  }

  /** An accepted non-empty difficulty filter selects only problems that satisfy the table's CHECK constraint. */
  lemma AcceptedFilterMatchesStoredDifficulty(p: Problem, difficulty: Option<string>, tags: Option<seq<string>>)
    requires DifficultyAccepted(difficulty) && difficulty.Some? && difficulty.value != ""
    requires Matches(p, difficulty, tags)
    ensures IsDifficulty(p.difficulty)
  {
  }

  // ---------------------------------------------------------------------------
  // Marking a problem

  /**
   * The lower-case form of one character, for the upper-case letters of Latin-1
   * (A to Z, and U+00C0 to U+00DE except the sign U+00D7) and for U+0152 (the
   * ligature OE); other characters are kept.
   */
  function LowerChar(c: char): char
  {
    if 'A' <= c <= 'Z' || ('\U{C0}' <= c <= '\U{DE}' && c != '\U{D7}') then (c as int + 32) as char
    else if c == '\U{152}' then '\U{153}'
    else c
  }

  /** A lowered character has no lower-case form of its own. */
  lemma LowerCharIdempotent(c: char)
    ensures LowerChar(LowerChar(c)) == LowerChar(c)
  {
  }

  /** `str.lower()`, character by character. */
  function Lower(s: string): (r: string)
    ensures |r| == |s|
    ensures forall i :: 0 <= i < |s| ==> r[i] == LowerChar(s[i])
  {
    if s == [] then [] else Lower(s[..|s| - 1]) + [LowerChar(s[|s| - 1])]
  }

  /** The check mark (U+2713) and the cross (U+2717) that `mark` is meant to accept. */
  const CheckMark: string := "\U{2713}"
  const Cross: string := "\U{2717}"

  /** The result argument of `mark`: success, failure, or not understood. */
  function ClassifyMark(result: string): (r: Option<bool>)
    ensures r == Some(true) <==> Lower(result) in {"solved", CheckMark, "s"}
    ensures r == Some(false) <==> Lower(result) in {"struggled", Cross, "x", "f"}
  {
    var word := Lower(result);
    if word in {"solved", CheckMark, "s"} then Some(true)
    else if word in {"struggled", Cross, "x", "f"} then Some(false)
    else None
  }

  lemma {:induction false} LowerIdempotent(s: string)
    ensures Lower(Lower(s)) == Lower(s)
  {
    var l := Lower(s);
    var ll := Lower(l);
    forall i | 0 <= i < |s| ensures ll[i] == l[i] {
      LowerCharIdempotent(s[i]);
    }
  }

  /** The classifier ignores letter case. */
  lemma ClassifyIgnoresCase(result: string)
    ensures ClassifyMark(Lower(result)) == ClassifyMark(result)
  {
    LowerIdempotent(result);
  }

  /** Upper-case spellings are accepted as well. */
  lemma ClassifySolvedUpperCase()
    ensures ClassifyMark("SOLVED") == Some(true)
  {
    assert Lower("SOLVED") == "solved";
  }

  lemma ClassifyStruggledMixedCase()
    ensures ClassifyMark("Struggled") == Some(false)
  {
    assert Lower("Struggled") == "struggled";
  }

  lemma ClassifyGlyphs()
    ensures ClassifyMark(CheckMark) == Some(true)
    ensures ClassifyMark(Cross) == Some(false)
  {
    assert Lower(CheckMark) == CheckMark;
    assert Lower(Cross) == Cross;
  }

  /**
   * The glyphs as the characters the source file spells them with: the UTF-8
   * bytes of the check mark and the cross read back as Windows-1252 text.
   */
  const CheckMarkAsWritten: string := "\U{E2}\U{153}\U{201C}"
  const CrossAsWritten: string := "\U{E2}\U{153}\U{2014}"

  /** The classifier with the glyph literals exactly as they stand in the source file. */
  function ClassifyMarkAsWritten(result: string): (r: Option<bool>)
    ensures r == Some(true) <==> Lower(result) in {"solved", CheckMarkAsWritten, "s"}
    ensures r == Some(false) <==> Lower(result) in {"struggled", CrossAsWritten, "x", "f"}
  {
    var word := Lower(result);
    if word in {"solved", CheckMarkAsWritten, "s"} then Some(true)
    else if word in {"struggled", CrossAsWritten, "x", "f"} then Some(false)
    else None
  }

  /** As written, the real check mark and cross are rejected. */
  lemma GlyphsAsWrittenRejectTheMarks()
    ensures ClassifyMarkAsWritten(CheckMark) == None
    ensures ClassifyMarkAsWritten(Cross) == None
  {
    OtherCharAsWritten(CheckMark);
    OtherCharAsWritten(Cross);
  }

  /** A single character other than a letter, `s`, `x` or `f` is rejected. */
  lemma OtherCharAsWritten(w: string)
    requires |w| == 1 && LowerChar(w[0]) == w[0] && !('a' <= w[0] <= 'z')
    ensures ClassifyMarkAsWritten(w) == None
  {
    LowerKeepsNonLetters(w);
    assert w != "s" && w != "x" && w != "f" by {
      assert w[0] != "s"[0] && w[0] != "x"[0] && w[0] != "f"[0];
    }
  }

  /** As written, only the three-character spellings are accepted in their place. */
  lemma GlyphsAsWrittenAcceptTheSpellings()
    ensures ClassifyMarkAsWritten(CheckMarkAsWritten) == Some(true)
    ensures ClassifyMarkAsWritten(CrossAsWritten) == Some(false)
  {
    LowerKeepsNonLetters(CheckMarkAsWritten);
    LowerKeepsNonLetters(CrossAsWritten);
  }

  /** Text without upper-case letters is left as it is. */
  lemma LowerKeepsNonLetters(s: string)
    requires forall i :: 0 <= i < |s| ==> LowerChar(s[i]) == s[i]
    ensures Lower(s) == s
  {
  }

  /** As written, the upper-case forms of the first two characters are accepted too, because they lower onto them. */
  lemma GlyphsAsWrittenAcceptUpperCase()
    ensures ClassifyMarkAsWritten("\U{C2}\U{152}\U{201C}") == Some(true)
    ensures ClassifyMarkAsWritten("\U{C2}\U{152}\U{2014}") == Some(false)
  {
    LowerOfThree('\U{C2}', '\U{152}', '\U{201C}');
    LowerOfThree('\U{C2}', '\U{152}', '\U{2014}');
    assert [LowerChar('\U{C2}'), LowerChar('\U{152}'), LowerChar('\U{201C}')] == CheckMarkAsWritten;
    assert [LowerChar('\U{C2}'), LowerChar('\U{152}'), LowerChar('\U{2014}')] == CrossAsWritten;
  }

  lemma LowerOfThree(a: char, b: char, c: char)
    ensures Lower([a, b, c]) == [LowerChar(a), LowerChar(b), LowerChar(c)]
  {
  }

  lemma ClassifyRejects()
    ensures ClassifyMark("maybe") == None
    ensures ClassifyMark("") == None
  {
    assert Lower("maybe") == "maybe";
  }

  /** What `mark` reports. */
  datatype MarkOutcome = ProblemNotFound | InvalidResult | Marked(success: bool, nextReview: int, intervalDays: int)

  /**
   * The `mark` command: looks the problem up, classifies the result, and only
   * then updates the review schedule; an error leaves the schedule untouched.
   */
  method Mark(store: ReviewStore, problems: ProblemTable, problemId: string, result: string, today: int)
    returns (outcome: MarkOutcome)
    modifies store
    ensures problemId !in problems.rows ==> outcome == ProblemNotFound
    ensures problemId in problems.rows && ClassifyMark(result).None? ==> outcome == InvalidResult
    ensures outcome.ProblemNotFound? || outcome.InvalidResult? ==> store.schedules == old(store.schedules)
    ensures problemId in problems.rows && ClassifyMark(result).Some? ==>
              var s := Advance(Lookup(old(store.schedules), problemId), ClassifyMark(result).value, today);
              && outcome == Marked(ClassifyMark(result).value, s.nextReview, s.interval)
              && store.schedules == old(store.schedules)[problemId := s]
  {
    if problemId !in problems.rows {
      return ProblemNotFound;
    }
    var success := ClassifyMark(result);
    if success.None? {
      return InvalidResult;
    }
    var next, interval := store.UpdateReviewSchedule(problemId, success.value, today);
    outcome := Marked(success.value, next, interval);
  }

  // ---------------------------------------------------------------------------
  // The review column of `list`

  /** The review column: no row, due, due within three days, mastered, or a later date. */
  datatype ReviewLabel = NoSchedule | Due | Soon(date: int) | Mastered | Later(date: int)

  /** The label for a problem's row, by the first rule that applies. */
  function Label(info: Option<Schedule>, today: int): (l: ReviewLabel)
    ensures l == NoSchedule <==> info.None?
    ensures l == Due <==> info.Some? && info.value.nextReview <= today
    ensures l.Soon? <==> info.Some? && today < info.value.nextReview <= today + 3
    ensures l == Mastered <==> info.Some? && info.value.nextReview > today + 3 && info.value.interval >= 14
    ensures l.Later? <==> info.Some? && info.value.nextReview > today + 3 && info.value.interval < 14
    ensures l.Soon? || l.Later? ==> l.date == info.value.nextReview
  {
    if info.None? then NoSchedule
    else if info.value.nextReview <= today then Due
    else if info.value.nextReview - today <= 3 then Soon(info.value.nextReview)
    else if info.value.interval >= 14 then Mastered
    else Later(info.value.nextReview)
  }

  /**
   * For the problems listed, the label says "Due" exactly for those in the
   * due list, whatever their interval.
   */
  lemma DueLabelIsDueList(t: Table, ids: seq<string>, k: string, today: int)
    requires k in ids
    ensures Label(Lookup(ReviewInfo(t, ids), k), today) == Due <==> k in DueReviews(t, today)
  {
  }

  /** A problem marked today is never labelled due, and after a failure it shows tomorrow's date. */
  lemma MarkedIsNotDue(prior: Option<Schedule>, success: bool, today: int)
    requires prior.None? || prior.value.interval >= 1
    ensures Label(Some(Advance(prior, success, today)), today) != Due
    ensures !success ==> Label(Some(Advance(prior, success, today)), today) == Soon(today + 1)
  {
  }

  /** A success from an interval of at least seven days shows "Mastered". */
  lemma {:induction false} SuccessFromSevenIsMastered(prior: Schedule, today: int)
    requires prior.interval >= 7
    ensures Label(Some(Advance(Some(prior), true, today)), today) == Mastered
  {
    assert NextInterval(Some(prior), true) == prior.interval * 2;
  }

  // ---------------------------------------------------------------------------
  // The lines of `review`

  const LastReviewedPrefix: string := "Last reviewed: "
  const DaysAgo: string := " days ago"

  /** "Never reviewed", or how many days ago the problem was last reviewed. */
  function LastReviewedText(lastReviewed: Option<int>, today: int): (text: string)
    ensures text == "Never reviewed" <==> lastReviewed.None?
    ensures lastReviewed.Some? ==> StartsWith(text, LastReviewedPrefix)
  {
    if lastReviewed.None? then "Never reviewed"
    else
      var daysAgo := today - lastReviewed.value;
      LastReviewedPrefix + (if daysAgo == 0 then "Today"
                            else if daysAgo == 1 then "1 day ago"
                            else IntToString(daysAgo) + DaysAgo)
  }

  /** Different review days give different texts: the text tells the day back. */
  lemma {:induction false} LastReviewedTextInjective(a: Option<int>, b: Option<int>, today: int)
    requires LastReviewedText(a, today) == LastReviewedText(b, today)
    ensures a == b
  {
    if a.Some? && b.Some? {
      var m, n := today - a.value, today - b.value;
      var x := if m == 0 then "Today" else if m == 1 then "1 day ago" else IntToString(m) + DaysAgo;
      var y := if n == 0 then "Today" else if n == 1 then "1 day ago" else IntToString(n) + DaysAgo;
      PrefixCancel(LastReviewedPrefix, x, y);
      if m != 0 && m != 1 && n != 0 && n != 1 {
        SuffixCancel(IntToString(m), IntToString(n), DaysAgo);
        IntToStringInjective(m, n);
      }
    }
  }

  /** The day a problem is marked, the review list says it was reviewed today. */
  lemma MarkedTodayReadsToday(prior: Option<Schedule>, success: bool, today: int)
    ensures LastReviewedText(Advance(prior, success, today).lastReviewed, today) == "Last reviewed: Today"
  {
  }

  /** Yesterday reads "1 day ago". */
  lemma YesterdayReadsOneDayAgo(today: int)
    ensures LastReviewedText(Some(today - 1), today) == "Last reviewed: 1 day ago"
  {
  }

  /** Further back the number of days is written out. */
  lemma FiveDaysAgo(today: int)
    ensures LastReviewedText(Some(today - 5), today) == "Last reviewed: 5 days ago"
  {
    assert DigitChar(5) == '5';
    assert IntToString(5) == "5";
    assert LastReviewedText(Some(today - 5), today) == LastReviewedPrefix + ("5" + DaysAgo);
  }

  /** A number of two digits is written out in full. */
  lemma TwelveDaysAgo(today: int)
    ensures LastReviewedText(Some(today - 12), today) == "Last reviewed: 12 days ago"
  {
    assert NatToString(1) == "1" && DigitChar(2) == '2';
    assert IntToString(12) == "12";
    assert LastReviewedText(Some(today - 12), today) == LastReviewedPrefix + ("12" + DaysAgo);
  }

  const RatePrefix: string := "Success rate: "

  /** "Success rate: passed/total", or nothing when no submission was graded. */
  function RateLine(passed: nat, total: nat): (line: string)
    ensures line == "" <==> total == 0
    ensures total > 0 ==> StartsWith(line, RatePrefix)
  {
    if total > 0 then RatePrefix + (NatToString(passed) + "/" + NatToString(total)) else ""
  }

  /** The rate line appears exactly when the problem has a graded submission. */
  lemma RateLineShownIffGraded(subs: seq<Submission>, problemId: string)
    ensures var r := SuccessRate(subs, problemId);
            RateLine(r.passed, r.total) != "" <==> exists i :: 0 <= i < |subs| && Graded(subs[i], problemId)
  {
  }

  /** Two passed submissions out of three graded ones read "2/3". */
  lemma RateLineExample()
    ensures RateLine(2, 3) == "Success rate: 2/3"
  {
    assert NatToString(2) == "2" && NatToString(3) == "3";
  }

  lemma NoSlashInDigits(n: nat)
    ensures '/' !in NatToString(n)
  {
  }

  /** A shown rate line tells both numbers back. */
  lemma {:induction false} RateLineInjective(a: nat, b: nat, c: nat, d: nat)
    requires b > 0 && d > 0
    requires RateLine(a, b) == RateLine(c, d)
    ensures a == c && b == d
  {
    PrefixCancel(RatePrefix, NatToString(a) + "/" + NatToString(b), NatToString(c) + "/" + NatToString(d));
    FractionInjective(a, b, c, d);
  }

  /** `f"{a}/{b}"` tells both numbers back. */
  lemma FractionInjective(a: nat, b: nat, c: nat, d: nat)
    requires NatToString(a) + "/" + NatToString(b) == NatToString(c) + "/" + NatToString(d)
    ensures a == c && b == d
  {
    NoSlashInDigits(a);
    NoSlashInDigits(c);
    SeparatedInjective(NatToString(a), NatToString(b), NatToString(c), NatToString(d), '/');
    NatToStringInjective(a, c);
    NatToStringInjective(b, d);
  }

}
