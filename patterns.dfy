/** The regular expressions the scripts search with, written out as searches
    over the text. All are case-insensitive searches (`re.I`); `\w`, `\d`
    and letters are taken on ASCII only, and `\s` is `Strings.IsSpace`.
    Only whether a match exists matters to the scripts, so each pattern is a
    predicate "some position matches", which is what a backtracking
    `re.search` decides. */
module Patterns {
  import opened Util
  import opened Strings

  /** The regex class `\w` on ASCII. */
  predicate IsWordChar(c: char) {
    IsAsciiLetter(c) || IsDigit(c) || c == '_'
  }

  /** The lower-case word `w` occurs at `i`, in any letter case, and is not
      followed by a word character (`w\b`, for a `w` ending in a letter). */
  predicate TailWordAt(s: string, w: string, i: nat) {
    && i + |w| <= |s|
    && Lower(s[i..i + |w|]) == w
    && (i + |w| == |s| || !IsWordChar(s[i + |w|]))
  }

  /** `\bw\b` matches at `i`, for a lower-case word `w` of letters. */
  predicate WordAt(s: string, w: string, i: nat) {
    TailWordAt(s, w, i) && (i == 0 || !IsWordChar(s[i - 1]))
  }

  /** `re.search(r"\bw\b", s, re.I)` succeeds. */
  predicate HasWord(s: string, w: string) {
    exists i: nat | i <= |s| :: WordAt(s, w, i)
  }

  /** `DROP_RE`, and the Reddit title filter: the word "drop" or "drops". */
  predicate HasDropWord(s: string) {
    HasWord(s, "drop") || HasWord(s, "drops")
  }

  /** `DROPS_TEXT`: the word "drops". */
  predicate HasDropsWord(s: string) {
    HasWord(s, "drops")
  }

  /** The alternatives of `TIME_RE`, in lower case. */
  const TimeTokens: seq<string> := [
    "mon", "tue", "wed", "thu", "fri", "sat", "sun",
    "jan", "feb", "mar", "apr", "may", "jun", "jul", "aug", "sep", "oct", "nov", "dec",
    "gmt", "utc", "cet", "cest"]

  /** `TIME_RE.search(s)`: a weekday, month or time-zone abbreviation occurs
      anywhere in the text (the pattern has no word boundaries). */
  predicate HasTimeToken(s: string) {
    exists t <- TimeTokens :: Contains(Lower(s), t)
  }

  /** The length of the run of digits starting at `k`. */
  function DigitRun(s: string, k: nat): (n: nat)
    requires k <= |s|
    ensures k + n <= |s|
    decreases |s| - k
  {
    if k < |s| && IsDigit(s[k]) then 1 + DigitRun(s, k + 1) else 0
  }

  /** The length of the run of whitespace starting at `k`. */
  function SpaceRun(s: string, k: nat): (n: nat)
    requires k <= |s|
    ensures k + n <= |s|
    decreases |s| - k
  {
    if k < |s| && IsSpace(s[k]) then 1 + SpaceRun(s, k + 1) else 0
  }

  /** Where `\d+(\.\d+)?` ends when it starts at `j`. Both repetitions can only
      be followed by whitespace or a unit letter in `WATCH_RE`, so only their
      longest matches can lead to a match. */
  function NumberEnd(s: string, j: nat): (k: nat)
    requires j <= |s|
    ensures j <= k <= |s|
  {
    var k := j + DigitRun(s, j);
    if k < |s| && s[k] == '.' && DigitRun(s, k + 1) > 0 then k + 1 + DigitRun(s, k + 1) else k
  }

  /** The alternatives of `(hours?|hrs?|h)`. */
  const HourUnits: seq<string> := ["hours", "hour", "hrs", "hr", "h"]

  /** `\b(\d+(\.\d+)?)\s*(hours?|hrs?|h)\b` matches starting at `j`. */
  predicate HoursAt(s: string, j: nat) {
    && j < |s|
    && IsDigit(s[j])
    && (j == 0 || !IsWordChar(s[j - 1]))
    && UnitAt(s, AfterNumber(s, j))
  }

  /** Where `\s*` after the number starting at `j` ends. */
  function AfterNumber(s: string, j: nat): (l: nat)
    requires j <= |s|
    ensures j <= l <= |s|
  {
    var k := NumberEnd(s, j);
    k + SpaceRun(s, k)
  }

  /** `(hours?|hrs?|h)\b` matches at `l`. */
  predicate UnitAt(s: string, l: nat) {
    exists u <- HourUnits :: TailWordAt(s, u, l)
  }

  /** `WATCH_RE`, `\bwatch\b.*?\b(\d+(\.\d+)?)\s*(hours?|hrs?|h)\b`: the word
      "watch", then, with no newline in between, an amount of hours. */
  predicate HasWatchHours(s: string) {
    exists i: nat | i <= |s| :: WatchAt(s, i)
  }

  /** `WATCH_RE` matches starting at `i`. */
  predicate WatchAt(s: string, i: nat) {
    && WordAt(s, "watch", i)
    && exists j: nat | i + 5 <= j < |s| :: '\n' !in s[i + 5..j] && HoursAt(s, j)
  }

  // Case-insensitivity (`re.I`): each search gives the same answer on the
  // lower-cased text.

  lemma LowerSlice(s: string, i: nat, j: nat)
    requires i <= j <= |s|
    ensures Lower(s)[i..j] == Lower(s[i..j])
  {
  }

  lemma TailWordAtLower(s: string, w: string, i: nat)
    ensures TailWordAt(Lower(s), w, i) <==> TailWordAt(s, w, i)
  {
    if i + |w| <= |s| {
      LowerSlice(s, i, i + |w|);
      LowerIdempotent(s[i..i + |w|]);
    }
  }

  lemma WordAtLower(s: string, w: string, i: nat)
    ensures WordAt(Lower(s), w, i) <==> WordAt(s, w, i)
  {
    TailWordAtLower(s, w, i);
  }

  /** `\bw\b` with `re.I` matches a text exactly when it matches the text in
      lower case. */
  lemma HasWordCaseBlind(s: string, w: string)
    ensures HasWord(Lower(s), w) <==> HasWord(s, w)
  {
    forall i: nat | i <= |s|
      ensures WordAt(Lower(s), w, i) <==> WordAt(s, w, i)
    {
      WordAtLower(s, w, i);
    }
  }

  /** `DROP_RE` and the `drops` search ignore letter case, and a text with the
      word "drops" also passes the `drop(s)?` search. */
  lemma DropWordCaseBlind(s: string)
    ensures HasDropWord(Lower(s)) <==> HasDropWord(s)
    ensures HasDropsWord(Lower(s)) <==> HasDropsWord(s)
    ensures HasDropsWord(s) ==> HasDropWord(s)
  {
    HasWordCaseBlind(s, "drop");
    HasWordCaseBlind(s, "drops");
  }

  /** `TIME_RE` ignores letter case. */
  lemma TimeTokenCaseBlind(s: string)
    ensures HasTimeToken(Lower(s)) <==> HasTimeToken(s)
  {
    LowerIdempotent(s);
  }

  /** `TIME_RE` has no word boundaries: a text holding a token anywhere, even
      inside a longer word, matches, whatever surrounds it. */
  lemma TimeTokenInside(a: string, s: string, b: string)
    requires HasTimeToken(s)
    ensures HasTimeToken(a + s + b)
  {
    var t :| t in TimeTokens && Contains(Lower(s), t);
    assert Contains(Lower(a + s + b), t) by {
      LowerAppend(a, s, b);
      ContainsInside(Lower(a), Lower(s), Lower(b), t);
    }
  }

  lemma LowerAppend(a: string, s: string, b: string)
    ensures Lower(a + s + b) == Lower(a) + Lower(s) + Lower(b)
  {
  }

  lemma ContainsInside(a: string, s: string, b: string, t: string)
    requires Contains(s, t)
    ensures Contains(a + s + b, t)
  {
    var j := IndexOf(s, t).value;
    assert (a + s + b)[|a| + j..|a| + j + |t|] == s[j..j + |t|];
    assert OccursAt(a + s + b, t, |a| + j);
  }

  lemma {:induction false} DigitRunLower(s: string, k: nat)
    requires k <= |s|
    ensures DigitRun(Lower(s), k) == DigitRun(s, k)
    decreases |s| - k
  {
    if k < |s| {
      DigitRunLower(s, k + 1);
    }
  }

  lemma {:induction false} SpaceRunLower(s: string, k: nat)
    requires k <= |s|
    ensures SpaceRun(Lower(s), k) == SpaceRun(s, k)
    decreases |s| - k
  {
    if k < |s| {
      SpaceRunLower(s, k + 1);
    }
  }

  lemma NumberEndLower(s: string, j: nat)
    requires j <= |s|
    ensures NumberEnd(Lower(s), j) == NumberEnd(s, j)
  {
    DigitRunLower(s, j);
    var k := j + DigitRun(s, j);
    if k < |s| {
      DigitRunLower(s, k + 1);
    }
  }

  lemma HoursAtLower(s: string, j: nat)
    ensures HoursAt(Lower(s), j) <==> HoursAt(s, j)
  {
    if j < |s| {
      AfterNumberLower(s, j);
      UnitAtLower(s, AfterNumber(s, j));
      WordCharLower(s[j]);
      if j > 0 {
        WordCharLower(s[j - 1]);
      }
    }
  }

  lemma AfterNumberLower(s: string, j: nat)
    requires j <= |s|
    ensures AfterNumber(Lower(s), j) == AfterNumber(s, j)
  {
    NumberEndLower(s, j);
    SpaceRunLower(s, NumberEnd(s, j));
  }

  lemma UnitAtLower(s: string, l: nat)
    ensures UnitAt(Lower(s), l) <==> UnitAt(s, l)
  {
    forall u <- HourUnits
      ensures TailWordAt(Lower(s), u, l) <==> TailWordAt(s, u, l)
    {
      TailWordAtLower(s, u, l);
    }
  }

  lemma WordCharLower(c: char)
    ensures IsDigit(LowerChar(c)) <==> IsDigit(c)
    ensures IsWordChar(LowerChar(c)) <==> IsWordChar(c)
  {
  }

  lemma WatchAtLower(s: string, i: nat)
    ensures WatchAt(Lower(s), i) <==> WatchAt(s, i)
  {
    WordAtLower(s, "watch", i);
    forall j: nat | i + 5 <= j < |s|
      ensures ('\n' !in Lower(s)[i + 5..j] && HoursAt(Lower(s), j)) <==> ('\n' !in s[i + 5..j] && HoursAt(s, j))
    {
      LowerSlice(s, i + 5, j);
      HoursAtLower(s, j);
    }
  }

  /** `WATCH_RE` ignores letter case. */
  lemma WatchHoursCaseBlind(s: string)
    ensures HasWatchHours(Lower(s)) <==> HasWatchHours(s)
  {
    forall i: nat | i <= |s|
      ensures WatchAt(Lower(s), i) <==> WatchAt(s, i)
    {
      WatchAtLower(s, i);
    }
  }

  /** A watch requirement on one line matches: "watch", then the hours. */
  lemma WatchHoursExample()
    ensures HasWatchHours("Watch 2 hours")
  {
    var s := "Watch 2 hours";
    assert WordAt(s, "watch", 0);
    assert DigitRun(s, 7) == 0;
    assert DigitRun(s, 6) == 1;
    assert NumberEnd(s, 6) == 7;
    assert SpaceRun(s, 8) == 0;
    assert SpaceRun(s, 7) == 1;
    assert TailWordAt(s, "hours", 8);
    assert UnitAt(s, 8);
    assert HoursAt(s, 6);
    assert s[5..6] == " ";
    assert WatchAt(s, 0);
  }
}
