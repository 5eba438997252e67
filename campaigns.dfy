/** The campaign parser of the snapshot script: reading a scraped row
    (`row_text`, `row_links`), finding the game category link
    (`extract_game_from_links`) and turning the row's text into a campaign
    record (`parse_campaign_row`).

    `CampaignOf` specifies the record for any text; `ParseCampaign` is the
    script's loop-and-break implementation, proved to compute it. Because the
    text always comes from `RowText`, which removes every line break, the
    line-based heuristics see a single line: `NormalisedRowFields` states what
    the record then is. */
module Campaigns {
  import opened Util
  import opened Strings
  import opened Patterns

  /** One campaign as stored in the snapshot document. */
  datatype Campaign = Campaign(
    gameName: string,
    gameSlug: string,
    campaignTitle: string,
    timeframe: string,
    startRaw: Option<string>,
    endRaw: Option<string>,
    rewards: seq<string>,
    rawText: string,
    id: string)

  const TwitchOrigin: string := "https://www.twitch.tv"

  /** Rows whose text is shorter than this are decoration, not campaigns. */
  const MinRowLength: nat := 20

  // ---------------------------------------------------------------- row reading

  /** `row_text`: the row's text (`None` when every read of it failed, or it was
      null) with its whitespace collapsed: the same words in the same order,
      one space between them, no line break, and collapsing it again changes
      nothing. */
  function RowText(read: Option<string>): (text: string)
    ensures Words(text) == Words(read.GetOr(""))
    ensures IsCollapsed(text)
    ensures forall c <- text :: !IsLineBreak(c)
    ensures Collapse(text) == text
  {
    CollapseIsCollapsed(read.GetOr(""));
    CollapseIdempotent(read.GetOr(""));
    WordsOfJoin(Words(read.GetOr("")));
    Collapse(read.GetOr(""))
  }

  /** A root-relative href is resolved against the site's origin; any other
      href is kept as it is. */
  function ResolveHref(href: string): (r: string)
    ensures !StartsWith(r, "/")
    ensures |href| <= |r| && r[|r| - |href|..] == href
    ensures r == href <==> !StartsWith(href, "/")
    ensures r != href ==> r == TwitchOrigin + href
  {
    if StartsWith(href, "/") then
      assert (TwitchOrigin + href)[0] == 'h';
      TwitchOrigin + href
    else href
  }

  /** `row_links`: the row's `href` attributes (a missing one reads as ""),
      resolved, in document order. */
  function RowLinks(hrefs: seq<Option<string>>): (links: seq<string>)
    ensures |links| == |hrefs|
    ensures forall i :: 0 <= i < |hrefs| ==> links[i] == ResolveHref(hrefs[i].GetOr(""))
    ensures forall l <- links :: !StartsWith(l, "/")
  {
    seq(|hrefs|, i requires 0 <= i < |hrefs| => ResolveHref(hrefs[i].GetOr("")))
  }

  // ---------------------------------------------------------------- game slug

  const DirectoryPrefix: string := "https://www.twitch.tv/directory/"
  const CategoryPrefix: string := "category/"

  /** The regex class `[^/?#]`. */
  predicate IsSegmentChar(c: char) {
    c != '/' && c != '?' && c != '#'
  }

  /** A game slug: a non-empty lower-case path segment. */
  predicate IsSlug(s: string) {
    s != [] && Lower(s) == s && forall c <- s :: IsSegmentChar(c)
  }

  /** The length of the run of `[^/?#]` characters starting at `k`. */
  function SegmentLen(s: string, k: nat): (n: nat)
    requires k <= |s|
    ensures k + n <= |s|
    ensures forall i :: k <= i < k + n ==> IsSegmentChar(s[i])
    decreases |s| - k
  {
    if k < |s| && IsSegmentChar(s[k]) then 1 + SegmentLen(s, k + 1) else 0
  }

  /** The segment starting at `k`, lower-cased, if it is not empty. */
  function SegmentAt(s: string, k: nat): (r: Option<string>)
    requires k <= |s|
    ensures r.Some? ==> IsSlug(r.value)
  {
    var n := SegmentLen(s, k);
    if n == 0 then None
    else
      LowerIdempotent(s[k..k + n]);
      Some(Lower(s[k..k + n]))
  }

  /** The slug that `https://www\.twitch\.tv/directory/(category/)?([^/?#]+)`
      (case-insensitive) captures when its match starts at `i`: the segment
      after "category/" when there is one, otherwise (the optional group
      backtracks) the segment right after "directory/". */
  function SlugAt(h: string, i: nat): (r: Option<string>)
    requires i <= |h|
    ensures r.Some? ==> IsSlug(r.value)
  {
    var j := i + |DirectoryPrefix|;
    if !(j <= |h| && Lower(h[i..j]) == DirectoryPrefix) then None
    else if j + |CategoryPrefix| <= |h| && Lower(h[j..j + |CategoryPrefix|]) == CategoryPrefix
         && SegmentAt(h, j + |CategoryPrefix|).Some?
    then SegmentAt(h, j + |CategoryPrefix|)
    else SegmentAt(h, j)
  }

  /** `re.search` of the directory pattern from index `i` on: the match
      that starts leftmost. */
  function SlugFrom(h: string, i: nat): (r: Option<string>)
    requires i <= |h|
    ensures r.Some? ==> IsSlug(r.value)
    ensures r.Some? <==> exists k :: i <= k <= |h| && SlugAt(h, k).Some?
    ensures r.Some? ==> exists k :: i <= k <= |h| && SlugAt(h, k) == r
                           && forall m :: i <= m < k ==> SlugAt(h, m).None?
    decreases |h| - i
  {
    if SlugAt(h, i).Some? then SlugAt(h, i)
    else if i == |h| then None
    else SlugFrom(h, i + 1)
  }

  function SlugInHref(h: string): (r: Option<string>)
    ensures r.Some? ==> IsSlug(r.value)
  {
    SlugFrom(h, 0)
  }

  predicate HasSlug(h: string) {
    SlugInHref(h).Some?
  }

  /** `extract_game_from_links`: the slug of the first link that matches the
      directory pattern; `None` exactly when no link matches. */
  function GameFromLinks(links: seq<string>): (r: Option<string>)
    ensures r.Some? ==> IsSlug(r.value)
    ensures r.None? <==> forall l <- links :: SlugInHref(l).None?
    ensures r.Some? ==> exists i :: 0 <= i < |links| && SlugInHref(links[i]) == r
                           && forall j :: 0 <= j < i ==> SlugInHref(links[j]).None?
  {
    match FirstWhere(links, HasSlug)
    case None => None
    case Some(i) => SlugInHref(links[i])
  }

  // ---------------------------------------------------------------- text heuristics

  /** The pieces stripped, the blank ones dropped, in order. */
  function StrippedNonEmpty(parts: seq<string>): (lines: seq<string>)
    ensures |lines| <= |parts|
    ensures forall ln <- lines :: ln != [] && Strip(ln) == ln
  {
    if parts == [] then []
    else
      var ln := Strip(parts[0]);
      (if ln != [] then [ln] else []) + StrippedNonEmpty(parts[1..])
  }

  /** Dropping the blank parts and stripping the others keeps every word. */
  lemma {:induction false} StrippedNonEmptyWords(parts: seq<string>)
    ensures WordsOf(StrippedNonEmpty(parts)) == WordsOf(parts)
  {
    if parts != [] {
      var ln := Strip(parts[0]);
      var rest := StrippedNonEmpty(parts[1..]);
      StrippedNonEmptyWords(parts[1..]);
      WordsOfStrip(parts[0]);
      if ln != [] {
        assert StrippedNonEmpty(parts) == [ln] + rest;
        assert ([ln] + rest)[1..] == rest;
        assert WordsOf([ln] + rest) == Words(ln) + WordsOf(rest);
      } else {
        assert StrippedNonEmpty(parts) == rest;
        assert Words(parts[0]) == [];
      }
    }
  }

  /** Stripping adds no character, so parts without line breaks give lines
      without line breaks. */
  lemma {:induction false} StrippedNonEmptyNoBreak(parts: seq<string>)
    requires forall p <- parts, c <- p :: !IsLineBreak(c)
    ensures forall ln <- StrippedNonEmpty(parts), c <- ln :: !IsLineBreak(c)
  {
    if parts != [] {
      var ln := Strip(parts[0]);
      assert forall p <- parts[1..] :: p in parts;
      StrippedNonEmptyNoBreak(parts[1..]);
      StripKeepsChars(parts[0]);
      assert parts[0] in parts;
      assert StrippedNonEmpty(parts) == (if ln != [] then [ln] else []) + StrippedNonEmpty(parts[1..]);
    }
  }

  /** The lines of a row: the pieces of the text between runs of line
      breaks, stripped, the blank ones dropped. No line holds a line break,
      and the lines keep every word of the text, in order. */
  function Lines(text: string): (lines: seq<string>)
    ensures forall ln <- lines :: ln != [] && Strip(ln) == ln
    ensures forall ln <- lines, c <- ln :: !IsLineBreak(c)
    ensures WordsOf(lines) == Words(text)
  {
    LinePieces(text);
    StrippedNonEmpty(SplitWhere(text, IsLineBreak))
  }

  lemma LinePieces(text: string)
    ensures var lines := StrippedNonEmpty(SplitWhere(text, IsLineBreak));
      && (forall ln <- lines :: ln != [] && Strip(ln) == ln)
      && (forall ln <- lines, c <- ln :: !IsLineBreak(c))
      && WordsOf(lines) == Words(text)
  {
    var parts := SplitWhere(text, IsLineBreak);
    WordsOfSplit(text, IsLineBreak);
    StrippedNonEmptyWords(parts);
    StrippedNonEmptyNoBreak(parts);
  }

  /** Pieces that are already non-empty and stripped pass through unchanged. */
  lemma {:induction false} StrippedNonEmptyOfStripped(ps: seq<string>)
    requires forall i :: 0 <= i < |ps| ==> ps[i] != [] && Strip(ps[i]) == ps[i]
    ensures StrippedNonEmpty(ps) == ps
  {
    if ps != [] {
      var rest := ps[1..];
      StrippedNonEmptyOfStripped(rest);
      assert ps == [ps[0]] + rest;
      assert StrippedNonEmpty(ps) == [ps[0]] + rest;
    }
  }

  /** Non-empty stripped lines without line breaks, joined by newlines, are
      read back as exactly those lines: `Lines` cuts at line breaks and
      nowhere else. */
  lemma {:induction false} LinesOfJoin(ps: seq<string>)
    requires forall i :: 0 <= i < |ps| ==> ps[i] != [] && Strip(ps[i]) == ps[i] && SepFree(ps[i], IsLineBreak)
    ensures Lines(Join(ps, "\n")) == ps
  {
    if ps == [] {
      SplitWhereNone("", IsLineBreak);
      assert StrippedNonEmpty([""]) == [] + StrippedNonEmpty([]);
    } else {
      assert "\n" == ['\n'];
      JoinSplitWhere(ps, IsLineBreak, '\n');
      StrippedNonEmptyOfStripped(ps);
    }
  }

  /** A candidate game name: short and not mentioning "campaign". */
  predicate IsNameLine(ln: string) {
    |ln| <= 50 && !Contains(Lower(ln), "campaign")
  }

  predicate IsTimeLine(ln: string) {
    HasTimeToken(ln)
  }

  /** A reward line: a watch-time requirement, or a short line about drops. */
  predicate IsRewardLine(ln: string) {
    HasWatchHours(ln) || (HasDropWord(ln) && |ln| <= 160)
  }

  /** A candidate title: short and mentioning drops, a campaign or watching. */
  predicate IsTitleLine(ln: string) {
    var low := Lower(ln);
    (Contains(low, "drop") || Contains(low, "campaign") || Contains(low, "watch")) && |ln| <= 120
  }

  /** The first line satisfying `p`, or "" when none does. */
  function Pick(lines: seq<string>, p: string -> bool): string {
    match FirstWhere(lines, p)
    case None => ""
    case Some(i) => lines[i]
  }

  function GameNameGuess(lines: seq<string>): string {
    Pick(Take(lines, 4), IsNameLine)
  }

  function TimeframeOf(lines: seq<string>): string {
    Pick(lines, IsTimeLine)
  }

  function RewardsOf(lines: seq<string>): seq<string> {
    Filter(lines, IsRewardLine)
  }

  function TitleOf(lines: seq<string>): string {
    var t := Pick(Take(lines, 6), IsTitleLine);
    if t == "" && lines != [] then lines[0] else t
  }

  /** The game name made from a slug: each hyphen becomes a space, and each
      letter is upper-cased when it starts a word (the character before it is
      not a letter) and lower-cased otherwise. */
  function SlugToName(slug: string): (name: string)
    ensures |name| == |slug|
    ensures forall i :: 0 <= i < |slug| ==>
      name[i] == if slug[i] == '-' then ' ' else TitleChar(slug[i], AfterLetter(slug, i))
  {
    var spaced := ReplaceChar(slug, '-', ' ');
    TitleCaseAt(spaced);
    assert forall i :: 0 <= i < |slug| ==> AfterLetter(spaced, i) == AfterLetter(slug, i);
    TitleCase(spaced)
  }

  /** Python's `s or None`. */
  function NoneIfEmpty(s: string): (r: Option<string>)
    ensures r.Some? ==> r.value != ""
  {
    if s == "" then None else Some(s)
  }

  const RangeSeparator: string := " - "

  /** `k` is where `sep` first occurs in `s`. */
  predicate FirstOccurrence(s: string, sep: string, k: nat) {
    OccursAt(s, sep, k) && forall j :: 0 <= j < k ==> !OccursAt(s, sep, j)
  }

  /** The start and end of a timeframe: both absent unless the timeframe
      contains " - "; otherwise the stripped parts before and after its first
      occurrence, an empty part being absent. */
  function SplitTimeframe(tf: string): (r: (Option<string>, Option<string>))
    ensures !Contains(tf, RangeSeparator) ==> r == (None, None)
  {
    match IndexOf(tf, RangeSeparator)
    case None => (None, None)
    case Some(k) => (NoneIfEmpty(Strip(tf[..k])), NoneIfEmpty(Strip(tf[k + 3..])))
  }

  /** A stripped part that is present is non-empty and stays as it is when
      stripped again. */
  lemma StrippedPart(s: string)
    ensures NoneIfEmpty(Strip(s)).Some? ==> NoneIfEmpty(Strip(s)).value != "" && Strip(NoneIfEmpty(Strip(s)).value) == NoneIfEmpty(Strip(s)).value
  {
    StripIdempotent(s);
  }

  /** The parts that are present are non-empty and stripped. */
  lemma SplitTimeframeShape(tf: string)
    ensures SplitTimeframe(tf).0.Some? ==> SplitTimeframe(tf).0.value != "" && Strip(SplitTimeframe(tf).0.value) == SplitTimeframe(tf).0.value
    ensures SplitTimeframe(tf).1.Some? ==> SplitTimeframe(tf).1.value != "" && Strip(SplitTimeframe(tf).1.value) == SplitTimeframe(tf).1.value
  {
    var i := IndexOf(tf, RangeSeparator);
    if i.Some? {
      var k := i.value;
      var first, second := tf[..k], tf[k + 3..];
      var r := SplitTimeframe(tf);
      assert r.0 == NoneIfEmpty(Strip(first)) && r.1 == NoneIfEmpty(Strip(second));
      assert r.0.Some? ==> r.0.value != "" && Strip(r.0.value) == r.0.value by {
        StrippedPart(first);
      }
      assert r.1.Some? ==> r.1.value != "" && Strip(r.1.value) == r.1.value by {
        StrippedPart(second);
      }
    } else {
      assert SplitTimeframe(tf) == (None, None);
    }
  }

  /** When " - " first occurs at `k`, the start is the stripped text before
      it and the end the stripped text after it, each absent when empty. */
  lemma SplitTimeframeAt(tf: string, k: nat)
    requires FirstOccurrence(tf, RangeSeparator, k)
    ensures SplitTimeframe(tf) == (NoneIfEmpty(Strip(tf[..k])), NoneIfEmpty(Strip(tf[k + 3..])))
  {
    assert IndexOf(tf, RangeSeparator) == Some(k);
  }

  // ---------------------------------------------------------------- identity

  /** The text that is hashed: slug, timeframe and comma-joined rewards,
      separated by "|". */
  function IdBasis(slug: string, timeframe: string, rewards: seq<string>): string {
    slug + "|" + timeframe + "|" + Join(rewards, ",")
  }

  /** The campaign id: the first 16 characters of the hex digest of the basis
      (`digest` stands for SHA-256). */
  function CampaignId(digest: string -> string, slug: string, timeframe: string, rewards: seq<string>): (id: string)
    ensures |id| == Min(16, |digest(IdBasis(slug, timeframe, rewards))|)
    ensures id == digest(IdBasis(slug, timeframe, rewards))[..|id|]
  {
    Take(digest(IdBasis(slug, timeframe, rewards)), 16)
  }

  // ---------------------------------------------------------------- the record

  /** The record `parse_campaign_row` builds from a row's text and links, or
      `None` for a row that is too short or has no game category link. */
  function CampaignOf(text: string, links: seq<string>, digest: string -> string): (r: Option<Campaign>)
    ensures r.None? <==> (text == "" || |text| < MinRowLength || GameFromLinks(links).None?)
    ensures r.Some? ==> r.value.gameSlug == GameFromLinks(links).value && IsSlug(r.value.gameSlug)
    ensures r.Some? ==> r.value.rawText == text && r.value.gameName != ""
    ensures r.Some? ==> r.value.id == CampaignId(digest, r.value.gameSlug, r.value.timeframe, r.value.rewards)
    ensures r.Some? ==> (r.value.startRaw, r.value.endRaw) == SplitTimeframe(r.value.timeframe)
  {
    if text == "" || |text| < MinRowLength then None
    else match GameFromLinks(links)
      case None => None
      case Some(slug) =>
        var lines := Lines(text);
        var guess := GameNameGuess(lines);
        var timeframe := TimeframeOf(lines);
        var rewards := RewardsOf(lines);
        var (startRaw, endRaw) := SplitTimeframe(timeframe);
        Some(Campaign(
          if guess == "" then SlugToName(slug) else guess,
          slug,
          TitleOf(lines),
          timeframe,
          startRaw,
          endRaw,
          rewards,
          text,
          CampaignId(digest, slug, timeframe, rewards)))
  }

  /** The game-name loop: the first of the first four lines that is a
      candidate name, or "" when none is. */
  method GuessGameName(lines: seq<string>) returns (name: string)
    ensures name == GameNameGuess(lines)
    ensures name != "" ==> exists i :: 0 <= i < Min(4, |lines|) && name == lines[i] && IsNameLine(name)
  {
    name := "";
    var i := 0;
    while i < Min(4, |lines|)
      invariant 0 <= i <= Min(4, |lines|)
      invariant name == ""
      invariant forall j :: 0 <= j < i ==> !IsNameLine(lines[j])
    {
      if IsNameLine(lines[i]) {
        name := lines[i];
        FirstWhereAt(Take(lines, 4), IsNameLine, i);
        return;
      }
      i := i + 1;
    }
  }

  /** The timeframe loop: the first line with a date or time-zone token, or "". */
  method FindTimeframe(lines: seq<string>) returns (timeframe: string)
    ensures timeframe == TimeframeOf(lines)
    ensures timeframe != "" ==> timeframe in lines && IsTimeLine(timeframe)
  {
    timeframe := "";
    var i := 0;
    while i < |lines|
      invariant 0 <= i <= |lines|
      invariant timeframe == ""
      invariant forall j :: 0 <= j < i ==> !IsTimeLine(lines[j])
    {
      if IsTimeLine(lines[i]) {
        timeframe := lines[i];
        FirstWhereAt(lines, IsTimeLine, i);
        return;
      }
      i := i + 1;
    }
  }

  /** The rewards loop: every watch-time or drop line, in order. */
  method CollectRewards(lines: seq<string>) returns (rewards: seq<string>)
    ensures rewards == RewardsOf(lines)
    ensures forall ln <- rewards :: ln in lines && IsRewardLine(ln)
    ensures forall ln <- lines :: IsRewardLine(ln) ==> ln in rewards
  {
    rewards := [];
    var i := 0;
    while i < |lines|
      invariant 0 <= i <= |lines|
      invariant rewards == Filter(lines[..i], IsRewardLine)
    {
      FilterSnoc(lines[..i], lines[i], IsRewardLine);
      assert lines[..i + 1] == lines[..i] + [lines[i]];
      if IsRewardLine(lines[i]) {
        rewards := rewards + [lines[i]];
      }
      i := i + 1;
    }
    assert lines[..|lines|] == lines;
    FilterMembers(lines, IsRewardLine);
  }

  /** The title loop: the first of the first six lines that is a candidate
      title, else the first line. */
  method FindTitle(lines: seq<string>) returns (title: string)
    ensures title == TitleOf(lines)
    ensures lines != [] ==> title in lines
  {
    title := "";
    var i := 0;
    while i < Min(6, |lines|)
      invariant 0 <= i <= Min(6, |lines|)
      invariant title == ""
      invariant forall j :: 0 <= j < i ==> !IsTitleLine(lines[j])
    {
      if IsTitleLine(lines[i]) {
        title := lines[i];
        FirstWhereAt(Take(lines, 6), IsTitleLine, i);
        return;
      }
      i := i + 1;
    }
    if lines != [] {
      title := lines[0];
    }
  }

  /** `parse_campaign_row` after the row has been read: `None` for a short row
      or one without a game link, otherwise the record `CampaignOf` describes. */
  method ParseCampaign(text: string, links: seq<string>, digest: string -> string) returns (r: Option<Campaign>)
    ensures r.None? <==> (text == "" || |text| < MinRowLength || GameFromLinks(links).None?)
    ensures r == CampaignOf(text, links, digest)
  {
    if text == "" || |text| < MinRowLength {
      return None;
    }
    var gameInfo := GameFromLinks(links);
    if gameInfo.None? {
      return None;
    }
    var slug := gameInfo.value;
    var lines := Lines(text);
    var gameName := GuessGameName(lines);
    var timeframe := FindTimeframe(lines);
    var rewards := CollectRewards(lines);
    var title := FindTitle(lines);

    var (startRaw, endRaw) := SplitTimeframe(timeframe);
    var name := if gameName == "" then SlugToName(slug) else gameName;
    var id := CampaignId(digest, slug, timeframe, rewards);
    r := Some(Campaign(name, slug, title, timeframe, startRaw, endRaw, rewards, text, id));
  }

  // ---------------------------------------------------------------- properties

  /** A collapsed, non-empty text is a single line. */
  lemma CollapsedTextIsOneLine(text: string)
    requires IsCollapsed(text) && text != ""
    ensures Lines(text) == [text]
  {
    forall c <- text ensures !IsLineBreak(c) {
      var i :| 0 <= i < |text| && text[i] == c;
    }
    SplitWhereNone(text, IsLineBreak);
    assert !IsSpace(text[0]) && !IsSpace(text[|text| - 1]);
    assert StrippedNonEmpty([text]) == [text] + StrippedNonEmpty([]);
  }

  /** On a single line the heuristics pick that line or nothing. */
  lemma OneLineHeuristics(text: string)
    requires text != ""
    ensures GameNameGuess([text]) == if IsNameLine(text) then text else ""
    ensures TimeframeOf([text]) == if IsTimeLine(text) then text else ""
    ensures RewardsOf([text]) == if IsRewardLine(text) then [text] else []
    ensures TitleOf([text]) == text
  {
    FilterSingleton(text, IsRewardLine);
    assert Take([text], 4) == [text] && Take([text], 6) == [text];
  }

  /** What a row read through `row_text` parses to: the whole text is the only
      line, so the title is the whole text, there is at most one reward (the
      whole text), the timeframe is the whole text or empty, and the game name
      is the whole text when it is short and does not say "campaign", the
      title-cased slug otherwise. */
  lemma NormalisedRowFields(read: Option<string>, links: seq<string>, digest: string -> string, c: Campaign)
    requires CampaignOf(RowText(read), links, digest) == Some(c)
    ensures c.campaignTitle == c.rawText
    ensures c.rewards == if IsRewardLine(c.rawText) then [c.rawText] else []
    ensures c.timeframe == if IsTimeLine(c.rawText) then c.rawText else ""
    ensures c.gameName == if IsNameLine(c.rawText) then c.rawText else SlugToName(c.gameSlug)
  {
    var text := RowText(read);
    CollapsedTextIsOneLine(text);
    OneLineHeuristics(text);
  }

  /** The id depends only on slug, timeframe and rewards: records parsed from
      different rows that agree on those three fields share their id. */
  lemma IdIgnoresPresentation(t1: string, l1: seq<string>, t2: string, l2: seq<string>, digest: string -> string)
    requires CampaignOf(t1, l1, digest).Some? && CampaignOf(t2, l2, digest).Some?
    requires var c1, c2 := CampaignOf(t1, l1, digest).value, CampaignOf(t2, l2, digest).value;
      c1.gameSlug == c2.gameSlug && c1.timeframe == c2.timeframe && c1.rewards == c2.rewards
    ensures CampaignOf(t1, l1, digest).value.id == CampaignOf(t2, l2, digest).value.id
  {
  }

  /** The basis does not escape its separators, so whatever the hash, a
      reward holding a comma and the list with that reward cut in two at the
      comma get the same id (one reward "a,b" and the two rewards "a", "b"). */
  lemma IdBasisAmbiguous(digest: string -> string, slug: string, timeframe: string, rewards: seq<string>, i: nat, x: string, y: string)
    requires i < |rewards| && rewards[i] == x + "," + y
    ensures |rewards[..i] + [x, y] + rewards[i + 1..]| == |rewards| + 1
    ensures CampaignId(digest, slug, timeframe, rewards[..i] + [x, y] + rewards[i + 1..]) == CampaignId(digest, slug, timeframe, rewards)
  {
    JoinMerge(rewards[..i], x, y, rewards[i + 1..], ",");
    assert rewards[..i] + [x + "," + y] + rewards[i + 1..] == rewards;
  }

  /** `|` is a slug character and the basis does not escape it, so a piece
      can move from the end of the slug to the front of the timeframe
      without changing the id: two records with different slugs and
      timeframes share an id with no digest collision. */
  lemma IdBasisSlugAmbiguous(digest: string -> string, a: string, b: string, timeframe: string, rewards: seq<string>)
    requires IsSlug(a) && IsSlug(b)
    ensures IsSlug(a + "|" + b) && a + "|" + b != a
    ensures CampaignId(digest, a + "|" + b, timeframe, rewards) == CampaignId(digest, a, b + "|" + timeframe, rewards)
  {
    LowerAppend(a, "|", b);
    assert Lower("|") == "|";
    assert |a + "|" + b| > |a|;
    assert IdBasis(a + "|" + b, timeframe, rewards) == IdBasis(a, b + "|" + timeframe, rewards);
  }
}
