/** The notification side of the snapshot script: the watched game slugs
    (`TARGET_SLUGS`), the message `notify_for_targets` composes from a diff,
    and `main`, which scrapes, diffs against the previous snapshot and
    notifies. Sending the message and writing the snapshot file are I/O and
    are left to the caller: `NotifyForTargets` returns the text it would send. */
module Notify {
  import opened Util
  import opened Strings
  import opened Campaigns
  import opened Snapshots
  import opened Diffs

  const DefaultTargets: string := "tom-clancys-rainbow-six-siege"

  predicate IsComma(c: char) {
    c == ','
  }

  /** A string with no upper-case letter is its own lower-case form. */
  lemma LowerOfLower(s: string)
    requires forall c <- s :: !IsAsciiUpper(c)
    ensures Lower(s) == s
  {
    assert forall i :: 0 <= i < |s| ==> s[i] in s;
  }

  /** `if s.strip()`: the part holds something besides whitespace. */
  predicate NonBlank(p: string) {
    Strip(p) != ""
  }

  /** A watched slug: non-empty, without surrounding whitespace, in lower case. */
  predicate IsTargetSlug(t: string) {
    t != "" && Strip(t) == t && Lower(t) == t
  }

  /** `s.strip().lower()`. */
  function NormalisedTarget(p: string): string {
    Lower(Strip(p))
  }

  /** A non-blank part normalises to a watched slug. */
  lemma NormalisedTargetIsSlug(p: string)
    requires NonBlank(p)
    ensures IsTargetSlug(NormalisedTarget(p))
  {
    var s := Strip(p);
    LowerIdempotent(s);
    assert Strip(Lower(s)) == Lower(s);
  }

  /** The watched slugs named by a list of parts: the non-blank ones,
      normalised. */
  function Targets(parts: seq<string>): (targets: set<string>)
    ensures forall t <- targets :: IsTargetSlug(t)
  {
    forall p <- parts | NonBlank(p) ensures IsTargetSlug(NormalisedTarget(p)) {
      NormalisedTargetIsSlug(p);
    }
    set p <- parts | NonBlank(p) :: NormalisedTarget(p)
  }

  /** `TARGET_SLUGS`: the comma-separated parts of the environment value (the
      default slug when the variable is unset), stripped and lower-cased,
      blank parts dropped. Every watched slug is non-empty, stripped and in
      lower case. */
  function ParseTargets(env: Option<string>): (targets: set<string>)
    ensures forall t <- targets :: IsTargetSlug(t)
  {
    Targets(SplitWhere(env.GetOr(DefaultTargets), IsComma))
  }

  /** A set variable names the slugs of its comma-separated parts. */
  lemma ParseTargetsSome(v: string)
    ensures ParseTargets(Some(v)) == Targets(SplitWhere(v, IsComma))
  {
  }

  /** A value without commas names one slug, or none when it is blank. */
  lemma ParseTargetsSingle(v: string)
    requires forall c <- v :: !IsComma(c)
    ensures ParseTargets(Some(v)) == if NonBlank(v) then {NormalisedTarget(v)} else {}
  {
    SplitWhereNone(v, IsComma);
    SingletonImage(v, NonBlank, NormalisedTarget);
  }

  /** A value of comma-free parts joined by commas, such as
      "tom-clancys-rainbow-six-siege,hades-ii", watches exactly the
      normalised non-blank parts. */
  lemma {:induction false} ParseTargetsJoin(ps: seq<string>)
    requires forall i :: 0 <= i < |ps| ==> SepFree(ps[i], IsComma)
    ensures ParseTargets(Some(Join(ps, ","))) == Targets(ps)
  {
    var v := Join(ps, ",");
    if ps == [] {
      assert ParseTargets(Some(v)) == Targets(ps) by {
        ParseTargetsSingle("");
        assert !NonBlank("");
      }
    } else {
      assert ParseTargets(Some(v)) == Targets(ps) by {
        assert "," == [','];
        JoinSplitWhere(ps, IsComma, ',');
        ParseTargetsSome(v);
      }
    }
  }

  /** The image of a one-element list under a filter and a map. */
  lemma SingletonImage(v: string, keep: string -> bool, f: string -> string)
    ensures (set p <- [v] | keep(p) :: f(p)) == if keep(v) then {f(v)} else {}
  {
    if keep(v) {
      assert f(v) in set p <- [v] | keep(p) :: f(p);
    }
  }

  /** With the variable unset, the Siege slug alone is watched. */
  lemma ParseTargetsDefault()
    ensures ParseTargets(None) == {DefaultTargets}
  {
    var d := DefaultTargets;
    assert forall c <- d :: !IsComma(c) && !IsAsciiUpper(c);
    assert !IsSpace(d[0]) && !IsSpace(d[|d| - 1]);
    assert Strip(d) == d;
    LowerOfLower(d);
    ParseTargetsSingle(d);
  }

  /** The campaigns whose game slug is one of the targets, in their order. */
  function Targeted(cs: seq<Campaign>, targets: set<string>): seq<Campaign> {
    Filter(cs, (c: Campaign) => c.gameSlug in targets)
  }

  const Header: string := "\U{1F381} Twitch Drops update (targets)"
  const BulletMark: string := "\U{2022} "
  const NoDates: string := "Dates TBA"
  const NewCap: nat := 3
  const UpdatedCap: nat := 2
  const RewardsCap: nat := 200

  /** One bullet: the game name, then the timeframe or "Dates TBA" when the
      record has none. */
  function Bullet(c: Campaign): string {
    BulletMark + c.gameName + ": " + (if c.timeframe == "" then NoDates else c.timeframe)
  }

  function Bullets(cs: seq<Campaign>): (r: seq<string>)
    ensures |r| == |cs|
  {
    seq(|cs|, i requires 0 <= i < |cs| => Bullet(cs[i]))
  }

  /** A count line and the bullets of the first `cap` campaigns, or nothing
      for an empty list. */
  function Section(heading: string, cs: seq<Campaign>, cap: nat): seq<string> {
    if cs == [] then [] else [heading + ": " + NatToString(|cs|)] + Bullets(Take(cs, cap))
  }

  /** The rewards of the first targeted campaign (added ones first), joined by
      "; " and cut to 200 characters, when it has any. */
  function RewardsLine(pick: seq<Campaign>): seq<string> {
    if pick != [] && pick[0].rewards != [] then ["Rewards: " + Take(Join(pick[0].rewards, "; "), RewardsCap)] else []
  }

  function NotificationLines(added: seq<Campaign>, changed: seq<Campaign>): seq<string> {
    [Header] + Section("New", added, NewCap) + Section("Updated", changed, UpdatedCap)
      + RewardsLine(Take(added + changed, 1))
  }

  /** The message `notify_for_targets` sends for a diff, if any. */
  function Notification(d: Diff, targets: set<string>): Option<string> {
    var added, changed := Targeted(d.added, targets), Targeted(d.changed, targets);
    if added == [] && changed == [] then None else Some(Join(NotificationLines(added, changed), "\n"))
  }

  /** There is nothing to report exactly when no added or changed campaign
      is of a watched game. */
  lemma NothingTargeted(d: Diff, targets: set<string>)
    ensures (Targeted(d.added, targets) == [] && Targeted(d.changed, targets) == [])
      <==> forall c <- d.added + d.changed :: c.gameSlug !in targets
  {
    var added, changed := Targeted(d.added, targets), Targeted(d.changed, targets);
    FilterMembers(d.added, (c: Campaign) => c.gameSlug in targets);
    FilterMembers(d.changed, (c: Campaign) => c.gameSlug in targets);
    if added == [] && changed == [] {
      forall c <- d.added + d.changed ensures c.gameSlug !in targets {
        assert c in d.added || c in d.changed;
      }
    } else if added != [] {
      assert added[0] in d.added + d.changed;
    } else {
      assert changed[0] in d.added + d.changed;
    }
  }

  /** Appends a section: the count line, then one bullet for each of the
      first `cap` campaigns. */
  method AppendSection(lines: seq<string>, heading: string, cs: seq<Campaign>, cap: nat) returns (out: seq<string>)
    requires cs != []
    ensures out == lines + Section(heading, cs, cap)
  {
    out := lines + [heading + ": " + NatToString(|cs|)];
    var shown := Take(cs, cap);
    ghost var before := out;
    for i := 0 to |shown|
      invariant out == before + Bullets(shown[..i])
    {
      out := out + [Bullet(shown[i])];
    }
    assert shown[..|shown|] == shown;
  }

  /** `notify_for_targets(d)`, returning the text it sends. There is a message
      exactly when some added or changed campaign is of a watched game. */
  method NotifyForTargets(d: Diff, targets: set<string>) returns (msg: Option<string>)
    ensures msg == Notification(d, targets)
    ensures msg.None? <==> forall c <- d.added + d.changed :: c.gameSlug !in targets
  {
    NothingTargeted(d, targets);
    var added := Targeted(d.added, targets);
    var changed := Targeted(d.changed, targets);
    if added == [] && changed == [] {
      return None;
    }
    var lines := [Header];
    if added != [] {
      lines := AppendSection(lines, "New", added, NewCap);
    }
    assert lines == [Header] + Section("New", added, NewCap);
    if changed != [] {
      lines := AppendSection(lines, "Updated", changed, UpdatedCap);
    }
    assert lines == [Header] + Section("New", added, NewCap) + Section("Updated", changed, UpdatedCap);
    var pick := Take(added + changed, 1);
    if pick != [] && pick[0].rewards != [] {
      lines := lines + ["Rewards: " + Take(Join(pick[0].rewards, "; "), RewardsCap)];
    }
    assert lines == NotificationLines(added, changed);
    msg := Some(Join(lines, "\n"));
  }

  predicate IsBulletLine(l: string) {
    StartsWith(l, BulletMark)
  }

  lemma BulletsAreBullets(cs: seq<Campaign>)
    ensures Filter(Bullets(cs), IsBulletLine) == Bullets(cs)
  {
    var bs := Bullets(cs);
    forall i | 0 <= i < |bs| ensures IsBulletLine(bs[i]) {
      var l := bs[i];
      assert l == BulletMark + (cs[i].gameName + ": " + (if cs[i].timeframe == "" then NoDates else cs[i].timeframe));
      assert l[..|BulletMark|] == BulletMark;
    }
    FilterAll(bs, IsBulletLine);
  }

  lemma SectionBullets(heading: string, cs: seq<Campaign>, cap: nat)
    requires heading != [] && heading[0] != BulletMark[0]
    ensures Filter(Section(heading, cs, cap), IsBulletLine) == Bullets(Take(cs, cap))
  {
    if cs != [] {
      var head := heading + ": " + NatToString(|cs|);
      assert !IsBulletLine(head) by { assert head[0] == heading[0]; }
      FilterAppend([head], Bullets(Take(cs, cap)), IsBulletLine);
      FilterSingleton(head, IsBulletLine);
      BulletsAreBullets(Take(cs, cap));
    }
  }

  lemma RewardsLineHasNoBullet(pick: seq<Campaign>)
    ensures Filter(RewardsLine(pick), IsBulletLine) == []
  {
    var r := RewardsLine(pick);
    if r != [] {
      assert !IsBulletLine(r[0]) by { assert r[0][0] == 'R'; }
      FilterSingleton(r[0], IsBulletLine);
    }
  }

  /** A notification starts with its header, and its bullet lines are those
      of the first three targeted added campaigns followed by those of the
      first two targeted changed ones. */
  lemma NotificationBullets(added: seq<Campaign>, changed: seq<Campaign>)
    ensures NotificationLines(added, changed)[0] == Header
    ensures Filter(NotificationLines(added, changed), IsBulletLine)
      == Bullets(Take(added, NewCap)) + Bullets(Take(changed, UpdatedCap))
  {
    var h := [Header];
    var n := Section("New", added, NewCap);
    var u := Section("Updated", changed, UpdatedCap);
    var r := RewardsLine(Take(added + changed, 1));
    var bn, bu := Bullets(Take(added, NewCap)), Bullets(Take(changed, UpdatedCap));
    assert NotificationLines(added, changed) == h + n + u + r;
    assert Filter(h, IsBulletLine) == [] by {
      assert !IsBulletLine(Header) by { assert Header[0] != BulletMark[0]; }
      FilterSingleton(Header, IsBulletLine);
    }
    SectionBullets("New", added, NewCap);
    SectionBullets("Updated", changed, UpdatedCap);
    RewardsLineHasNoBullet(Take(added + changed, 1));
    FilterAppend(h, n, IsBulletLine);
    assert Filter(h + n, IsBulletLine) == bn;
    FilterAppend(h + n, u, IsBulletLine);
    assert Filter(h + n + u, IsBulletLine) == bn + bu;
    FilterAppend(h + n + u, r, IsBulletLine);
  }

  /** At most three "New" and two "Updated" bullets: as many as there are
      targeted campaigns, up to those caps. */
  lemma BulletCount(added: seq<Campaign>, changed: seq<Campaign>)
    ensures |Filter(NotificationLines(added, changed), IsBulletLine)| == Min(3, |added|) + Min(2, |changed|)
  {
    NotificationBullets(added, changed);
  }

  /** The rewards line, when present, is "Rewards: " followed by the first
      200 characters (all of them when there are fewer) of the first picked
      campaign's rewards joined by "; ". */
  lemma RewardsLineBound(pick: seq<Campaign>)
    ensures |RewardsLine(pick)| <= 1
    ensures RewardsLine(pick) != [] <==> pick != [] && pick[0].rewards != []
    ensures forall l <- RewardsLine(pick) ::
      && |l| == |"Rewards: "| + Min(RewardsCap, |Join(pick[0].rewards, "; ")|)
      && StartsWith("Rewards: " + Join(pick[0].rewards, "; "), l)
  {
  }

  /** With no previous snapshot (missing or unreadable file) every campaign
      of a deduplicated snapshot is reported as added, and nothing else. */
  lemma FirstRunAddsAll(next: seq<Campaign>, added: seq<Campaign>)
    requires UniqueIds(next)
    requires IdSet(added) == IdSet(next)
    requires forall c <- added :: c.id in IdMap(next) && IdMap(next)[c.id] == c
    ensures forall c :: c in added <==> c in next
  {
    TabulateUniqueEntries(next);
    forall c <- next ensures c in added {
      assert c.id in IdSet(added);
      var a :| a in added && a.id == c.id;
      var i :| 0 <= i < |next| && next[i] == c;
    }
    forall c <- added ensures c in next {
      IdMapLastWins(next, c.id);
    }
  }

  /** The diff against an empty previous snapshot lists every campaign as
      added, once, and nothing as removed or changed. */
  lemma FirstRunDiff(next: seq<Campaign>, d: Diff)
    requires UniqueIds(next)
    requires IdSet(d.added) == AddedIds([], next)
    requires IdSet(d.removed) == RemovedIds([], next)
    requires IdSet(d.changed) == ChangedIds([], next)
    requires forall c <- d.added :: c.id in IdMap(next) && IdMap(next)[c.id] == c
    ensures d.removed == [] && d.changed == []
    ensures forall c :: c in d.added <==> c in next
    ensures d.added + d.changed == d.added
  {
    IdSetEmpty(d.removed);
    IdSetEmpty(d.changed);
    FirstRunAddsAll(next, d.added);
  }

  /** `main` of the snapshot script: scrape, diff against the previous
      snapshot's campaigns (`None` when the file is missing or unreadable,
      read as an empty list), and compose the notification. */
  method SnapshotRun(rows: seq<Row>, digest: string -> string, scrapedAt: string,
                     previous: Option<seq<Campaign>>, targets: set<string>)
    returns (snap: Snapshot, d: Diff, msg: Option<string>)
    ensures snap.campaigns == Dedup(ParsedRows(rows, digest)) && snap.count == |snap.campaigns|
    ensures IdSet(d.added) == AddedIds(previous.GetOr([]), snap.campaigns)
    ensures IdSet(d.removed) == RemovedIds(previous.GetOr([]), snap.campaigns)
    ensures IdSet(d.changed) == ChangedIds(previous.GetOr([]), snap.campaigns)
    ensures msg == Notification(d, targets)
    ensures previous.None? ==> d.removed == [] && d.changed == [] && forall c :: c in d.added <==> c in snap.campaigns
    ensures previous.None? ==> (msg.None? <==> forall c <- snap.campaigns :: c.gameSlug !in targets)
  {
    snap := ScrapeAllCampaigns(rows, digest, scrapedAt);
    d := DiffCampaigns(previous.GetOr([]), snap.campaigns);
    msg := NotifyForTargets(d, targets);
    if previous.None? {
      FirstRunDiff(snap.campaigns, d);
    }
  }
}
