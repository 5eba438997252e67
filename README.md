# DropNoti core, modelled in Dafny

DropNoti is a set of three scripts that watch Twitch drop campaigns for
Rainbow Six Siege and other games, and send Telegram messages when something
new shows up:

- `twitch_all_campaigns_snapshot.py` scrapes the Twitch drops campaigns page.
  It reads each row's text and links and parses the row into a campaign
  record. Each record gets a content-derived id (a SHA-256 prefix over the
  slug, the timeframe and the rewards). Records are deduplicated by id, and
  the snapshot is diffed against the previous one into added, removed and
  changed campaigns. One digest message is composed for the watched game
  slugs.
- `r6_twitch_drops_notifier.py` collects "drop signals" from two web pages
  and a Reddit search. It announces each signal whose hash key is not yet in
  a persisted seen set.
- `r6_drops_badge_watcher.py` reads the stream cards of the Siege category
  page. It reports each card showing a "Drops" badge once per link, with at
  most ten messages per run.

The model keeps each script's structure. Parsing, hashing inputs, filtering
and message text are functions. The loops the scripts run (row scan, dedup,
diff, message building, seen-set scans) are methods with loop invariants,
each proved equal to a specification function. The properties the scripts
promise are lemmas about those functions.

Modules, one per file:

| file | module | models |
|---|---|---|
| `util.dfy` | `Util` | Option, `Take` (slicing `[:n]`), first-match search, filtering, set enumeration, in-order map |
| `strings.dfy` | `Strings` | `str.strip`, `str.lower`, `str.split()`/`" ".join`, splitting on a character class, `str.title`, `str.replace`, `split("/")[-1]` |
| `patterns.dfy` | `Patterns` | the regular expressions `DROP_RE`, `DROPS_TEXT`, `TIME_RE`, `WATCH_RE` and `\bdrops?\b`, as explicit searches |
| `campaigns.dfy` | `Campaigns` | `row_text`, `row_links`, `extract_game_from_links`, `parse_campaign_row` and the id |
| `snapshots.dfy` | `Snapshots` | the dedup loop and `scrape_all_campaigns` |
| `diffs.dfy` | `Diffs` | `diff_campaigns` |
| `notify.dfy` | `Notify` | `TARGET_SLUGS`, `notify_for_targets`, `main` of the snapshot script |
| `drops_notifier.dfy` | `DropsNotifier` | `seen_key`, the Reddit check, the page-check items, message format, `main` |
| `badge_watcher.dfy` | `BadgeWatcher` | the card loop, message composition and `main` |

Inputs the scripts get from the outside world are parameters of the model:
- the rows and cards as the browser reads them (text or a failed read, and
  `href` attributes or their absence);
- the Reddit posts;
- the stored snapshot or seen list (`None` when the file is missing or does
  not parse);
- the environment value of `TARGET_SLUGS`;
- the SHA-256 hex digest, as a function `digest: string -> string`;
- the timestamp.

Outputs are returned: the messages that would be sent, and the state that
would be written.

Some consequences of the code, proved in the model:
- **Lines of a row.** `row_text` (line 79) collapses every whitespace run,
  line breaks included, into one space, so the line list of a scraped row
  is always the whole text as one line (`Campaigns.CollapsedTextIsOneLine`).
  The title then always equals the raw text, there is at most one reward,
  and the timeframe is the whole text or empty (`Campaigns.NormalisedRowFields`).
- **Timeframe split.** `startRaw` is everything before the first `" - "` in
  that whole text, not just the start date.
- **Header line.** The digest message's first line is fixed; the counts are
  on the "New: n" and "Updated: n" lines.
- **When `changed` is non-empty.** The id basis joins the rewards with `,`
  without escaping, so a reward holding a comma and the same reward cut in
  two at the comma get one id whatever the hash (`Campaigns.IdBasisAmbiguous`,
  `Diffs.ChangedIsReachable`). Records this scraper produces hold at most one
  reward (`Snapshots.ParsedRowsAreOneLine`), so two scraped snapshots cannot
  meet this case; it is reached when the stored snapshot holds records with
  several rewards, such as a file written by an older version or edited by
  hand. The `|` between slug, timeframe and rewards is not escaped either,
  and a slug may hold `|` (the link pattern `[^/?#]+` admits it). So a slug
  `a|b` with timeframe `t` and a slug `a` with timeframe `b|t` also share
  one id whatever the hash (`Campaigns.IdBasisSlugAmbiguous`); scraped
  records reach this case when a category link and a row's time line carry
  a `|`. Otherwise `changed` needs two different bases with the same
  16-character digest prefix.

## Model

| member | source | states |
|---|---|---|
| Strings.Strip | twitch_all_campaigns_snapshot.py:19 | the result neither starts nor ends with whitespace and is no longer than the input; an already stripped string is unchanged |
| Strings.StripAround | twitch_all_campaigns_snapshot.py:19 | the input is a whitespace prefix, then the stripped text, then a whitespace suffix |
| Strings.StripIdempotent | twitch_all_campaigns_snapshot.py:19 | stripping twice equals stripping once |
| Strings.Lower | twitch_all_campaigns_snapshot.py:19 | same length; each character is the lower-case form of the input's character |
| Strings.LowerIdempotent | twitch_all_campaigns_snapshot.py:19 | lower-casing twice equals lower-casing once |
| Strings.SplitWhere | twitch_all_campaigns_snapshot.py:20 | `split(",")` yields at least one part, no part holds the separator, and the first part is the input up to the first separator |
| Strings.SplitWhereJoin | twitch_all_campaigns_snapshot.py:20 | splitting at a single separator character and joining the parts with it gives the input back |
| Strings.JoinSplitWhere | r6_drops_badge_watcher.py:104 | parts without any separator character, joined with one separator character and split at separators, come back unchanged |
| Strings.WordsOfStrip | twitch_all_campaigns_snapshot.py:19 | stripping keeps the words of the text |
| Strings.WordsOfSplit | twitch_all_campaigns_snapshot.py:113 | splitting at whitespace characters keeps the words of the text, in order |
| Strings.CollapseIsCollapsed | twitch_all_campaigns_snapshot.py:79 | `" ".join(s.split())` has no line break, no leading or trailing space and no two whitespace characters in a row |
| Strings.CollapseIdempotent | twitch_all_campaigns_snapshot.py:79 | collapsing whitespace twice equals collapsing it once |
| Strings.TitleCaseAt | twitch_all_campaigns_snapshot.py:151 | `str.title`: each character depends only on itself and its predecessor; non-letters are kept, a letter after a letter is lower-cased, any other letter upper-cased |
| Strings.LastSegment | r6_drops_badge_watcher.py:96 | `split("/")[-1]`: a suffix of the input with no "/", preceded by "/" when shorter than the input |
| Patterns.HasWordCaseBlind | twitch_all_campaigns_snapshot.py:29 | a `\bw\b` search with `re.I` answers the same on the text and on its lower-case form |
| Patterns.DropWordCaseBlind | r6_drops_badge_watcher.py:15 | `DROP_RE` (also the Reddit title filter) and `DROPS_TEXT` ignore letter case, and a text with the word "drops" passes `DROP_RE` |
| Patterns.TimeTokenCaseBlind | twitch_all_campaigns_snapshot.py:27 | `TIME_RE` answers the same on the text and on its lower-case form |
| Patterns.TimeTokenInside | twitch_all_campaigns_snapshot.py:27 | `TIME_RE` has no word boundaries: a text with a token still matches inside any surrounding text |
| Patterns.WatchHoursCaseBlind | twitch_all_campaigns_snapshot.py:28 | `WATCH_RE` answers the same on the text and on its lower-case form |
| Patterns.WatchHoursExample | twitch_all_campaigns_snapshot.py:28 | "Watch 2 hours" matches `WATCH_RE` |
| Strings.NatToString | twitch_all_campaigns_snapshot.py:245 | the decimal rendering of a count is non-empty, all digits, denotes the count, and has no leading zero |
| Campaigns.RowText | twitch_all_campaigns_snapshot.py:71-79 | the row text (empty when reading fails) has the same words as what was read, and is collapsed: one line, single spaces, nothing to collapse further |
| Campaigns.ResolveHref | twitch_all_campaigns_snapshot.py:86-88 | a link starting with "/" gets the Twitch origin prepended, any other link is unchanged; the result never starts with "/" and ends with the input |
| Campaigns.RowLinks | twitch_all_campaigns_snapshot.py:81-92 | one link per anchor in order, a missing `href` read as "", each resolved |
| Campaigns.SlugFrom | twitch_all_campaigns_snapshot.py:97 | the search finds a slug iff some position matches the directory pattern, and returns the slug at the first matching position |
| Campaigns.GameFromLinks | twitch_all_campaigns_snapshot.py:94-101 | no slug iff no link matches; otherwise the lower-case, non-empty slug of the first matching link |
| Campaigns.Lines | twitch_all_campaigns_snapshot.py:113 | every line is non-empty, stripped and free of line breaks, and the lines hold exactly the words of the text, in order |
| Campaigns.LinesOfJoin | twitch_all_campaigns_snapshot.py:113 | non-empty stripped lines without line breaks, joined by newlines, are read back as exactly those lines (so text is cut at line breaks and nowhere else) |
| Campaigns.StrippedNonEmptyWords | twitch_all_campaigns_snapshot.py:113 | stripping the pieces and dropping the blank ones keeps their words |
| Campaigns.SlugToName | twitch_all_campaigns_snapshot.py:151 | the fallback game name has the slug's length; each hyphen becomes a space and every other character is title-cased by its predecessor in the slug |
| Campaigns.SplitTimeframe | twitch_all_campaigns_snapshot.py:145-156 | without " - " both parts are absent |
| Campaigns.SplitTimeframeShape | twitch_all_campaigns_snapshot.py:145-156 | a part that is present is non-empty and has no surrounding whitespace |
| Campaigns.SplitTimeframeAt | twitch_all_campaigns_snapshot.py:147-148 | at the first " - ", start and end are the stripped text before and after it, absent when empty |
| Campaigns.CampaignId | twitch_all_campaigns_snapshot.py:161-162 | the id is the first min(16, digest length) characters of the digest of the basis |
| Campaigns.CampaignOf | twitch_all_campaigns_snapshot.py:103-163 | no record iff the text is empty, shorter than 20 or no link has a slug; a record has that slug, the raw text, a non-empty game name, the id of (slug, timeframe, rewards) and the timeframe's split |
| Campaigns.GuessGameName | twitch_all_campaigns_snapshot.py:115-120 | the loop returns the first of the first four lines of at most 50 characters without "campaign", or "" |
| Campaigns.FindTimeframe | twitch_all_campaigns_snapshot.py:122-127 | the loop returns the first line with a date or zone token, or "" |
| Campaigns.CollectRewards | twitch_all_campaigns_snapshot.py:129-133 | the loop keeps exactly the watch-hours lines and the short drop lines, in order |
| Campaigns.FindTitle | twitch_all_campaigns_snapshot.py:135-143 | the loop returns the first title-like line among the first six, else the first line; it is one of the lines when there are any |
| Campaigns.ParseCampaign | twitch_all_campaigns_snapshot.py:103-163 | the parser built from those loops returns exactly `CampaignOf`, and so `None` in the three rejection cases |
| Campaigns.CollapsedTextIsOneLine | twitch_all_campaigns_snapshot.py:104-113 | a collapsed non-empty text splits into exactly one line, itself |
| Campaigns.OneLineHeuristics | twitch_all_campaigns_snapshot.py:115-143 | on a single line: the name, timeframe and rewards are that line or empty according to their tests, and the title is the line |
| Campaigns.NormalisedRowFields | twitch_all_campaigns_snapshot.py:104-163 | for a row read by `row_text`, the title equals the raw text, rewards hold at most that text, the timeframe is that text or "", and the name is the text or the slug-derived name |
| Campaigns.IdIgnoresPresentation | twitch_all_campaigns_snapshot.py:161-162 | two parsed records with equal slug, timeframe and rewards have equal ids, whatever their other fields |
| Campaigns.IdBasisAmbiguous | twitch_all_campaigns_snapshot.py:161-162 | for any reward list with a reward `x + "," + y`, cutting that reward into `x` and `y` gives a longer list with the same id |
| Campaigns.IdBasisSlugAmbiguous | twitch_all_campaigns_snapshot.py:161-162 | for slugs `a` and `b`, `a` and `b` joined by a vertical bar form a slug too, and that slug with timeframe `t` has the same id as slug `a` with timeframe `b`, a vertical bar, `t` |
| Snapshots.TabulateWellFormed | twitch_all_campaigns_snapshot.py:205-207 | the id-keyed dictionary has distinct keys in insertion order, each entry stored under its own id, and its key set is the set of ids |
| Snapshots.TabulateLastWins | twitch_all_campaigns_snapshot.py:205-207 | the entry for an id is the last item with that id |
| Snapshots.TabulateUniqueKeys | twitch_all_campaigns_snapshot.py:205-207 | when ids are unique, the dictionary keys are the ids in item order |
| Snapshots.TabulateUniqueEntries | twitch_all_campaigns_snapshot.py:205-207 | when ids are unique, every item is stored unchanged under its own id |
| Snapshots.DedupIds | twitch_all_campaigns_snapshot.py:205-213 | the deduplicated list has unique ids, the same id set as the input, and one element per distinct id |
| Snapshots.DedupLastWins | twitch_all_campaigns_snapshot.py:205-212 | each kept record is the last input record with its id |
| Snapshots.DedupOfUnique | twitch_all_campaigns_snapshot.py:205-212 | a list whose ids are already unique is kept as it is, order included |
| Snapshots.DedupIdempotent | twitch_all_campaigns_snapshot.py:205-212 | deduplicating twice equals deduplicating once |
| Snapshots.DedupById | twitch_all_campaigns_snapshot.py:205-213 | the dictionary loop yields the deduplicated list, with unique ids, the input's id set and one record per id |
| Snapshots.ParsedRowsAreOneLine | twitch_all_campaigns_snapshot.py:189-201 | every scraped record has title = raw text, at most one reward, a valid slug and a text of at least 20 characters |
| Snapshots.ScrapeAllCampaigns | twitch_all_campaigns_snapshot.py:165-214 | the snapshot holds the deduplicated parsed rows with unique ids, `count` equals their number and the number of distinct ids, and the given time is stored |
| Diffs.IdMap | twitch_all_campaigns_snapshot.py:225-226 | the id map's keys are the snapshot's ids and each value carries its key as id |
| Diffs.IdMapLastWins | twitch_all_campaigns_snapshot.py:225-226 | the map value for an id is the last record with that id |
| Diffs.ChangedIds | twitch_all_campaigns_snapshot.py:229-232 | changed ids are ids of both snapshots |
| Diffs.DiffIdsDisjoint | twitch_all_campaigns_snapshot.py:224-233 | added, removed and changed ids are pairwise disjoint |
| Diffs.DiffOfSelfIds | twitch_all_campaigns_snapshot.py:224-233 | a snapshot diffed against itself has no added, removed or changed ids |
| Diffs.ListValues | twitch_all_campaigns_snapshot.py:227-228 | listing map values over a key set yields one record per key, with exactly those ids |
| Diffs.DifferingList | twitch_all_campaigns_snapshot.py:230-232 | a key is kept iff it is in the list and its two versions differ in timeframe or rewards |
| Diffs.ListChanged | twitch_all_campaigns_snapshot.py:229-232 | the loop collects the new versions of exactly the common ids whose timeframe or rewards differ, once each |
| Diffs.ChangedValues | twitch_all_campaigns_snapshot.py:229-232 | the collected records have exactly the differing ids, unique, each the new map's record |
| Diffs.DiffCampaigns | twitch_all_campaigns_snapshot.py:224-233 | added = new-only ids, removed = old-only ids, changed = common ids with differing timeframe or rewards; each list has unique ids and holds the map records; the lists are pairwise disjoint; diffing a snapshot with itself gives three empty lists |
| Diffs.NoChangeUnderInjectiveIds | twitch_all_campaigns_snapshot.py:229-232 | if ids were an injective function of (slug, timeframe, rewards), nothing could be changed |
| Diffs.ChangedIsReachable | twitch_all_campaigns_snapshot.py:229-232 | two records with rewards ["a,b"] and ["a", "b"] share an id and the diff reports it as changed |
| Notify.NormalisedTargetIsSlug | twitch_all_campaigns_snapshot.py:19-21 | a part that is not blank becomes a non-empty, stripped, lower-case slug |
| Notify.Targets | twitch_all_campaigns_snapshot.py:19-22 | each watched slug made from the non-blank parts is non-empty, stripped and lower case |
| Notify.ParseTargets | twitch_all_campaigns_snapshot.py:18-22 | every watched slug is non-empty, stripped and lower case |
| Notify.ParseTargetsSingle | twitch_all_campaigns_snapshot.py:18-22 | a value without commas yields its normalised form, or nothing when blank |
| Notify.ParseTargetsJoin | twitch_all_campaigns_snapshot.py:17-22 | comma-free parts joined by commas (as in "tom-clancys-rainbow-six-siege,hades-ii") yield exactly the stripped, lower-cased non-blank parts |
| Notify.ParseTargetsDefault | twitch_all_campaigns_snapshot.py:20 | when unset, the watch set is exactly {"tom-clancys-rainbow-six-siege"} |
| Notify.NothingTargeted | twitch_all_campaigns_snapshot.py:236-241 | both filtered lists are empty iff no added or changed record has a watched slug, and then there is no message |
| Notify.AppendSection | twitch_all_campaigns_snapshot.py:244-251 | appending a non-empty section adds its count line and its capped bullets |
| Notify.NotifyForTargets | twitch_all_campaigns_snapshot.py:235-257 | the message is the composed notification, and there is none iff no added or changed record is watched |
| Notify.BulletsAreBullets | twitch_all_campaigns_snapshot.py:247 | every entry line starts with the bullet mark |
| Notify.SectionBullets | twitch_all_campaigns_snapshot.py:244-251 | the bullet lines of a section are those of its first `cap` records |
| Notify.RewardsLineHasNoBullet | twitch_all_campaigns_snapshot.py:253-255 | the rewards line is not a bullet line |
| Notify.NotificationBullets | twitch_all_campaigns_snapshot.py:243-255 | the first line is the header; the bullet lines are the first three added then the first two changed |
| Notify.BulletCount | twitch_all_campaigns_snapshot.py:244-251 | there are min(3, added) + min(2, changed) bullet lines |
| Notify.RewardsLineBound | twitch_all_campaigns_snapshot.py:253-255 | at most one rewards line, present iff the first of added+changed has rewards; it starts with "Rewards: " and is exactly 9 + min(200, length of the rewards joined by "; ") characters long |
| Notify.FirstRunAddsAll | twitch_all_campaigns_snapshot.py:216-233 | against an empty previous snapshot, the added records are exactly the new snapshot's |
| Notify.FirstRunDiff | twitch_all_campaigns_snapshot.py:216-233 | a missing or unreadable previous snapshot makes every campaign added and none removed or changed |
| Notify.SnapshotRun | twitch_all_campaigns_snapshot.py:259-265 | the run stores the scraped snapshot, diffs it against the previous one (empty when absent) and returns the notification; on a first run everything is added, and a message is sent iff some campaign is watched |
| DropsNotifier.SeenKeyIgnoresDetails | r6_twitch_drops_notifier.py:122 | an item's key depends only on source, title and url, not on details |
| DropsNotifier.ScanSeen | r6_twitch_drops_notifier.py:119-125 | the seen set grows by exactly the new items' keys and ends up holding every found item's key |
| DropsNotifier.ScanUnseen | r6_twitch_drops_notifier.py:119-125 | no new item's key was stored before, new items have pairwise distinct keys, and each was found |
| DropsNotifier.CollectNew | r6_twitch_drops_notifier.py:116-125 | the loop computes the scan; the seen set grows by exactly one key per new item, and no key is announced twice or after being stored |
| DropsNotifier.DetailsLineShape | r6_twitch_drops_notifier.py:133 | the details line is empty iff the details are; otherwise it is a prefix of "Details: " + details of exactly 9 + min(400, length of details) characters |
| DropsNotifier.MessageHeader | r6_twitch_drops_notifier.py:129-135 | after stripping, every message still starts with the signal header and the source line |
| DropsNotifier.MessageLinesBack | r6_twitch_drops_notifier.py:129-135 | the stripped message is the five lines joined by newlines with only the link line's trailing whitespace removed; when no field holds a newline, splitting the message at newlines gives those lines back |
| DropsNotifier.RedditItemsShape | r6_twitch_drops_notifier.py:98-110 | every Reddit item has a non-empty title with the word drop or drops, source "r/Rainbow6", a reddit.com url and an author line; there are at most as many items as posts |
| DropsNotifier.RedditItemOfPost | r6_twitch_drops_notifier.py:100-110 | a post with a drop title yields the item whose url is "https://www.reddit.com" + permalink |
| DropsNotifier.RedditItems | r6_twitch_drops_notifier.py:91-113 | the loop returns the items of the posts before the first one whose null permalink aborts the check |
| DropsNotifier.StoredNeverAnnounced | r6_twitch_drops_notifier.py:120-125 | an item whose key is already stored is never announced |
| DropsNotifier.PageSignalOnce | r6_twitch_drops_notifier.py:48-89 | a page signal announced once is not announced again when only its snippet changed |
| DropsNotifier.Announce | r6_twitch_drops_notifier.py:127-136 | one message per new item, in order |
| DropsNotifier.DropsRun | r6_twitch_drops_notifier.py:115-140 | the run announces exactly the scan's new items; state is saved iff there are some, and the saved set is the grown seen set, strictly larger than the stored one |
| BadgeWatcher.ScanSkips | r6_drops_badge_watcher.py:72-80 | an unreadable or empty card, or one without "drops", leaves the seen set and the findings unchanged |
| BadgeWatcher.ScanSeen | r6_drops_badge_watcher.py:69-89 | the seen set grows by exactly the found links' keys and holds the key of every card showing drops |
| BadgeWatcher.ScanSightings | r6_drops_badge_watcher.py:80-89 | no found link was seen before and no link is found twice |
| BadgeWatcher.ScanOrigin | r6_drops_badge_watcher.py:80-88 | each finding is the resolved link and text of a card showing drops |
| BadgeWatcher.SightingsAbsolute | r6_drops_badge_watcher.py:81-83 | every found link is resolved (does not start with "/") and every found text is non-empty |
| BadgeWatcher.ScanCards | r6_drops_badge_watcher.py:69-89 | the loop computes the scan; the seen set grows by one key per finding, with no stored or repeated key |
| BadgeWatcher.ChannelShape | r6_drops_badge_watcher.py:96 | the channel has no "/", is the text after the link's last "/", and is the whole link when it has none |
| BadgeWatcher.SnippetShape | r6_drops_badge_watcher.py:97 | the snippet is the first min(160, n) characters of the n-character collapsed text, has no line break, and is the whole collapsed text when that is short enough |
| BadgeWatcher.SightingMessageLines | r6_drops_badge_watcher.py:96-104 | for a link without a newline, the message splits at newlines into exactly its four lines: header, channel, link and snippet |
| BadgeWatcher.FourLinesBack | r6_drops_badge_watcher.py:98-104 | four lines without a newline, joined by newlines, split back into themselves |
| BadgeWatcher.Announce | r6_drops_badge_watcher.py:93-104 | one message for each of the first ten findings, in order |
| BadgeWatcher.BadgeRun | r6_drops_badge_watcher.py:44-107 | at most ten messages for the run's findings; state is saved iff something was found, and the saved set holds every finding's key, those past the cap included |

## Left out

- Browser automation (Playwright): page loading, scrolling, expanding rows,
  locating rows, anchors and cards. The model starts from what those steps
  read. A failed read of a row's or card's text is `None`. The locator
  filters that choose anchors and cards are not modelled.
- HTTP and Telegram: `tg_send` and the requests. Sending is returned as the
  message text. The Ubisoft and Twitch page checks are reduced to the item
  they produce when the page mentions the game (`DropsNotifier.UbisoftItem`,
  `DropsNotifier.TwitchCampaignsItem`). Their HTML text extraction and the
  regex that picks the snippet are not modelled; the snippet is an input.
- Files and secrets:
  - `restore_state_from_secret` and its startup abort are not modelled.
  - Writing the snapshot and state files is returned as the value to write.
  - Reading them is an `Option`, where `None` means missing or unparsable.
    Other keys of the drops state document are not modelled.
- SHA-256 is a parameter `digest`. The model states what follows for every
  digest function. It does not model that the real one is 64 hex digits.
- `Campaigns.CampaignId`: states a length of min(16, digest length), not
  exactly 16, because the digest is a parameter of any length.
- Regular expressions and case:
  - They are modelled as explicit searches over ASCII: `\w` and `\d` are
    ASCII classes, and `re.I` folds ASCII letters only.
  - `str.strip`, `str.split` and `\s` use Python's whitespace set
    (`Strings.IsSpace`, the characters `str.isspace` accepts). `str.lower`,
    `str.title`, `\w` and `\d` work on ASCII letters and digits only;
    Python's Unicode-wide letters, digits and case mappings are not modelled.
- `Diffs.DiffCampaigns`: the order of `added`, `removed` and `changed` is not
  stated. Python takes it from iterating set operations, which is
  unspecified. The model enumerates the sets in an arbitrary order.
- `DropsNotifier.DropsRun` and `BadgeWatcher.BadgeRun`: the seen list is
  saved as a set. The order `list(seen)` writes is unspecified.
- BadgeWatcher.BadgeRun: in this script's `tg_send` (r6_drops_badge_watcher.py:17-26)
  the `requests.post` call of line 22 sits before the `try` of line 23, so a
  network error raises out of `main` at the send of line 104, before
  `save_seen` at line 105. The remaining messages are then not sent and the
  seen set is not saved. The model treats every send as completing and does
  not model that abort. The drops notifier's `tg_send` wraps its request in
  `try`, so it has no such path.
- JSON shapes: a Reddit post's `title`, `permalink` and `author` are each
  missing, null or a string. Other JSON types (numbers, objects), and a
  missing `data`/`children` level, are not modelled.
- The timestamp `scraped_at` is an input. Formatting it from the clock is
  not modelled.
