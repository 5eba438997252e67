/** The periodic drops notifier (`r6_twitch_drops_notifier.py`): items found
    by the checkers are keyed by a hash of "source|title|url"; an item whose
    key is not yet in the persisted seen set is announced and its key added;
    the seen set is written back only when something new was found. The
    Reddit checker keeps the posts whose title mentions a drop. Fetching and
    parsing web pages, the Telegram call and the state file are I/O and are
    left to the caller: the model takes the checkers' items, the Reddit
    posts and the stored seen list as inputs, and returns the messages and
    the state to store. */
module DropsNotifier {
  import opened Util
  import opened Strings
  import opened Patterns

  datatype Item = Item(source: string, title: string, url: string, details: string)

  /** The text `seen_key` hashes for an item. */
  function KeyText(it: Item): string {
    it.source + "|" + it.title + "|" + it.url
  }

  /** The key of an item: the digest (SHA-256 in the script, a parameter
      here) of its source, title and url separated by "|". */
  function SeenKey(digest: string -> string, it: Item): string {
    digest(KeyText(it))
  }

  /** The key depends on nothing but the source, title and url: an item whose
      details change keeps its key. */
  lemma SeenKeyIgnoresDetails(digest: string -> string, it: Item, details: string)
    ensures SeenKey(digest, it.(details := details)) == SeenKey(digest, it)
  {
  }

  /** The seen set and the new items after the checkers' items are scanned in
      order: an item is new when its key is in neither the stored set nor the
      key of an earlier item. */
  function Scan(found: seq<Item>, seen0: set<string>, digest: string -> string): (r: (set<string>, seq<Item>))
  {
    if found == [] then (seen0, [])
    else
      var (seen, unseen) := Scan(found[..|found| - 1], seen0, digest);
      var it := found[|found| - 1];
      var key := SeenKey(digest, it);
      if key in seen then (seen, unseen) else (seen + {key}, unseen + [it])
  }

  function Keys(items: seq<Item>, digest: string -> string): set<string> {
    set it <- items :: SeenKey(digest, it)
  }

  predicate DistinctKeys(items: seq<Item>, digest: string -> string) {
    forall i, j :: 0 <= i < j < |items| ==> SeenKey(digest, items[i]) != SeenKey(digest, items[j])
  }

  lemma KeysSnoc(items: seq<Item>, it: Item, digest: string -> string)
    ensures Keys(items + [it], digest) == Keys(items, digest) + {SeenKey(digest, it)}
  {
    assert forall x <- items + [it] :: x in items || x == it;
  }

  /** The seen set only grows, by exactly the keys of the announced items,
      and ends up holding the key of every item found. */
  lemma {:induction false} ScanSeen(found: seq<Item>, seen0: set<string>, digest: string -> string)
    ensures Scan(found, seen0, digest).0 == seen0 + Keys(Scan(found, seen0, digest).1, digest)
    ensures Keys(found, digest) <= Scan(found, seen0, digest).0
  {
    if found != [] {
      var p, it := found[..|found| - 1], found[|found| - 1];
      ScanSeen(p, seen0, digest);
      KeysSnoc(p, it, digest);
      assert found == p + [it];
      KeysSnoc(Scan(p, seen0, digest).1, it, digest);
    }
  }

  /** The scan announces each key at most once, never a stored key, and only
      items that were found. */
  lemma {:induction false} ScanUnseen(found: seq<Item>, seen0: set<string>, digest: string -> string)
    ensures seen0 !! Keys(Scan(found, seen0, digest).1, digest)
    ensures DistinctKeys(Scan(found, seen0, digest).1, digest)
    ensures forall it <- Scan(found, seen0, digest).1 :: it in found
  {
    if found != [] {
      var p, it := found[..|found| - 1], found[|found| - 1];
      ScanUnseen(p, seen0, digest);
      ScanSeen(p, seen0, digest);
      var seen, unseen := Scan(p, seen0, digest).0, Scan(p, seen0, digest).1;
      var key := SeenKey(digest, it);
      if key !in seen {
        var unseen' := unseen + [it];
        KeysSnoc(unseen, it, digest);
        forall i, j | 0 <= i < j < |unseen'| ensures SeenKey(digest, unseen'[i]) != SeenKey(digest, unseen'[j]) {
          if j == |unseen| {
            assert unseen'[i] in unseen;
          }
        }
      }
    }
  }

  /** The keys of the items, in order. */
  function KeyList(items: seq<Item>, digest: string -> string): (ks: seq<string>)
    ensures |ks| == |items| && forall i :: 0 <= i < |items| ==> ks[i] == SeenKey(digest, items[i])
  {
    if items == [] then [] else KeyList(items[..|items| - 1], digest) + [SeenKey(digest, items[|items| - 1])]
  }

  /** Items with distinct keys have as many keys as items. */
  lemma DistinctKeysCard(items: seq<Item>, digest: string -> string)
    requires DistinctKeys(items, digest)
    ensures |Keys(items, digest)| == |items|
  {
    var ks := KeyList(items, digest);
    forall k <- Keys(items, digest) ensures k in ks {
      var x :| x in items && SeenKey(digest, x) == k;
      var i :| 0 <= i < |items| && items[i] == x;
      assert ks[i] == k;
    }
    assert Keys(items, digest) == set k <- ks;
    DistinctCard(ks);
  }

  /** The loop of `main` over the checkers' items. */
  method CollectNew(found: seq<Item>, seen0: set<string>, digest: string -> string)
    returns (seen: set<string>, unseen: seq<Item>)
    ensures (seen, unseen) == Scan(found, seen0, digest)
    ensures seen == seen0 + Keys(unseen, digest) && |seen| == |seen0| + |unseen|
    ensures seen0 !! Keys(unseen, digest) && DistinctKeys(unseen, digest)
  {
    seen, unseen := seen0, [];
    for i := 0 to |found|
      invariant (seen, unseen) == Scan(found[..i], seen0, digest)
    {
      var it := found[i];
      assert found[..i + 1][..i] == found[..i];
      var key := SeenKey(digest, it);
      if key !in seen {
        seen := seen + {key};
        unseen := unseen + [it];
      }
    }
    assert found[..|found|] == found;
    ScanSeen(found, seen0, digest);
    ScanUnseen(found, seen0, digest);
    DistinctKeysCard(unseen, digest);
  }

  const DetailsCap: nat := 400

  /** The details line: empty when there are no details, otherwise
      "Details: " and the first 400 characters of them. */
  function DetailsLine(details: string): string {
    if details == "" then "" else "Details: " + Take(details, DetailsCap)
  }

  /** The details line is empty exactly when there are no details; otherwise
      it is "Details: " and the first min(400, |details|) characters of them. */
  lemma DetailsLineShape(details: string)
    ensures DetailsLine(details) == "" <==> details == ""
    ensures details != "" ==> |DetailsLine(details)| == |"Details: "| + Min(DetailsCap, |details|)
    ensures details != "" ==> StartsWith("Details: " + details, DetailsLine(details))
  {
  }

  const SignalHeader: string := "\U{1F440} <b>New R6 Drops Signal</b>"
  const SourceLabel: string := "Source: <b>"

  /** The first four lines of an announcement: header, source, title and
      details line (empty when there are no details). */
  function HeadLines(it: Item): seq<string> {
    [SignalHeader, SourceLabel + it.source + "</b>", "Title: " + it.title, DetailsLine(it.details)]
  }

  /** The last line of an announcement: the link. */
  function LinkLine(url: string): string {
    "\U{1F517} " + url
  }

  /** The announcement of one item: its five lines joined by newlines, with
      surrounding whitespace stripped. */
  function Message(it: Item): string {
    Strip(Join(HeadLines(it) + [LinkLine(it.url)], "\n"))
  }

  /** Stripping the announcement only trims the end of its link line, and
      when no field holds a newline, splitting the announcement at newlines
      gives back its five lines. */
  lemma MessageLinesBack(it: Item)
    ensures Message(it) == Join(HeadLines(it) + [TrimEnd(LinkLine(it.url))], "\n")
    ensures '\n' !in it.source && '\n' !in it.title && '\n' !in it.details && '\n' !in it.url ==>
      SplitWhere(Message(it), IsNewline) == HeadLines(it) + [TrimEnd(LinkLine(it.url))]
  {
    var hl, link := HeadLines(it), LinkLine(it.url);
    assert hl[0] == SignalHeader;
    assert link[0] == '\U{1F517}';
    if '\n' !in it.source && '\n' !in it.title && '\n' !in it.details && '\n' !in it.url {
      assert '\n' !in DetailsLine(it.details);
      forall i | 0 <= i < |hl| ensures '\n' !in hl[i] {
      }
    }
    StripJoinedLines(hl, link);
  }

  /** Every announcement starts with the signal header and the source line. */
  lemma MessageHeader(it: Item)
    ensures StartsWith(Message(it), SignalHeader + "\n" + SourceLabel)
  {
    var ls := HeadLines(it) + [TrimEnd(LinkLine(it.url))];
    assert Message(it) == Join(ls, "\n") by {
      MessageLinesBack(it);
    }
    assert |ls| >= 2 && ls[0] == SignalHeader && StartsWith(ls[1], SourceLabel) by {
      assert ls[1] == SourceLabel + it.source + "</b>";
      StartsWithPrefix(SourceLabel, it.source, "</b>");
    }
    JoinStartsWithTwo(ls, "\n", SourceLabel);
  }

  /** A field of a Reddit post as the JSON carries it. */
  datatype JsonText = Missing | Null | Text(s: string)

  datatype Post = Post(title: JsonText, permalink: JsonText, author: JsonText)

  const RedditOrigin: string := "https://www.reddit.com"

  /** What a post contributes: nothing when its title is missing, null, empty
      or without the word "drop"/"drops"; otherwise an item, except that a
      null permalink makes the string concatenation fail, which ends the
      whole check (`Stop`). */
  datatype Outcome = Skip | Emit(item: Item) | Stop

  function PostOutcome(p: Post): Outcome {
    match p.title
    case Text(title) =>
      if title == "" || !HasDropWord(title) then Skip
      else (match p.permalink
        case Null => Stop
        case _ =>
          var permalink := if p.permalink.Text? then p.permalink.s else "";
          var author := match p.author
            case Missing => "unknown"
            case Null => "None"
            case Text(a) => a;
          Emit(Item("r/Rainbow6", title, RedditOrigin + permalink, "Author: u/" + author)))
    case _ => Skip
  }

  /** The items of `check_reddit_r6_drops`: those of the posts before the
      first failing one. */
  function RedditItemsOf(posts: seq<Post>): seq<Item> {
    if posts == [] then []
    else match PostOutcome(posts[0])
      case Skip => RedditItemsOf(posts[1..])
      case Emit(it) => [it] + RedditItemsOf(posts[1..])
      case Stop => []
  }

  /** Every Reddit item has a non-empty title mentioning a drop, the subreddit
      as source, a reddit.com link and an author line. */
  lemma {:induction false} RedditItemsShape(posts: seq<Post>)
    ensures forall it <- RedditItemsOf(posts) ::
      && it.title != "" && HasDropWord(it.title)
      && it.source == "r/Rainbow6"
      && StartsWith(it.url, RedditOrigin)
      && StartsWith(it.details, "Author: u/")
    ensures |RedditItemsOf(posts)| <= |posts|
  {
    if posts != [] {
      RedditItemsShape(posts[1..]);
    }
  }

  /** A post with a drop title and a permalink yields exactly the item whose
      url is the permalink on reddit.com. */
  lemma RedditItemOfPost(title: string, permalink: string, author: string)
    requires title != "" && HasDropWord(title)
    ensures PostOutcome(Post(Text(title), Text(permalink), Text(author)))
      == Emit(Item("r/Rainbow6", title, "https://www.reddit.com" + permalink, "Author: u/" + author))
  {
  }

  /** The loop of `check_reddit_r6_drops` over the posts of the search
      result. */
  method RedditItems(posts: seq<Post>) returns (items: seq<Item>)
    ensures items == RedditItemsOf(posts)
  {
    items := [];
    var i := 0;
    while i < |posts|
      invariant 0 <= i <= |posts|
      invariant items + RedditItemsOf(posts[i..]) == RedditItemsOf(posts)
    {
      var outcome := PostOutcome(posts[i]);
      assert posts[i..][1..] == posts[i + 1..];
      match outcome {
        case Skip =>
        case Emit(it) =>
          items := items + [it];
        case Stop =>
          return;
      }
      i := i + 1;
    }
  }

  /** The item of the Ubisoft drops page check when the page mentions the
      game, with the surrounding text as details. */
  function UbisoftItem(snippet: string): Item {
    Item("Ubisoft Drops", "R6 mentioned on Ubisoft Twitch Drops", "https://www.ubisoft.com/twitchdrops", snippet)
  }

  /** The item of the Twitch campaigns page check when the page mentions the
      game. */
  function TwitchCampaignsItem(snippet: string): Item {
    Item("Twitch Campaigns", "R6 mentioned on Twitch Drops Campaigns", "https://www.twitch.tv/drops/campaigns", snippet)
  }

  /** An item whose key is already stored is never announced. Since the page
      checks' keys ignore the snippet, each page signal is announced at most
      once for as long as the state file is kept. */
  lemma {:induction false} StoredNeverAnnounced(found: seq<Item>, seen0: set<string>, digest: string -> string, it: Item)
    requires SeenKey(digest, it) in seen0
    ensures it !in Scan(found, seen0, digest).1
  {
    ScanUnseen(found, seen0, digest);
  }

  lemma PageSignalOnce(found: seq<Item>, digest: string -> string, before: string, now: string)
    ensures UbisoftItem(now) !in Scan(found, {SeenKey(digest, UbisoftItem(before))}, digest).1
    ensures TwitchCampaignsItem(now) !in Scan(found, {SeenKey(digest, TwitchCampaignsItem(before))}, digest).1
  {
    StoredNeverAnnounced(found, {SeenKey(digest, UbisoftItem(before))}, digest, UbisoftItem(now));
    StoredNeverAnnounced(found, {SeenKey(digest, TwitchCampaignsItem(before))}, digest, TwitchCampaignsItem(now));
  }

  /** The items of the three checkers in the order `main` runs them: the
      Ubisoft page (`Some(snippet)` when it mentions the game), the Twitch
      campaigns page, and the Reddit search. */
  function CheckerItems(ubisoft: Option<string>, twitch: Option<string>, posts: seq<Post>): seq<Item> {
    (if ubisoft.Some? then [UbisoftItem(ubisoft.value)] else [])
    + (if twitch.Some? then [TwitchCampaignsItem(twitch.value)] else [])
    + RedditItemsOf(posts)
  }

  /** The announcement loop of `main`: one message per new item, in order. */
  method Announce(items: seq<Item>) returns (messages: seq<string>)
    ensures |messages| == |items|
    ensures forall i :: 0 <= i < |items| ==> messages[i] == Message(items[i])
  {
    messages := MapSeq(Message, items);
  }

  /** `main`: scan the checkers' items against the stored seen list (`None`
      when the state file is missing or unreadable), announce each new item,
      and store the grown seen set only when there were new items. */
  method DropsRun(ubisoft: Option<string>, twitch: Option<string>, posts: seq<Post>,
                  stored: Option<seq<string>>, digest: string -> string)
    returns (messages: seq<string>, saved: Option<set<string>>)
    ensures var seen0 := set k <- stored.GetOr([]);
      var r := Scan(CheckerItems(ubisoft, twitch, posts), seen0, digest);
      && |messages| == |r.1|
      && (forall i :: 0 <= i < |r.1| ==> messages[i] == Message(r.1[i]))
      && (saved.Some? <==> r.1 != [])
      && (saved.Some? ==> saved.value == r.0 && seen0 < r.0)
  {
    var seen0 := set k <- stored.GetOr([]);
    var reddit := RedditItems(posts);
    var found := (if ubisoft.Some? then [UbisoftItem(ubisoft.value)] else [])
      + (if twitch.Some? then [TwitchCampaignsItem(twitch.value)] else []) + reddit;
    var seen, unseen := CollectNew(found, seen0, digest);
    messages := [];
    saved := None;
    if unseen != [] {
      messages := Announce(unseen);
      saved := Some(seen);
      assert SeenKey(digest, unseen[0]) in seen - seen0;
    }
  }
}
