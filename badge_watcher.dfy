/** The drops badge watcher (`r6_drops_badge_watcher.py`): the stream cards
    of the game's Twitch category page are read in page order; a card whose
    text carries the word "drops" is reported once per link, keyed by a hash
    of the link; at most ten messages are sent per run, but every reported
    card is remembered, and the seen set is written back only when something
    was reported. Driving the browser, the Telegram call and the state file
    are left to the caller: the model takes the cards as read and the stored
    seen list as inputs. */
module BadgeWatcher {
  import opened Util
  import opened Strings
  import opened Patterns
  import Campaigns

  /** A stream card as the page gives it: its text (`None` when reading it
      failed) and its `href` attribute (`None` when absent). */
  datatype Card = Card(text: Option<string>, href: Option<string>)

  /** A reported card: its absolute link and its text. */
  datatype Sighting = Sighting(href: string, text: string)

  /** The card's text is readable, non-empty and has the word "drops". */
  predicate ShowsDrops(c: Card) {
    c.text.Some? && c.text.value != "" && HasDropsWord(c.text.value)
  }

  /** The card's link, made absolute when it is site-relative. */
  function CardLink(c: Card): string {
    Campaigns.ResolveHref(c.href.GetOr(""))
  }

  function LinkKey(digest: string -> string, s: Sighting): string {
    digest(s.href)
  }

  /** The seen set and the sightings after the cards are scanned in order. */
  function Scan(cards: seq<Card>, seen0: set<string>, digest: string -> string): (set<string>, seq<Sighting>)
  {
    if cards == [] then (seen0, [])
    else
      var r := Scan(cards[..|cards| - 1], seen0, digest);
      var c := cards[|cards| - 1];
      if !ShowsDrops(c) then r
      else
        var href := CardLink(c);
        if digest(href) in r.0 then r
        else (r.0 + {digest(href)}, r.1 + [Sighting(href, c.text.value)])
  }

  function Keys(found: seq<Sighting>, digest: string -> string): set<string> {
    set s <- found :: LinkKey(digest, s)
  }

  predicate DistinctKeys(found: seq<Sighting>, digest: string -> string) {
    forall i, j :: 0 <= i < j < |found| ==> LinkKey(digest, found[i]) != LinkKey(digest, found[j])
  }

  lemma KeysSnoc(found: seq<Sighting>, s: Sighting, digest: string -> string)
    ensures Keys(found + [s], digest) == Keys(found, digest) + {LinkKey(digest, s)}
  {
    assert forall x <- found + [s] :: x in found || x == s;
  }

  /** A card that is unreadable, empty or without the word leaves the seen set
      and the sightings as they were. */
  lemma ScanSkips(cards: seq<Card>, c: Card, seen0: set<string>, digest: string -> string)
    requires !ShowsDrops(c)
    ensures Scan(cards + [c], seen0, digest) == Scan(cards, seen0, digest)
  {
    assert (cards + [c])[..|cards|] == cards;
  }

  /** The seen set grows by exactly the keys of the sightings and ends up
      holding the key of every card that shows drops. */
  lemma {:induction false} ScanSeen(cards: seq<Card>, seen0: set<string>, digest: string -> string)
    ensures Scan(cards, seen0, digest).0 == seen0 + Keys(Scan(cards, seen0, digest).1, digest)
    ensures forall c <- cards :: ShowsDrops(c) ==> digest(CardLink(c)) in Scan(cards, seen0, digest).0
  {
    if cards != [] {
      var p, c := cards[..|cards| - 1], cards[|cards| - 1];
      ScanSeen(p, seen0, digest);
      assert cards == p + [c];
      if ShowsDrops(c) {
        KeysSnoc(Scan(p, seen0, digest).1, Sighting(CardLink(c), c.text.value), digest);
      }
    }
  }

  /** No link is reported twice and none whose key was stored. */
  lemma {:induction false} ScanSightings(cards: seq<Card>, seen0: set<string>, digest: string -> string)
    ensures seen0 !! Keys(Scan(cards, seen0, digest).1, digest)
    ensures DistinctKeys(Scan(cards, seen0, digest).1, digest)
  {
    if cards != [] {
      var p, c := cards[..|cards| - 1], cards[|cards| - 1];
      ScanSightings(p, seen0, digest);
      ScanSeen(p, seen0, digest);
      var r := Scan(p, seen0, digest);
      var key := digest(CardLink(c));
      if ShowsDrops(c) && key !in r.0 {
        var s := Sighting(CardLink(c), c.text.value);
        var found := r.1 + [s];
        assert Scan(cards, seen0, digest) == (r.0 + {key}, found);
        assert LinkKey(digest, s) == key;
        KeysSnoc(r.1, s, digest);
        forall i, j | 0 <= i < j < |found| ensures LinkKey(digest, found[i]) != LinkKey(digest, found[j]) {
          assert found[i] == r.1[i];
          if j == |r.1| {
            assert LinkKey(digest, r.1[i]) in Keys(r.1, digest);
          } else {
            assert found[j] == r.1[j];
          }
        }
      } else {
        assert Scan(cards, seen0, digest) == r;
      }
    }
  }

  /** Each sighting is the resolved link and the text of a card that shows
      drops. */
  lemma {:induction false} ScanOrigin(cards: seq<Card>, seen0: set<string>, digest: string -> string)
    ensures forall s <- Scan(cards, seen0, digest).1 ::
      exists c <- cards :: ShowsDrops(c) && s == Sighting(CardLink(c), c.text.value)
  {
    if cards != [] {
      var p, c := cards[..|cards| - 1], cards[|cards| - 1];
      ScanOrigin(p, seen0, digest);
      assert forall x <- p :: x in cards;
      var r := Scan(p, seen0, digest);
      forall s <- Scan(cards, seen0, digest).1
        ensures exists d <- cards :: ShowsDrops(d) && s == Sighting(CardLink(d), d.text.value)
      {
        if s !in r.1 {
          assert c in cards && ShowsDrops(c) && s == Sighting(CardLink(c), c.text.value);
        }
      }
    }
  }

  /** The keys of the sightings, in order. */
  function KeyList(found: seq<Sighting>, digest: string -> string): (ks: seq<string>)
    ensures |ks| == |found| && forall i :: 0 <= i < |found| ==> ks[i] == LinkKey(digest, found[i])
  {
    if found == [] then [] else KeyList(found[..|found| - 1], digest) + [LinkKey(digest, found[|found| - 1])]
  }

  /** Sightings with distinct keys have as many keys as sightings. */
  lemma DistinctKeysCard(found: seq<Sighting>, digest: string -> string)
    requires DistinctKeys(found, digest)
    ensures |Keys(found, digest)| == |found|
  {
    var ks := KeyList(found, digest);
    forall k <- Keys(found, digest) ensures k in ks {
      var x :| x in found && LinkKey(digest, x) == k;
      var i :| 0 <= i < |found| && found[i] == x;
      assert ks[i] == k;
    }
    assert Keys(found, digest) == set k <- ks;
    DistinctCard(ks);
  }

  /** Every reported link is absolute: a site-relative `href` has been
      resolved against the Twitch origin. */
  lemma {:induction false} SightingsAbsolute(cards: seq<Card>, seen0: set<string>, digest: string -> string)
    ensures forall s <- Scan(cards, seen0, digest).1 :: !StartsWith(s.href, "/") && s.text != ""
  {
    ScanOrigin(cards, seen0, digest);
  }

  /** The card loop of `main`. */
  method ScanCards(cards: seq<Card>, seen0: set<string>, digest: string -> string)
    returns (seen: set<string>, found: seq<Sighting>)
    ensures (seen, found) == Scan(cards, seen0, digest)
    ensures seen == seen0 + Keys(found, digest) && |seen| == |seen0| + |found|
    ensures seen0 !! Keys(found, digest) && DistinctKeys(found, digest)
  {
    seen, found := seen0, [];
    for i := 0 to |cards|
      invariant (seen, found) == Scan(cards[..i], seen0, digest)
    {
      var c := cards[i];
      assert cards[..i + 1][..i] == cards[..i];
      if c.text.None? || c.text.value == "" {
        continue;
      }
      var txt := c.text.value;
      if HasDropsWord(txt) {
        var href := c.href.GetOr("");
        if StartsWith(href, "/") {
          href := Campaigns.TwitchOrigin + href;
        }
        assert href == CardLink(c);
        var key := digest(href);
        if key in seen {
          continue;
        }
        found := found + [Sighting(href, txt)];
        seen := seen + {key};
      }
    }
    assert cards[..|cards|] == cards;
    ScanSeen(cards, seen0, digest);
    ScanSightings(cards, seen0, digest);
    DistinctKeysCard(found, digest);
  }

  const MessageCap: nat := 10
  const SnippetCap: nat := 160
  const BadgeHeader: string := "\U{1F7E3} R6 streams show **Drops Enabled**"

  /** The channel: the part of the link after its last "/". */
  function Channel(href: string): string {
    LastSegment(href)
  }

  /** The snippet: the card text with whitespace runs collapsed to single
      spaces, cut to 160 characters. */
  function Snippet(text: string): string {
    Take(Collapse(text), SnippetCap)
  }

  lemma ChannelShape(href: string)
    ensures '/' !in Channel(href)
    ensures href == href[..|href| - |Channel(href)|] + Channel(href)
    ensures '/' in href ==> href[|href| - |Channel(href)| - 1] == '/'
    ensures '/' !in href ==> Channel(href) == href
  {
  }

  /** The snippet is the first min(160, n) characters of the n-character
      collapsed text, so it holds no line break. */
  lemma SnippetShape(text: string)
    ensures |Snippet(text)| == Min(SnippetCap, |Collapse(text)|)
    ensures forall c <- Snippet(text) :: !IsLineBreak(c)
    ensures Snippet(text) == Collapse(text)[..|Snippet(text)|]
    ensures |Collapse(text)| <= SnippetCap ==> Snippet(text) == Collapse(text)
  {
    CollapseIsCollapsed(text);
  }

  /** The four lines of the message for one sighting: header, channel, link
      and snippet. */
  function SightingLines(s: Sighting): seq<string> {
    [BadgeHeader, "Channel: " + Channel(s.href), "Link: " + s.href, "Snippet: " + Snippet(s.text)]
  }

  function SightingMessage(s: Sighting): string {
    Join(SightingLines(s), "\n")
  }

  /** Four lines without a newline, joined by newlines, split back into
      themselves. */
  lemma FourLinesBack(a: string, b: string, c: string, d: string)
    requires '\n' !in a && '\n' !in b && '\n' !in c && '\n' !in d
    ensures SplitWhere(Join([a, b, c, d], "\n"), IsNewline) == [a, b, c, d]
  {
    var ls := [a, b, c, d];
    assert forall i :: 0 <= i < |ls| ==> '\n' !in ls[i];
    JoinSplitLines(ls);
  }

  lemma LabelledOneLine(heading: string, value: string)
    requires forall i :: 0 <= i < |heading| ==> heading[i] != '\n'
    requires '\n' !in value
    ensures '\n' !in heading + value
  {
  }

  lemma HeaderOneLine()
    ensures '\n' !in BadgeHeader
  {
  }

  lemma ChannelKeepsLine(href: string)
    requires '\n' !in href
    ensures '\n' !in "Channel: " + Channel(href)
  {
    var c := Channel(href);
    assert c == href[|href| - |c|..];
    assert '\n' !in c;
    LabelledOneLine("Channel: ", c);
  }

  lemma LinkKeepsLine(href: string)
    requires '\n' !in href
    ensures '\n' !in "Link: " + href
  {
    LabelledOneLine("Link: ", href);
  }

  lemma SnippetOneLine(text: string)
    ensures '\n' !in "Snippet: " + Snippet(text)
  {
    SnippetShape(text);
    LabelledOneLine("Snippet: ", Snippet(text));
  }

  /** A link without a newline gives a message of exactly four lines, which
      splitting at newlines gives back: the card text cannot add lines. */
  lemma SightingMessageLines(s: Sighting)
    requires '\n' !in s.href
    ensures SplitWhere(SightingMessage(s), IsNewline) == SightingLines(s)
    ensures |SplitWhere(SightingMessage(s), IsNewline)| == 4
  {
    HeaderOneLine();
    ChannelKeepsLine(s.href);
    LinkKeepsLine(s.href);
    SnippetOneLine(s.text);
    FourLinesBack(BadgeHeader, "Channel: " + Channel(s.href), "Link: " + s.href, "Snippet: " + Snippet(s.text));
  }

  /** The message loop of `main`: one message for each of the first ten
      sightings. */
  method Announce(found: seq<Sighting>) returns (messages: seq<string>)
    ensures |messages| == Min(MessageCap, |found|)
    ensures forall i :: 0 <= i < |messages| ==> messages[i] == SightingMessage(found[i])
  {
    var shown := Take(found, MessageCap);
    messages := MapSeq(SightingMessage, shown);
  }

  /** `main`: scan the cards against the stored seen list (`None` when the
      state file is missing or unreadable), send at most ten messages, and
      store the seen set, which holds the key of every sighting including
      those past the cap, only when something was reported. */
  method BadgeRun(cards: seq<Card>, stored: Option<seq<string>>, digest: string -> string)
    returns (messages: seq<string>, saved: Option<set<string>>)
    ensures var seen0 := set k <- stored.GetOr([]);
      var r := Scan(cards, seen0, digest);
      && |messages| == Min(MessageCap, |r.1|)
      && (forall i :: 0 <= i < |messages| ==> messages[i] == SightingMessage(r.1[i]))
      && (saved.Some? <==> r.1 != [])
      && (saved.Some? ==> saved.value == r.0 && seen0 < r.0)
      && (saved.Some? ==> forall s <- r.1 :: LinkKey(digest, s) in saved.value)
  {
    var seen0 := set k <- stored.GetOr([]);
    var seen, found := ScanCards(cards, seen0, digest);
    messages := [];
    saved := None;
    if found != [] {
      messages := Announce(found);
      saved := Some(seen);
      assert LinkKey(digest, found[0]) in seen - seen0;
    }
  }
}
