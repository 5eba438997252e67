/** Identity and dedup of the snapshot script (`scrape_all_campaigns`): each
    scraped row is parsed, the parsed records are put in a dict keyed by id
    (the last record seen for an id wins; the dict keeps the position of the
    id's first insertion), and the snapshot lists the dict's values. */
module Snapshots {
  import opened Util
  import opened Strings
  import opened Campaigns

  /** One scraped row as the browser yields it: its text (`None` when it could
      not be read) and the `href` attribute of each of its links. */
  datatype Row = Row(text: Option<string>, hrefs: seq<Option<string>>)

  /** The snapshot document; `scrapedAt` is the clock reading of the run. */
  datatype Snapshot = Snapshot(scrapedAt: string, count: nat, campaigns: seq<Campaign>)

  function IdSet(cs: seq<Campaign>): set<string> {
    set c <- cs :: c.id
  }

  predicate UniqueIds(cs: seq<Campaign>) {
    forall i, j :: 0 <= i < j < |cs| ==> cs[i].id != cs[j].id
  }

  /** Appending a record adds its id. */
  lemma IdSetSnoc(cs: seq<Campaign>, c: Campaign)
    ensures IdSet(cs + [c]) == IdSet(cs) + {c.id}
  {
    assert forall x <- cs + [c] :: x in cs || x == c;
  }

  /** Only the empty list has no ids. */
  lemma IdSetEmpty(cs: seq<Campaign>)
    ensures IdSet(cs) == {} <==> cs == []
  {
    if cs != [] {
      assert cs[0].id in IdSet(cs);
    }
  }

  /** Appending a record with a fresh id keeps the ids unique. */
  lemma UniqueIdsSnoc(cs: seq<Campaign>, c: Campaign)
    requires UniqueIds(cs) && c.id !in IdSet(cs)
    ensures UniqueIds(cs + [c])
  {
    forall i, j | 0 <= i < j < |cs| + 1 ensures (cs + [c])[i].id != (cs + [c])[j].id {
      if j == |cs| {
        assert cs[i] in cs;
      }
    }
  }

  /** No later element of `items` has the id of `items[i]`. */
  predicate IsLastWithId(items: seq<Campaign>, i: nat)
    requires i < |items|
  {
    forall j :: i < j < |items| ==> items[j].id != items[i].id
  }

  /** A Python dict from id to campaign: its keys in insertion order and its entries. */
  datatype IdTable = IdTable(keys: seq<string>, entries: map<string, Campaign>)

  /** `table[c.id] = c`: a new id is appended to the key order, an existing
      one keeps its place and gets the new value. */
  function Assign(t: IdTable, c: Campaign): IdTable {
    IdTable(if c.id in t.entries then t.keys else t.keys + [c.id], t.entries[c.id := c])
  }

  /** The keys of the table are listed once each and are exactly the keys
      of its entries, each entry being stored under its own id. */
  ghost predicate WellFormed(t: IdTable) {
    && (forall i, j :: 0 <= i < j < |t.keys| ==> t.keys[i] != t.keys[j])
    && (forall k :: k in t.keys <==> k in t.entries)
    && (forall k <- t.entries :: t.entries[k].id == k)
  }

  /** The dict after assigning every item in order. */
  function Tabulate(items: seq<Campaign>): (t: IdTable)
    ensures forall k :: k in t.keys <==> k in t.entries
  {
    if items == [] then IdTable([], map[])
    else Assign(Tabulate(items[..|items| - 1]), items[|items| - 1])
  }

  /** Assigning keeps a table well formed. */
  lemma AssignWellFormed(t: IdTable, c: Campaign)
    requires WellFormed(t)
    ensures WellFormed(Assign(t, c))
  {
    var t' := Assign(t, c);
    if c.id !in t.entries {
      forall i, j | 0 <= i < j < |t'.keys| ensures t'.keys[i] != t'.keys[j] {
        if j == |t.keys| {
          assert t.keys[i] in t.keys;
        }
      }
    }
  }

  /** The tabulated dict is well formed and its keys are the ids of the items. */
  lemma {:induction false} TabulateWellFormed(items: seq<Campaign>)
    ensures WellFormed(Tabulate(items))
    ensures Tabulate(items).entries.Keys == IdSet(items)
  {
    if items != [] {
      var p, c := items[..|items| - 1], items[|items| - 1];
      TabulateWellFormed(p);
      AssignWellFormed(Tabulate(p), c);
      assert items == p + [c];
      assert IdSet(items) == IdSet(p) + {c.id};
    }
  }

  /** The entry for each id is the last item with that id. */
  lemma {:induction false} TabulateLastWins(items: seq<Campaign>, k: string)
    requires k in Tabulate(items).entries
    ensures exists i :: 0 <= i < |items| && items[i] == Tabulate(items).entries[k] && IsLastWithId(items, i)
  {
    var p, c := items[..|items| - 1], items[|items| - 1];
    assert items != [];
    if k == c.id {
      assert items[|items| - 1] == Tabulate(items).entries[k] && IsLastWithId(items, |items| - 1);
    } else {
      TabulateLastWins(p, k);
      TabulateWellFormed(p);
      var e := Tabulate(p).entries;
      var i :| 0 <= i < |p| && p[i] == e[k] && IsLastWithId(p, i);
      assert Tabulate(items).entries == e[c.id := c];
      assert items[i] == p[i] && e[k].id == k;
      forall j | i < j < |items| ensures items[j].id != items[i].id {
        if j < |p| {
          assert items[j] == p[j];
        }
      }
      assert items[i] == Tabulate(items).entries[k] && IsLastWithId(items, i);
    }
  }

  /** `list(table.values())`. */
  function Values(t: IdTable): seq<Campaign>
    requires forall k <- t.keys :: k in t.entries
  {
    seq(|t.keys|, i requires 0 <= i < |t.keys| => t.entries[t.keys[i]])
  }

  /** The campaigns of a snapshot built from `items`. */
  function Dedup(items: seq<Campaign>): seq<Campaign> {
    Values(Tabulate(items))
  }

  /** The ids of the dedup result, in order, are the keys of the table. */
  lemma DedupKeys(items: seq<Campaign>)
    ensures |Dedup(items)| == |Tabulate(items).keys|
    ensures forall i :: 0 <= i < |Dedup(items)| ==> Dedup(items)[i].id == Tabulate(items).keys[i]
  {
    TabulateWellFormed(items);
  }

  /** The id set and id uniqueness of records, read off their id list. */
  lemma IdsFacts(cs: seq<Campaign>)
    ensures IdSet(cs) == set k <- Ids(cs)
    ensures UniqueIds(cs) <==> Distinct(Ids(cs))
  {
    var ids := Ids(cs);
    forall k <- IdSet(cs) ensures k in ids {
      var c :| c in cs && c.id == k;
      var i :| 0 <= i < |cs| && cs[i] == c;
      assert ids[i] == k;
    }
  }

  /** After dedup: ids are unique, the ids are exactly those of the parsed
      items, and their number is the number of distinct ids. */
  lemma DedupIds(items: seq<Campaign>)
    ensures UniqueIds(Dedup(items))
    ensures IdSet(Dedup(items)) == IdSet(items)
    ensures |Dedup(items)| == |IdSet(items)|
  {
    var t := Tabulate(items);
    var r := Dedup(items);
    TabulateWellFormed(items);
    DedupKeys(items);
    assert Ids(r) == t.keys;
    IdsFacts(r);
    assert Distinct(t.keys);
    DistinctCard(t.keys);
    assert (set k <- t.keys) == IdSet(items);
  }

  /** After dedup, each id holds the last item seen with it. */
  lemma DedupLastWins(items: seq<Campaign>)
    ensures forall c <- Dedup(items) :: exists i :: 0 <= i < |items| && items[i] == c && IsLastWithId(items, i)
  {
    var t := Tabulate(items);
    var r := Dedup(items);
    forall c <- r ensures exists i :: 0 <= i < |items| && items[i] == c && IsLastWithId(items, i) {
      var i :| 0 <= i < |r| && r[i] == c;
      assert t.keys[i] in t.keys;
      TabulateLastWins(items, t.keys[i]);
    }
  }

  /** The ids of the records, in order. */
  function Ids(cs: seq<Campaign>): (ids: seq<string>)
    ensures |ids| == |cs| && forall i :: 0 <= i < |cs| ==> ids[i] == cs[i].id
  {
    if cs == [] then [] else Ids(cs[..|cs| - 1]) + [cs[|cs| - 1].id]
  }

  /** Tabulating records with unique ids lists their ids in order. */
  lemma {:induction false} TabulateUniqueKeys(cs: seq<Campaign>)
    requires UniqueIds(cs)
    ensures Tabulate(cs).keys == Ids(cs)
  {
    if cs != [] {
      var p, c := cs[..|cs| - 1], cs[|cs| - 1];
      assert UniqueIds(p) by {
        forall i, j | 0 <= i < j < |p| ensures p[i].id != p[j].id {
          assert p[i] == cs[i] && p[j] == cs[j];
        }
      }
      TabulateUniqueKeys(p);
      var t := Tabulate(p);
      forall j | 0 <= j < |t.keys| ensures t.keys[j] != c.id {
        assert t.keys[j] == p[j].id == cs[j].id;
      }
      assert c.id !in t.keys;
    }
  }

  /** Tabulating records with unique ids stores each under its id. */
  lemma {:induction false} TabulateUniqueEntries(cs: seq<Campaign>)
    requires UniqueIds(cs)
    ensures forall i :: 0 <= i < |cs| ==> cs[i].id in Tabulate(cs).entries && Tabulate(cs).entries[cs[i].id] == cs[i]
  {
    if cs != [] {
      var p, c := cs[..|cs| - 1], cs[|cs| - 1];
      assert UniqueIds(p) by {
        forall i, j | 0 <= i < j < |p| ensures p[i].id != p[j].id {
          assert p[i] == cs[i] && p[j] == cs[j];
        }
      }
      TabulateUniqueEntries(p);
      var e := Tabulate(p).entries;
      assert Tabulate(cs).entries == e[c.id := c];
      forall i | 0 <= i < |p| ensures cs[i].id in e[c.id := c] && e[c.id := c][cs[i].id] == cs[i] {
        assert p[i] == cs[i] && cs[i].id != c.id;
      }
    }
  }

  /** Records whose ids are already unique are left unchanged by dedup. */
  lemma DedupOfUnique(cs: seq<Campaign>)
    requires UniqueIds(cs)
    ensures Dedup(cs) == cs
  {
    TabulateUniqueKeys(cs);
    TabulateUniqueEntries(cs);
  }

  /** Dedup is idempotent. */
  lemma DedupIdempotent(items: seq<Campaign>)
    ensures Dedup(Dedup(items)) == Dedup(items)
  {
    DedupIds(items);
    DedupOfUnique(Dedup(items));
  }

  /** The dedup loop: `dedup[it["id"]] = it` for every parsed item, then the
      dict's values. */
  method DedupById(items: seq<Campaign>) returns (campaigns: seq<Campaign>)
    ensures campaigns == Dedup(items)
    ensures UniqueIds(campaigns) && IdSet(campaigns) == IdSet(items)
    ensures |campaigns| == |IdSet(items)|
  {
    var keys: seq<string> := [];
    var entries: map<string, Campaign> := map[];
    var i := 0;
    while i < |items|
      invariant 0 <= i <= |items|
      invariant IdTable(keys, entries) == Tabulate(items[..i])
    {
      var it := items[i];
      assert items[..i + 1][..i] == items[..i];
      if it.id !in entries {
        keys := keys + [it.id];
      }
      entries := entries[it.id := it];
      i := i + 1;
    }
    assert items[..i] == items;
    campaigns := seq(|keys|, j requires 0 <= j < |keys| => entries[keys[j]]);
    DedupIds(items);
  }

  /** The records parsed from the rows, in row order (rows that parse to
      nothing are dropped). */
  function ParsedRows(rows: seq<Row>, digest: string -> string): seq<Campaign> {
    if rows == [] then []
    else
      var row := rows[|rows| - 1];
      ParsedRows(rows[..|rows| - 1], digest)
        + match CampaignOf(RowText(row.text), RowLinks(row.hrefs), digest)
          case None => []
          case Some(c) => [c]
  }

  /** Every record of a scrape was parsed from a single line: its title is its
      whole text and it has at most one reward. */
  lemma {:induction false} ParsedRowsAreOneLine(rows: seq<Row>, digest: string -> string)
    ensures forall c <- ParsedRows(rows, digest) ::
      c.campaignTitle == c.rawText && |c.rewards| <= 1 && IsSlug(c.gameSlug) && |c.rawText| >= MinRowLength
  {
    if rows != [] {
      var row := rows[|rows| - 1];
      ParsedRowsAreOneLine(rows[..|rows| - 1], digest);
      var r := CampaignOf(RowText(row.text), RowLinks(row.hrefs), digest);
      if r.Some? {
        NormalisedRowFields(row.text, RowLinks(row.hrefs), digest, r.value);
      }
    }
  }

  /** `scrape_all_campaigns` once the page has been read: parse every row,
      dedup by id, and build the snapshot. */
  method ScrapeAllCampaigns(rows: seq<Row>, digest: string -> string, scrapedAt: string) returns (snap: Snapshot)
    ensures snap.campaigns == Dedup(ParsedRows(rows, digest))
    ensures UniqueIds(snap.campaigns) && IdSet(snap.campaigns) == IdSet(ParsedRows(rows, digest))
    ensures snap.count == |snap.campaigns| == |IdSet(ParsedRows(rows, digest))|
    ensures snap.scrapedAt == scrapedAt
  {
    var items: seq<Campaign> := [];
    var i := 0;
    while i < |rows|
      invariant 0 <= i <= |rows|
      invariant items == ParsedRows(rows[..i], digest)
    {
      var row := rows[i];
      assert rows[..i + 1][..i] == rows[..i];
      var it := ParseCampaign(RowText(row.text), RowLinks(row.hrefs), digest);
      if it.Some? {
        items := items + [it.value];
      }
      i := i + 1;
    }
    assert rows[..i] == rows;
    var campaigns := DedupById(items);
    snap := Snapshot(scrapedAt, |campaigns|, campaigns);
  }
}
