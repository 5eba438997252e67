/** `diff_campaigns`: the previous and the next snapshot's campaigns are indexed
    by id (last record wins), and the diff lists the records whose id is only
    in the next snapshot (added), only in the previous one (removed), and in
    both with a different timeframe or reward list (changed, as recorded in
    the next snapshot). The source walks Python sets, so the order of each list
    is not specified; the model lists them in an arbitrary order and states
    only which records they hold. */
module Diffs {
  import opened Util
  import opened Strings
  import opened Campaigns
  import opened Snapshots

  /** `{c["id"]: c for c in cs}`. */
  function IdMap(cs: seq<Campaign>): (m: map<string, Campaign>)
    ensures m.Keys == IdSet(cs)
    ensures forall k <- m :: m[k].id == k
  {
    TabulateWellFormed(cs);
    Tabulate(cs).entries
  }

  /** Each id is mapped to the last record carrying it. */
  lemma IdMapLastWins(cs: seq<Campaign>, k: string)
    requires k in IdMap(cs)
    ensures exists i :: 0 <= i < |cs| && cs[i] == IdMap(cs)[k] && IsLastWithId(cs, i)
  {
    TabulateLastWins(cs, k);
  }

  /** The fields whose change makes a campaign "changed". */
  predicate Differs(a: Campaign, b: Campaign) {
    a.timeframe != b.timeframe || a.rewards != b.rewards
  }

  function AddedIds(prev: seq<Campaign>, next: seq<Campaign>): set<string> {
    IdSet(next) - IdSet(prev)
  }

  function RemovedIds(prev: seq<Campaign>, next: seq<Campaign>): set<string> {
    IdSet(prev) - IdSet(next)
  }

  /** The keys among `ks` present in both maps with differing records. */
  function DifferingKeys(prevMap: map<string, Campaign>, nextMap: map<string, Campaign>, ks: set<string>): set<string> {
    set k <- ks | k in prevMap && k in nextMap && Differs(prevMap[k], nextMap[k])
  }

  lemma DifferingKeysAdd(prevMap: map<string, Campaign>, nextMap: map<string, Campaign>, ks: set<string>, k: string)
    ensures DifferingKeys(prevMap, nextMap, ks + {k}) == DifferingKeys(prevMap, nextMap, ks)
      + (if k in prevMap && k in nextMap && Differs(prevMap[k], nextMap[k]) then {k} else {})
  {
  }

  function ChangedIds(prev: seq<Campaign>, next: seq<Campaign>): (r: set<string>)
    ensures r <= IdSet(prev) * IdSet(next)
  {
    DifferingKeys(IdMap(prev), IdMap(next), IdMap(prev).Keys)
  }

  /** A record is in at most one of the three lists of a diff. */
  lemma DiffIdsDisjoint(prev: seq<Campaign>, next: seq<Campaign>)
    ensures AddedIds(prev, next) !! RemovedIds(prev, next)
    ensures AddedIds(prev, next) !! ChangedIds(prev, next)
    ensures RemovedIds(prev, next) !! ChangedIds(prev, next)
  {
  }

  /** Comparing a snapshot with itself finds no difference. */
  lemma DiffOfSelfIds(cs: seq<Campaign>)
    ensures AddedIds(cs, cs) == RemovedIds(cs, cs) == ChangedIds(cs, cs) == {}
  {
  }

  datatype Diff = Diff(added: seq<Campaign>, removed: seq<Campaign>, changed: seq<Campaign>)

  /** `[m[k] for k in ks]`. */
  function ValuesAt(m: map<string, Campaign>, ks: seq<string>): (cs: seq<Campaign>)
    requires forall k <- ks :: k in m
    ensures |cs| == |ks|
  {
    seq(|ks|, i requires 0 <= i < |ks| => m[ks[i]])
  }

  lemma ValuesAtSnoc(m: map<string, Campaign>, ks: seq<string>, k: string)
    requires forall x <- ks :: x in m
    requires k in m
    ensures ValuesAt(m, ks + [k]) == ValuesAt(m, ks) + [m[k]]
  {
  }

  /** Looking up distinct keys of a map from ids to records gives records
      with exactly those ids, each once, each the map's record for its id. */
  lemma ValuesAtIds(m: map<string, Campaign>, ks: seq<string>)
    requires forall k <- m :: m[k].id == k
    requires forall k <- ks :: k in m
    requires Distinct(ks)
    ensures IdSet(ValuesAt(m, ks)) == set k <- ks
    ensures UniqueIds(ValuesAt(m, ks))
    ensures forall c <- ValuesAt(m, ks) :: c.id in m && m[c.id] == c
  {
    var cs := ValuesAt(m, ks);
    assert forall i :: 0 <= i < |cs| ==> cs[i].id == ks[i];
    forall k | k in IdSet(cs) ensures k in ks {
      var c :| c in cs && c.id == k;
      var i :| 0 <= i < |cs| && cs[i] == c;
    }
    forall k | k in ks ensures k in IdSet(cs) {
      var i :| 0 <= i < |ks| && ks[i] == k;
      assert cs[i] in cs;
    }
  }

  /** `[m[k] for k in ks]` for a set of keys, listed in some order. */
  method ListValues(m: map<string, Campaign>, ks: set<string>) returns (cs: seq<Campaign>)
    requires ks <= m.Keys
    requires forall k <- m :: m[k].id == k
    ensures IdSet(cs) == ks && UniqueIds(cs)
    ensures forall c <- cs :: c.id in m && m[c.id] == c
  {
    var keys := SetToSeq(ks);
    cs := ValuesAt(m, keys);
    ValuesAtIds(m, keys);
  }

  /** The keys of `ks`, in order, present in both maps with differing records. */
  function DifferingList(prevMap: map<string, Campaign>, nextMap: map<string, Campaign>, ks: seq<string>): (r: seq<string>)
    ensures forall k :: k in r <==> k in ks && k in DifferingKeys(prevMap, nextMap, set x <- ks)
    ensures forall k <- r :: k in nextMap
  {
    if ks == [] then []
    else
      var k := ks[|ks| - 1];
      var r := DifferingList(prevMap, nextMap, ks[..|ks| - 1]);
      assert forall x :: x in ks <==> x in ks[..|ks| - 1] || x == k;
      if k in prevMap && k in nextMap && Differs(prevMap[k], nextMap[k]) then r + [k] else r
  }

  lemma {:induction false} DifferingListDistinct(prevMap: map<string, Campaign>, nextMap: map<string, Campaign>, ks: seq<string>)
    requires Distinct(ks)
    ensures Distinct(DifferingList(prevMap, nextMap, ks))
  {
    if ks != [] {
      var p, k := ks[..|ks| - 1], ks[|ks| - 1];
      DifferingListDistinct(prevMap, nextMap, p);
      assert k !in p by {
        forall i | 0 <= i < |p| ensures p[i] != k {
          assert ks[i] == p[i];
        }
      }
    }
  }

  /** The changed loop over the common keys: the next record of every
      common key whose timeframe or rewards differ. */
  method ListChanged(prevMap: map<string, Campaign>, nextMap: map<string, Campaign>, common: set<string>)
    returns (changed: seq<Campaign>)
    requires common <= prevMap.Keys && common <= nextMap.Keys
    requires forall k <- nextMap :: nextMap[k].id == k
    ensures IdSet(changed) == DifferingKeys(prevMap, nextMap, common)
    ensures UniqueIds(changed)
    ensures forall c <- changed :: c.id in nextMap && nextMap[c.id] == c
  {
    var keys := SetToSeq(common);
    changed := [];
    for i := 0 to |keys|
      invariant changed == ValuesAt(nextMap, DifferingList(prevMap, nextMap, keys[..i]))
    {
      var k := keys[i];
      assert keys[..i + 1][..i] == keys[..i];
      if Differs(prevMap[k], nextMap[k]) {
        ValuesAtSnoc(nextMap, DifferingList(prevMap, nextMap, keys[..i]), k);
        changed := changed + [nextMap[k]];
      }
    }
    assert keys[..|keys|] == keys;
    ChangedValues(prevMap, nextMap, common, keys);
  }

  /** The records the changed loop collects have exactly the differing keys
      as ids. */
  lemma ChangedValues(prevMap: map<string, Campaign>, nextMap: map<string, Campaign>, common: set<string>, keys: seq<string>)
    requires forall k <- nextMap :: nextMap[k].id == k
    requires Distinct(keys) && forall k :: k in keys <==> k in common
    ensures IdSet(ValuesAt(nextMap, DifferingList(prevMap, nextMap, keys))) == DifferingKeys(prevMap, nextMap, common)
    ensures UniqueIds(ValuesAt(nextMap, DifferingList(prevMap, nextMap, keys)))
    ensures forall c <- ValuesAt(nextMap, DifferingList(prevMap, nextMap, keys)) :: c.id in nextMap && nextMap[c.id] == c
  {
    DifferingListDistinct(prevMap, nextMap, keys);
    ValuesAtIds(nextMap, DifferingList(prevMap, nextMap, keys));
    assert (set x <- keys) == common;
  }

  /** `diff_campaigns(prev, next)`. */
  method DiffCampaigns(prev: seq<Campaign>, next: seq<Campaign>) returns (d: Diff)
    ensures IdSet(d.added) == AddedIds(prev, next)
    ensures IdSet(d.removed) == RemovedIds(prev, next)
    ensures IdSet(d.changed) == ChangedIds(prev, next)
    ensures UniqueIds(d.added) && UniqueIds(d.removed) && UniqueIds(d.changed)
    ensures forall c <- d.added :: c.id in IdMap(next) && IdMap(next)[c.id] == c
    ensures forall c <- d.changed :: c.id in IdMap(next) && IdMap(next)[c.id] == c
    ensures forall c <- d.removed :: c.id in IdMap(prev) && IdMap(prev)[c.id] == c
    ensures IdSet(d.added) !! IdSet(d.removed)
    ensures IdSet(d.added) !! IdSet(d.changed)
    ensures IdSet(d.removed) !! IdSet(d.changed)
    ensures prev == next ==> d == Diff([], [], [])
  {
    var prevMap, nextMap := IdMap(prev), IdMap(next);
    var added := ListValues(nextMap, nextMap.Keys - prevMap.Keys);
    var removed := ListValues(prevMap, prevMap.Keys - nextMap.Keys);
    var changed := ListChanged(prevMap, nextMap, prevMap.Keys * nextMap.Keys);
    assert DifferingKeys(prevMap, nextMap, prevMap.Keys * nextMap.Keys) == ChangedIds(prev, next);
    d := Diff(added, removed, changed);
    DiffIdsDisjoint(prev, next);
    if prev == next {
      DiffOfSelfIds(prev);
      IdSetEmpty(added);
      IdSetEmpty(removed);
      IdSetEmpty(changed);
    }
  }

  /** If every id is an injective function of the compared fields, no common
      id can have different fields: "changed" is always empty. */
  lemma NoChangeUnderInjectiveIds(prev: seq<Campaign>, next: seq<Campaign>, f: (string, string, seq<string>) -> string)
    requires forall s, t, r, s', t', r' :: f(s, t, r) == f(s', t', r') ==> t == t' && r == r'
    requires forall c <- prev + next :: c.id == f(c.gameSlug, c.timeframe, c.rewards)
    ensures ChangedIds(prev, next) == {}
  {
    var o, n := IdMap(prev), IdMap(next);
    forall k | k in o && k in n ensures !Differs(o[k], n[k]) {
      IdMapLastWins(prev, k);
      IdMapLastWins(next, k);
      var i :| 0 <= i < |prev| && prev[i] == o[k] && IsLastWithId(prev, i);
      var j :| 0 <= j < |next| && next[j] == n[k] && IsLastWithId(next, j);
      assert o[k] in prev + next && n[k] in prev + next;
    }
  }

  /** The id hashes the rewards joined by ",", so a reward list ["a,b"] and
      the list ["a", "b"] get the same id whatever the digest: two snapshots
      can hold the same id with different rewards, which the diff reports as
      changed. */
  lemma ChangedIsReachable(digest: string -> string, c: Campaign)
    requires c.rewards == ["a,b"] && c.id == CampaignId(digest, c.gameSlug, c.timeframe, c.rewards)
    ensures var c' := c.(rewards := ["a", "b"]);
      && c'.id == CampaignId(digest, c'.gameSlug, c'.timeframe, c'.rewards)
      && ChangedIds([c], [c']) == {c.id}
  {
    var c' := c.(rewards := ["a", "b"]);
    IdBasisAmbiguous(digest, c.gameSlug, c.timeframe, c.rewards, 0, "a", "b");
    assert c.rewards[..0] + ["a", "b"] + c.rewards[1..] == ["a", "b"];
    assert IdMap([c]).Keys == {c.id} && IdMap([c']).Keys == {c.id};
    assert Differs(IdMap([c])[c.id], IdMap([c'])[c.id]);
  }
}
