/**
 The reconciliation pass as pure functions over the two keyed tables: what
 one campaign does to `Games` and `Drops` and which event it reports, and
 the same for a whole fetched list processed front to back.
 */
module Reconcile {
  import opened Schema

  /**
   The stored state: `Games` and `Drops`, each keyed by its primary key, so
   that an id has at most one row.
   */
  datatype Tables = Tables(games: map<int32, string>, drops: map<string, DropRow>)

  /**
   The schema's constraints on stored state: every value fits its column and
   every drop's `game_id` references a stored game.
   */
  predicate Consistent(t: Tables)
  {
    && (forall g :: g in t.games ==> |t.games[g]| <= MaxNameLength)
    && (forall id :: id in t.drops ==>
          |id| <= MaxDropIdLength && RowFits(t.drops[id]) && t.drops[id].gameId in t.games)
  }

  /** `insertIgnore`: adds `k` with value `v` only when `k` is not yet a key. */
  function InsertIgnore<K, V>(m: map<K, V>, k: K, v: V): (r: map<K, V>)
    ensures r.Keys == m.Keys + {k}
    ensures forall j :: j in m ==> r[j] == m[j]
    ensures k !in m ==> r[k] == v
  {
    if k in m then m else m[k := v]
  }

  /** `update ... where id = id`: sets the status column of that row, if any. */
  function SetStatus(drops: map<string, DropRow>, id: string, status: string): (r: map<string, DropRow>)
    ensures r.Keys == drops.Keys
    ensures forall j :: j in drops && j != id ==> r[j] == drops[j]
    ensures id in drops ==> r[id].status == status
    ensures id in drops ==> SameExceptStatus(r[id], drops[id])
  {
    if id in drops then drops[id := drops[id].(status := status)] else drops
  }

  /** A stored row for `c.id` exists and its status differs from the fetched one. */
  predicate StatusDiffers(drops: map<string, DropRow>, c: DropCampaign)
  {
    c.id in drops && drops[c.id].status != c.status
  }

  /**
   `Drops` after one campaign: the status of an existing row is updated
   when it differs, then the campaign's row is inserted if absent.
   */
  function StepDrops(drops: map<string, DropRow>, c: DropCampaign): (r: map<string, DropRow>)
    ensures r.Keys == drops.Keys + {c.id}
    ensures forall id :: id in drops && id != c.id ==> r[id] == drops[id]
    ensures r[c.id].status == c.status
    ensures c.id in drops ==> SameExceptStatus(r[c.id], drops[c.id])
    ensures c.id !in drops ==> r[c.id] == RowOf(c)
  {
    var updated := if StatusDiffers(drops, c) then SetStatus(drops, c.id, c.status) else drops;
    InsertIgnore(updated, c.id, RowOf(c))
  }

  /**
   Both tables after one campaign: its game is inserted if absent, then
   `Drops` changes as `StepDrops` says.
   */
  function Step(t: Tables, c: DropCampaign): (r: Tables)
    ensures c.game.id in r.games && c.id in r.drops
    ensures forall g :: g in t.games ==> g in r.games && r.games[g] == t.games[g]
  {
    Tables(InsertIgnore(t.games, c.game.id, c.game.displayName), StepDrops(t.drops, c))
  }

  /**
   The event one campaign reports: `New` when no row has its id,
   `StatusChanged` when the stored status differs, nothing otherwise.
   */
  function StepEvents(drops: map<string, DropRow>, c: DropCampaign): (e: seq<Event>)
    ensures |e| <= 1
    ensures forall k :: 0 <= k < |e| ==> e[k].id == c.id
    ensures e == [New(c.id)] <==> c.id !in drops
    ensures e == [StatusChanged(c.id, c.status)] <==> StatusDiffers(drops, c)
    ensures e == [] <==> c.id in drops && drops[c.id].status == c.status
  {
    if c.id !in drops then [New(c.id)]
    else if drops[c.id].status != c.status then [StatusChanged(c.id, c.status)]
    else []
  }

  /** The ids of the fetched campaigns. */
  function IdsOf(cs: seq<DropCampaign>): set<string>
    decreases |cs|
  {
    if cs == [] then {} else IdsOf(cs[..|cs| - 1]) + {cs[|cs| - 1].id}
  }

  /** The game ids of the fetched campaigns. */
  function GameIdsOf(cs: seq<DropCampaign>): set<int32>
    decreases |cs|
  {
    if cs == [] then {} else GameIdsOf(cs[..|cs| - 1]) + {cs[|cs| - 1].game.id}
  }

  /** An id is fetched exactly when some campaign of the list carries it. */
  lemma {:induction false} IdsOfMembers(cs: seq<DropCampaign>, id: string)
    ensures id in IdsOf(cs) <==> exists i :: 0 <= i < |cs| && cs[i].id == id
  {
    if cs != [] {
      var p := cs[..|cs| - 1];
      IdsOfMembers(p, id);
      if id in IdsOf(p) {
        var i :| 0 <= i < |p| && p[i].id == id;
        assert cs[i] == p[i];
      }
      if exists i :: 0 <= i < |cs| && cs[i].id == id {
        var i :| 0 <= i < |cs| && cs[i].id == id;
        if i < |p| {
          assert p[i] == cs[i];
        }
      }
    }
  }

  /** A game id is fetched exactly when some campaign of the list carries it. */
  lemma {:induction false} GameIdsOfMembers(cs: seq<DropCampaign>, g: int32)
    ensures g in GameIdsOf(cs) <==> exists i :: 0 <= i < |cs| && cs[i].game.id == g
  {
    if cs != [] {
      var p := cs[..|cs| - 1];
      GameIdsOfMembers(p, g);
      if g in GameIdsOf(p) {
        var i :| 0 <= i < |p| && p[i].game.id == g;
        assert cs[i] == p[i];
      }
      if exists i :: 0 <= i < |cs| && cs[i].game.id == g {
        var i :| 0 <= i < |cs| && cs[i].game.id == g;
        if i < |p| {
          assert p[i] == cs[i];
        }
      }
    }
  }

  /** An id that no campaign before position `n` carries is not among their ids. */
  lemma NotFetchedBefore(cs: seq<DropCampaign>, n: nat, id: string)
    requires n <= |cs|
    requires forall j :: 0 <= j < n ==> cs[j].id != id
    ensures id !in IdsOf(cs[..n])
  {
    var q := cs[..n];
    assert forall j :: 0 <= j < |q| ==> q[j].id != id;
    IdsOfMembers(q, id);
  }

  /** A game id that no campaign before position `n` carries is not among their game ids. */
  lemma GameNotFetchedBefore(cs: seq<DropCampaign>, n: nat, g: int32)
    requires n <= |cs|
    requires forall j :: 0 <= j < n ==> cs[j].game.id != g
    ensures g !in GameIdsOf(cs[..n])
  {
    var q := cs[..n];
    assert forall j :: 0 <= j < |q| ==> q[j].game.id != g;
    GameIdsOfMembers(q, g);
  }

  /**
   `Games` after the whole fetched list, processed in order. No game is
   removed: the keys are the old keys plus the fetched game ids.
   */
  function SyncGames(games: map<int32, string>, cs: seq<DropCampaign>): (r: map<int32, string>)
    ensures r.Keys == games.Keys + GameIdsOf(cs)
    decreases |cs|
  {
    if cs == [] then games
    else
      var c := cs[|cs| - 1];
      InsertIgnore(SyncGames(games, cs[..|cs| - 1]), c.game.id, c.game.displayName)
  }

  /**
   `Drops` after the whole fetched list, processed in order. No row is
   removed: the keys are the old keys plus the fetched ids.
   */
  function SyncDrops(drops: map<string, DropRow>, cs: seq<DropCampaign>): (r: map<string, DropRow>)
    ensures r.Keys == drops.Keys + IdsOf(cs)
    decreases |cs|
  {
    if cs == [] then drops
    else StepDrops(SyncDrops(drops, cs[..|cs| - 1]), cs[|cs| - 1])
  }

  /**
   Both tables after the whole fetched list. Nothing is deleted from either
   table: each holds its old keys plus the fetched ones.
   */
  function Sync(t: Tables, cs: seq<DropCampaign>): (r: Tables)
    ensures r.games.Keys == t.games.Keys + GameIdsOf(cs)
    ensures r.drops.Keys == t.drops.Keys + IdsOf(cs)
  {
    Tables(SyncGames(t.games, cs), SyncDrops(t.drops, cs))
  }

  /** The events of the whole fetched list, in order. */
  function SyncEvents(drops: map<string, DropRow>, cs: seq<DropCampaign>): (e: seq<Event>)
    ensures |e| <= |cs|
    decreases |cs|
  {
    if cs == [] then []
    else
      var p := cs[..|cs| - 1];
      SyncEvents(drops, p) + StepEvents(SyncDrops(drops, p), cs[|cs| - 1])
  }

  /** Extending the processed prefix by one campaign is one more step on each table. */
  lemma SyncPrefixStep(t: Tables, cs: seq<DropCampaign>, i: nat)
    requires i < |cs|
    ensures SyncGames(t.games, cs[..i + 1])
              == InsertIgnore(SyncGames(t.games, cs[..i]), cs[i].game.id, cs[i].game.displayName)
    ensures SyncDrops(t.drops, cs[..i + 1]) == StepDrops(SyncDrops(t.drops, cs[..i]), cs[i])
    ensures SyncEvents(t.drops, cs[..i + 1])
              == SyncEvents(t.drops, cs[..i]) + StepEvents(SyncDrops(t.drops, cs[..i]), cs[i])
  {
    assert cs[..i + 1][..i] == cs[..i];
  }

  /** Concatenation is associative; stated once so that callers need not rediscover it. */
  lemma AppendAssoc<T>(a: seq<T>, b: seq<T>, c: seq<T>)
    ensures a + b + c == a + (b + c)
  {
  }
}
