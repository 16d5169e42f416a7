/**
 The reconciliation loop as `main()` runs it: a store whose `Games` and
 `Drops` tables and log are changed in place, one statement at a time, for
 each fetched campaign in turn. Each statement is a method; `SyncCampaign`
 and `SyncAll` are proved to produce exactly the tables and events of the
 pure pass in module Reconcile.
 */
module Store {
  import opened Schema
  import opened Reconcile
  import opened Properties

  class Store {
    /** The `Games` table, keyed by its primary key `id`. */
    var games: map<int32, string>
    /** The `Drops` table, keyed by its primary key `id`. */
    var drops: map<string, DropRow>
    /** The notifications written so far. */
    var log: seq<Event>

    /** The two tables as a value. */
    function Snapshot(): Tables
      reads this
    {
      Tables(games, drops)
    }

    ghost predicate Valid()
      reads this
    {
      Consistent(Snapshot())
    }

    /** A store holding the tables `t` and an empty log. */
    constructor (t: Tables)
      requires Consistent(t)
      ensures Valid() && Snapshot() == t && log == []
    {
      games := t.games;
      drops := t.drops;
      log := [];
    }

    /**
     `Games.insertIgnore`: adds the game only if no row has its id. The
     database rejects a name longer than its column, so the name must fit.
     */
    method InsertIgnoreGame(g: Game)
      requires Valid() && |g.displayName| <= MaxNameLength
      modifies this
      ensures Valid()
      ensures games == InsertIgnore(old(games), g.id, g.displayName)
      ensures drops == old(drops) && log == old(log)
    {
      if g.id !in games {
        games := games[g.id := g.displayName];
      }
    }

    /** `Drops.select { id eq id }.count()`. */
    method CountDrops(id: string) returns (n: nat)
      ensures n <= 1
      ensures n == 0 <==> id !in drops
    {
      n := if id in drops then 1 else 0;
    }

    /** `Drops.select { id eq id and status neq status }`: the stored rows whose status differs. */
    method SelectStatusDiffers(id: string, status: string) returns (rows: seq<DropRow>)
      ensures |rows| <= 1
      ensures rows != [] <==> id in drops && drops[id].status != status
      ensures forall k :: 0 <= k < |rows| ==> rows[k] == drops[id] && rows[k].status != status
    {
      if id in drops && drops[id].status != status {
        rows := [drops[id]];
      } else {
        rows := [];
      }
    }

    /**
     `Drops.update({ id eq id }) { status = status }`. The database rejects a
     status longer than its column, so the status must fit.
     */
    method UpdateStatus(id: string, status: string)
      requires Valid() && |status| <= MaxStatusLength
      modifies this
      ensures Valid()
      ensures drops == SetStatus(old(drops), id, status)
      ensures games == old(games) && log == old(log)
    {
      if id in drops {
        drops := drops[id := drops[id].(status := status)];
      }
    }

    /**
     `Drops.insertIgnore`: adds the campaign's row only if no row has its id.
     The database rejects values longer than their columns and a `game_id`
     that references no stored game, so the campaign must fit and its game
     must already be stored.
     */
    method InsertIgnoreDrop(c: DropCampaign)
      requires Valid() && Fits(c) && c.game.id in games
      modifies this
      ensures Valid()
      ensures drops == InsertIgnore(old(drops), c.id, RowOf(c))
      ensures games == old(games) && log == old(log)
    {
      if c.id !in drops {
        drops := drops[c.id := RowOf(c)];
      }
    }

    /** Writes one notification. */
    method Report(e: Event)
      modifies this
      ensures log == old(log) + [e]
      ensures games == old(games) && drops == old(drops)
    {
      log := log + [e];
    }

    /** The body of the loop: the four statements for one fetched campaign. */
    method SyncCampaign(c: DropCampaign)
      requires Valid() && Fits(c)
      modifies this
      ensures Valid()
      ensures games == InsertIgnore(old(games), c.game.id, c.game.displayName)
      ensures drops == StepDrops(old(drops), c)
      ensures log == old(log) + StepEvents(old(drops), c)
      ensures c.id in drops && drops[c.id].status == c.status
      ensures c.game.id in games
    {
      ghost var t := Snapshot();
      InsertIgnoreGame(c.game);
      var count := CountDrops(c.id);
      if count == 0 {
        Report(New(c.id));
      } else {
        var rows := SelectStatusDiffers(c.id, c.status);
        ghost var d1, l1 := drops, log;
        var k := 0;
        while k < |rows|
          invariant 0 <= k <= |rows|
          invariant Valid()
          invariant games == InsertIgnore(t.games, c.game.id, c.game.displayName)
          invariant drops == if k == 0 then d1 else SetStatus(d1, c.id, c.status)
          invariant log == l1 + if k == 0 then [] else [StatusChanged(c.id, c.status)]
        {
          Report(StatusChanged(c.id, c.status));
          UpdateStatus(c.id, c.status);
          k := k + 1;
        }
      }
      InsertIgnoreDrop(c);
    }

    /** The whole loop over the fetched campaigns, in order. */
    method SyncAll(cs: seq<DropCampaign>)
      requires Valid()
      requires forall i :: 0 <= i < |cs| ==> Fits(cs[i])
      modifies this
      ensures Valid()
      ensures Snapshot() == Sync(old(Snapshot()), cs)
      ensures log == old(log) + SyncEvents(old(drops), cs)
    {
      var i := 0;
      assert cs[..i] == [];
      while i < |cs|
        invariant 0 <= i <= |cs|
        invariant Valid()
        invariant games == SyncGames(old(games), cs[..i]) && drops == SyncDrops(old(drops), cs[..i])
        invariant log == old(log) + SyncEvents(old(drops), cs[..i])
      {
        SyncPrefixStep(old(Snapshot()), cs, i);
        ghost var es := SyncEvents(old(drops), cs[..i]);
        ghost var e := StepEvents(drops, cs[i]);
        SyncCampaign(cs[i]);
        AppendAssoc(old(log), es, e);
        i := i + 1;
      }
      assert cs[..i] == cs;
      assert Snapshot() == Tables(SyncGames(old(games), cs), SyncDrops(old(drops), cs));
    }
  }
}
