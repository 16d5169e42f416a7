/**
 Properties of the reconciliation pass over a whole fetched list: the
 schema's constraints are kept, rows outside the list are untouched, only
 the status of a stored row ever changes, the last occurrence of an id
 decides its status, the events are exactly the notifications promised,
 a second run over the same list changes no table, and it reports nothing
 exactly when each id of the list carries one status.
 */
module Properties {
  import opened Schema
  import opened Reconcile

  /** No two fetched campaigns share an id. */
  predicate DistinctIds(cs: seq<DropCampaign>)
  {
    forall i, j :: 0 <= i < j < |cs| ==> cs[i].id != cs[j].id
  }

  /** The events that name campaign `id`, in order. */
  function EventsFor(es: seq<Event>, id: string): (r: seq<Event>)
    ensures |r| <= |es|
  {
    if es == [] then []
    else (if es[0].id == id then [es[0]] else []) + EventsFor(es[1..], id)
  }

  lemma {:induction false} EventsForAppend(a: seq<Event>, b: seq<Event>, id: string)
    ensures EventsFor(a + b, id) == EventsFor(a, id) + EventsFor(b, id)
  {
    if a == [] {
      assert a + b == b;
    } else {
      var head := if a[0].id == id then [a[0]] else [];
      assert (a + b)[0] == a[0];
      assert (a + b)[1..] == a[1..] + b;
      assert EventsFor(a + b, id) == head + EventsFor(a[1..] + b, id);
      EventsForAppend(a[1..], b, id);
      AppendAssoc(head, EventsFor(a[1..], id), EventsFor(b, id));
    }
  }

  lemma EventsForOwn(es: seq<Event>, id: string)
    requires |es| <= 1 && forall k :: 0 <= k < |es| ==> es[k].id == id
    ensures EventsFor(es, id) == es
  {
  }

  lemma EventsForOther(es: seq<Event>, id: string)
    requires |es| <= 1 && forall k :: 0 <= k < |es| ==> es[k].id != id
    ensures EventsFor(es, id) == []
  {
  }

  /** One campaign keeps the schema's constraints when its values fit their columns. */
  lemma StepConsistent(t: Tables, c: DropCampaign)
    requires Consistent(t) && Fits(c)
    ensures Consistent(Step(t, c))
  {
    // Splitting the two halves of `Consistent` keeps the solver's search small.
    var r := Step(t, c);
    forall g | g in r.games
      ensures |r.games[g]| <= MaxNameLength
    {
    }
    forall id | id in r.drops
      ensures |id| <= MaxDropIdLength && RowFits(r.drops[id]) && r.drops[id].gameId in r.games
    {
    }
  }

  /** The whole pass keeps the schema's constraints, foreign key included. */
  lemma {:induction false} SyncConsistent(t: Tables, cs: seq<DropCampaign>)
    requires Consistent(t)
    requires forall i :: 0 <= i < |cs| ==> Fits(cs[i])
    ensures Consistent(Sync(t, cs))
  {
    if cs != [] {
      var n := |cs| - 1;
      SyncConsistent(t, cs[..n]);
      SyncPrefixStep(t, cs, n);
      assert cs[..n + 1] == cs;
      StepConsistent(Sync(t, cs[..n]), cs[n]);
    }
  }

  /** A stored campaign whose id is not fetched keeps its row unchanged. */
  lemma {:induction false} SyncUntouched(drops: map<string, DropRow>, cs: seq<DropCampaign>, id: string)
    requires id in drops && id !in IdsOf(cs)
    ensures id in SyncDrops(drops, cs) && SyncDrops(drops, cs)[id] == drops[id]
  {
    if cs != [] {
      SyncUntouched(drops, cs[..|cs| - 1], id);
    }
  }

  /** A stored game is never renamed. */
  lemma {:induction false} SyncKeepsGame(games: map<int32, string>, cs: seq<DropCampaign>, g: int32)
    requires g in games
    ensures g in SyncGames(games, cs) && SyncGames(games, cs)[g] == games[g]
  {
    if cs != [] {
      SyncKeepsGame(games, cs[..|cs| - 1], g);
    }
  }

  /** Of a stored campaign, only the status column may change. */
  lemma {:induction false} SyncStatusOnly(drops: map<string, DropRow>, cs: seq<DropCampaign>, id: string)
    requires id in drops
    ensures id in SyncDrops(drops, cs)
    ensures SameExceptStatus(SyncDrops(drops, cs)[id], drops[id])
  {
    if cs != [] {
      SyncStatusOnly(drops, cs[..|cs| - 1], id);
    }
  }

  /** The stored status of a fetched campaign is that of its last occurrence. */
  lemma {:induction false} SyncLastStatus(drops: map<string, DropRow>, cs: seq<DropCampaign>, i: nat)
    requires i < |cs|
    requires forall j :: i < j < |cs| ==> cs[j].id != cs[i].id
    ensures cs[i].id in SyncDrops(drops, cs)
    ensures SyncDrops(drops, cs)[cs[i].id].status == cs[i].status
  {
    if i < |cs| - 1 {
      var p := cs[..|cs| - 1];
      assert p[i] == cs[i];
      SyncLastStatus(drops, p, i);
    }
  }

  /**
   A campaign that was not stored gets the name, game and period of its
   first occurrence in the list.
   */
  lemma {:induction false} SyncFirstRow(drops: map<string, DropRow>, cs: seq<DropCampaign>, i: nat)
    requires i < |cs| && cs[i].id !in drops
    requires forall j :: 0 <= j < i ==> cs[j].id != cs[i].id
    ensures cs[i].id in SyncDrops(drops, cs)
    ensures SameExceptStatus(SyncDrops(drops, cs)[cs[i].id], RowOf(cs[i]))
  {
    var p := cs[..|cs| - 1];
    if i == |cs| - 1 {
      NotFetchedBefore(cs, i, cs[i].id);
    } else {
      assert p[i] == cs[i];
      SyncFirstRow(drops, p, i);
    }
  }

  /** A game that was not stored gets the display name of its first occurrence. */
  lemma {:induction false} SyncFirstGame(games: map<int32, string>, cs: seq<DropCampaign>, i: nat)
    requires i < |cs| && cs[i].game.id !in games
    requires forall j :: 0 <= j < i ==> cs[j].game.id != cs[i].game.id
    ensures cs[i].game.id in SyncGames(games, cs)
    ensures SyncGames(games, cs)[cs[i].game.id] == cs[i].game.displayName
  {
    var p := cs[..|cs| - 1];
    if i == |cs| - 1 {
      GameNotFetchedBefore(cs, i, cs[i].game.id);
    } else {
      assert p[i] == cs[i];
      SyncFirstGame(games, p, i);
    }
  }

  /** Every fetched id has a last occurrence. */
  lemma {:induction false} LastIndexOf(cs: seq<DropCampaign>, id: string) returns (i: nat)
    requires id in IdsOf(cs)
    ensures i < |cs| && cs[i].id == id
    ensures forall j :: i < j < |cs| ==> cs[j].id != id
  {
    var p := cs[..|cs| - 1];
    if cs[|cs| - 1].id == id {
      i := |cs| - 1;
    } else {
      i := LastIndexOf(p, id);
      assert cs[i] == p[i];
    }
  }

  /** A second run over the same list leaves every row as the first run left it. */
  lemma SyncRowStable(drops: map<string, DropRow>, cs: seq<DropCampaign>, id: string)
    requires id in SyncDrops(drops, cs)
    ensures SyncDrops(SyncDrops(drops, cs), cs)[id] == SyncDrops(drops, cs)[id]
  {
    var once := SyncDrops(drops, cs);
    SyncStatusOnly(once, cs, id);
    if id in IdsOf(cs) {
      var i := LastIndexOf(cs, id);
      SyncLastStatus(drops, cs, i);
      SyncLastStatus(once, cs, i);
    } else {
      SyncUntouched(once, cs, id);
    }
  }

  /** A second run over the same list leaves `Games` as the first run left it. */
  lemma SyncGamesIdempotent(games: map<int32, string>, cs: seq<DropCampaign>)
    ensures SyncGames(SyncGames(games, cs), cs) == SyncGames(games, cs)
  {
    var once := SyncGames(games, cs);
    forall g | g in once
      ensures SyncGames(once, cs)[g] == once[g]
    {
      SyncKeepsGame(once, cs, g);
    }
  }

  /** A second run over the same list leaves `Drops` as the first run left it. */
  lemma SyncDropsIdempotent(drops: map<string, DropRow>, cs: seq<DropCampaign>)
    ensures SyncDrops(SyncDrops(drops, cs), cs) == SyncDrops(drops, cs)
  {
    var once := SyncDrops(drops, cs);
    forall id | id in once
      ensures SyncDrops(once, cs)[id] == once[id]
    {
      SyncRowStable(drops, cs, id);
    }
  }

  /** Running the pass a second time over the same list leaves both tables as they are. */
  lemma SyncIdempotent(t: Tables, cs: seq<DropCampaign>)
    ensures Sync(Sync(t, cs), cs) == Sync(t, cs)
  {
    SyncGamesIdempotent(t.games, cs);
    SyncDropsIdempotent(t.drops, cs);
  }

  /** Dropping the last campaign keeps the ids distinct, and the last id is not among the rest. */
  lemma DistinctPrefix(cs: seq<DropCampaign>)
    requires DistinctIds(cs) && cs != []
    ensures DistinctIds(cs[..|cs| - 1])
    ensures cs[|cs| - 1].id !in IdsOf(cs[..|cs| - 1])
  {
    NotFetchedBefore(cs, |cs| - 1, cs[|cs| - 1].id);
  }

  /** All occurrences of an id in the list carry the same status. */
  predicate OneStatusPerId(cs: seq<DropCampaign>)
  {
    forall i, j :: 0 <= i < |cs| && 0 <= j < |cs| && cs[i].id == cs[j].id ==> cs[i].status == cs[j].status
  }

  /** Every fetched campaign is stored, with the fetched status. */
  predicate AllStored(drops: map<string, DropRow>, cs: seq<DropCampaign>)
  {
    forall i :: 0 <= i < |cs| ==> cs[i].id in drops && drops[cs[i].id].status == cs[i].status
  }

  /**
   A pass reports nothing exactly when every fetched campaign is already
   stored with its fetched status, and then it changes no row.
   */
  lemma {:induction false} SyncQuiet(drops: map<string, DropRow>, cs: seq<DropCampaign>)
    ensures SyncEvents(drops, cs) == [] <==> AllStored(drops, cs)
    ensures AllStored(drops, cs) ==> SyncDrops(drops, cs) == drops
  {
    if cs != [] {
      var p := cs[..|cs| - 1];
      var c := cs[|cs| - 1];
      SyncQuiet(drops, p);
      assert forall i :: 0 <= i < |p| ==> p[i] == cs[i];
      if AllStored(drops, cs) {
        assert AllStored(drops, p);
        assert StepEvents(drops, c) == [];
      }
      if SyncEvents(drops, cs) == [] {
        assert SyncEvents(drops, p) == [];
        assert StepEvents(drops, c) == [];
      }
    }
  }

  /**
   A second run over the same list reports nothing exactly when every id
   occurring more than once carries one status; distinct ids are a special
   case.
   */
  lemma SecondRunQuiet(t: Tables, cs: seq<DropCampaign>)
    ensures SyncEvents(Sync(t, cs).drops, cs) == [] <==> OneStatusPerId(cs)
    ensures DistinctIds(cs) ==> SyncEvents(Sync(t, cs).drops, cs) == []
  {
    var drops := SyncDrops(t.drops, cs);
    SyncQuiet(drops, cs);
    if OneStatusPerId(cs) {
      forall i | 0 <= i < |cs|
        ensures cs[i].id in drops && drops[cs[i].id].status == cs[i].status
      {
        IdsOfMembers(cs, cs[i].id);
        var j := LastIndexOf(cs, cs[i].id);
        SyncLastStatus(t.drops, cs, j);
      }
    }
  }

  /**
   Each campaign that was not stored is announced exactly once, however
   often it occurs in the list; a stored one is never announced.
   */
  lemma {:induction false} NewReportedOnce(drops: map<string, DropRow>, cs: seq<DropCampaign>, id: string)
    ensures multiset(SyncEvents(drops, cs))[New(id)] == if id !in drops && id in IdsOf(cs) then 1 else 0
  {
    if cs != [] {
      NewReportedOnce(drops, cs[..|cs| - 1], id);
    }
  }

  /** No event names a campaign that is not in the fetched list. */
  lemma {:induction false} NoEventsForUnfetched(drops: map<string, DropRow>, cs: seq<DropCampaign>, id: string)
    requires id !in IdsOf(cs)
    ensures EventsFor(SyncEvents(drops, cs), id) == []
  {
    if cs != [] {
      var p := cs[..|cs| - 1];
      var e := StepEvents(SyncDrops(drops, p), cs[|cs| - 1]);
      NoEventsForUnfetched(drops, p, id);
      EventsForAppend(SyncEvents(drops, p), e, id);
      EventsForOther(e, id);
    }
  }

  /**
   With distinct ids, the last campaign is named by no earlier event, and
   reports against the tables before the pass.
   */
  lemma LastCampaignEvents(drops: map<string, DropRow>, cs: seq<DropCampaign>)
    requires DistinctIds(cs) && cs != []
    ensures EventsFor(SyncEvents(drops, cs[..|cs| - 1]), cs[|cs| - 1].id) == []
    ensures EventsFor(StepEvents(SyncDrops(drops, cs[..|cs| - 1]), cs[|cs| - 1]), cs[|cs| - 1].id)
              == StepEvents(drops, cs[|cs| - 1])
  {
    var p := cs[..|cs| - 1];
    var c := cs[|cs| - 1];
    DistinctPrefix(cs);
    NoEventsForUnfetched(drops, p, c.id);
    if c.id in drops {
      SyncUntouched(drops, p, c.id);
    }
    assert StepEvents(SyncDrops(drops, p), c) == StepEvents(drops, c);
    EventsForOwn(StepEvents(drops, c), c.id);
  }

  /**
   With distinct ids, the events naming a fetched campaign are exactly what
   that campaign reports against the tables as they were before the pass:
   one `New` if it was not stored, one `StatusChanged` with the fetched
   status if the stored status differs, and nothing if it is equal.
   */
  lemma {:induction false} EventsPerCampaign(drops: map<string, DropRow>, cs: seq<DropCampaign>, i: nat)
    requires DistinctIds(cs) && i < |cs|
    ensures EventsFor(SyncEvents(drops, cs), cs[i].id) == StepEvents(drops, cs[i])
    decreases |cs|, 1
  {
    if i == |cs| - 1 {
      var p := cs[..|cs| - 1];
      var e := StepEvents(SyncDrops(drops, p), cs[i]);
      assert SyncEvents(drops, cs) == SyncEvents(drops, p) + e;
      EventsForAppend(SyncEvents(drops, p), e, cs[i].id);
      LastCampaignEvents(drops, cs);
    } else {
      EarlierCampaignEvents(drops, cs, i);
    }
  }

  /** The inductive case of `EventsPerCampaign`: a campaign before the last one. */
  lemma {:induction false} EarlierCampaignEvents(drops: map<string, DropRow>, cs: seq<DropCampaign>, i: nat)
    requires DistinctIds(cs) && i < |cs| - 1
    ensures EventsFor(SyncEvents(drops, cs), cs[i].id) == StepEvents(drops, cs[i])
    decreases |cs|, 0
  {
    var p := cs[..|cs| - 1];
    var e := StepEvents(SyncDrops(drops, p), cs[|cs| - 1]);
    assert SyncEvents(drops, cs) == SyncEvents(drops, p) + e;
    EventsForAppend(SyncEvents(drops, p), e, cs[i].id);
    DistinctPrefix(cs);
    assert p[i] == cs[i];
    EventsPerCampaign(drops, p, i);
    assert cs[|cs| - 1].id != cs[i].id;
    EventsForOther(e, cs[i].id);
  }

  /**
   A campaign fetched twice with two statuses flips its stored status back
   and forth on every run, whatever the tables held before, and each flip
   is reported.
   */
  lemma DuplicateIdsReportAgain(t: Tables, c: DropCampaign, s: string)
    requires s != c.status
    ensures var cs := [c, c.(status := s)];
            SyncEvents(Sync(t, cs).drops, cs)
              == [StatusChanged(c.id, c.status), StatusChanged(c.id, s)]
  {
  }
}
