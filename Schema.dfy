/**
 The entities the reconciliation pass reads and writes: the fetched `Game`
 and `DropCampaign` values, the row stored in the `Drops` table, the two
 kinds of log event, and the column limits of the relational schema.
 */
module Schema {

  /** Kotlin's `Int`, the type of a game id and of the `Games.id` column. */
  newtype int32 = x: int | -0x8000_0000 <= x < 0x8000_0000

  /** `varchar(255)` of `Games.name` and `Drops.name`. */
  const MaxNameLength: nat := 255
  /** `varchar(40)` of `Drops.id`. */
  const MaxDropIdLength: nat := 40
  /** `varchar(20)` of `Drops.status`. */
  const MaxStatusLength: nat := 20

  /** A game as fetched; identity is `id`. */
  datatype Game = Game(id: int32, displayName: string)

  /**
   A campaign as fetched. `startAt` and `endAt` are instants kept as opaque
   integers: the model copies them into the row without interpreting them.
   */
  datatype DropCampaign = DropCampaign(
    id: string,
    name: string,
    game: Game,
    status: string,
    startAt: int,
    endAt: int)

  /** One row of the `Drops` table, keyed (outside the row) by the campaign id. */
  datatype DropRow = DropRow(
    name: string,
    gameId: int32,
    started: int,
    ended: int,
    status: string)

  /**
   What the pass reports: `New` stands for the "[New]" lines written for a
   campaign not yet stored, `StatusChanged` for the "[Update]" line written
   when a stored campaign's status differs from the fetched one.
   */
  datatype Event =
    | New(id: string)
    | StatusChanged(id: string, newStatus: string)

  /** The values of `c` fit the columns they are written to. */
  predicate Fits(c: DropCampaign)
  {
    && |c.id| <= MaxDropIdLength
    && |c.name| <= MaxNameLength
    && |c.game.displayName| <= MaxNameLength
    && |c.status| <= MaxStatusLength
  }

  /** The values of a stored row fit their columns. */
  predicate RowFits(r: DropRow)
  {
    |r.name| <= MaxNameLength && |r.status| <= MaxStatusLength
  }

  /** Two rows agree on every column but `status`. */
  predicate SameExceptStatus(a: DropRow, b: DropRow)
  {
    a.name == b.name && a.gameId == b.gameId && a.started == b.started && a.ended == b.ended
  }

  /**
   The row that inserting campaign `c` writes: every column is copied from
   the campaign, so a campaign that fits its columns gives a row that fits.
   */
  function RowOf(c: DropCampaign): (r: DropRow)
    ensures Fits(c) ==> RowFits(r)
  {
    DropRow(c.name, c.game.id, c.startAt, c.endAt, c.status)
  }
}
