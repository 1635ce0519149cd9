/**
 * The `client_logos` table, read by the public carousel and written by the
 * clients admin screen.
 */
module ClientLogos {
  import opened Wrappers
  import opened Remote

  /** Every column of a client logo except its id. */
  datatype ClientColumns = ClientColumns(
    clientName: string,
    logoUrl: string,
    websiteUrl: Option<string>,
    isPublished: bool,
    displayOrder: int)

  type ClientLogo = Row<ClientColumns>

  /** The sort key of `order('display_order', ...)`. */
  function DisplayOrder(c: ClientColumns): int
  {
    c.displayOrder
  }

  /** The filter of `eq('is_published', true)`. */
  function IsPublished(c: ClientColumns): bool
  {
    c.isPublished
  }

  /** The patch `{ is_published: b }`. */
  function SetPublished(b: bool): ClientColumns -> ClientColumns
  {
    (c: ClientColumns) => c.(isPublished := b)
  }

  /** Sending `{ is_published: !b }` for a row whose flag is `b`, then `{
      is_published: b }` after the refresh shows the new flag, gives the
      table back: toggling twice is the identity. */
  lemma TogglePublishTwice(rows: seq<ClientLogo>, id: Id, b: bool)
    requires forall i :: 0 <= i < |rows| && rows[i].id == id ==> rows[i].cols.isPublished == b
    ensures Updated(Updated(rows, id, SetPublished(!b)), id, SetPublished(b)) == rows
  {
    UpdatedUndone(rows, id, SetPublished(!b), SetPublished(b));
  }

  /** The toggle writes only `is_published` of the one row with that id. */
  lemma TogglePublishOnly(rows: seq<ClientLogo>, k: nat)
    requires UniqueIds(rows) && k < |rows|
    ensures var c := rows[k];
      Updated(rows, c.id, SetPublished(!c.cols.isPublished))
      == rows[k := Row(c.id, c.cols.(isPublished := !c.cols.isPublished))]
  {
    UpdatedOne(rows, k, SetPublished(!rows[k].cols.isPublished));
  }
}
