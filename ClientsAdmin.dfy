/**
 * The clients admin screen: the list of client logos, and a dialog whose
 * form creates a logo or edits one. Its React state cells (`clients`,
 * `loading`, `dialogOpen`, `editingClient`, `form`) are the fields of
 * `Screen`; the `client_logos` table it writes to is `db`.
 */
module ClientsAdmin {
  import opened Wrappers
  import opened Remote
  import opened Numerals
  import opened ClientLogos

  /** The dialog's draft; an absent website is the empty string here. */
  datatype ClientForm = ClientForm(
    clientName: string,
    logoUrl: string,
    websiteUrl: string,
    isPublished: bool,
    displayOrder: int)

  /** The draft for editing an existing client: every column copied, a null
      website shown as ''. */
  function FormOf(c: ClientLogo): (f: ClientForm)
    ensures f.clientName == c.cols.clientName && f.logoUrl == c.cols.logoUrl
    ensures f.isPublished == c.cols.isPublished && f.displayOrder == c.cols.displayOrder
    ensures f.websiteUrl == "" <==> c.cols.websiteUrl in {None, Some("")}
    ensures c.cols.websiteUrl.Some? ==> f.websiteUrl == c.cols.websiteUrl.value
  {
    ClientForm(c.cols.clientName, c.cols.logoUrl, c.cols.websiteUrl.GetOr(""),
               c.cols.isPublished, c.cols.displayOrder)
  }

  /** The draft for a new client: empty text, shown in the carousel, and
      placed after the `count` clients already listed. */
  function NewForm(count: nat): ClientForm
  {
    ClientForm("", "", "", true, count)
  }

  /** The columns `update(form)` and `insert([form])` write: the form as it
      is, so an empty website is stored as '' and not as null. */
  function ColumnsOf(f: ClientForm): ClientColumns
  {
    ClientColumns(f.clientName, f.logoUrl, Some(f.websiteUrl), f.isPublished, f.displayOrder)
  }

  /** Opening a client and saving the draft untouched writes its row back
      unchanged, except that a null website becomes ''. */
  lemma ResubmitUnchanged(c: ClientLogo)
    ensures ColumnsOf(FormOf(c)) == c.cols.(websiteUrl := Some(c.cols.websiteUrl.GetOr("")))
    ensures ColumnsOf(FormOf(c)) == c.cols <==> c.cols.websiteUrl.Some?
  {
  }

  /** The list after `fetchClients()` when the query answers with `status`:
      an error keeps the old list, null data empties it, and otherwise it is
      the whole table in display order. */
  function Refreshed(prev: seq<ClientLogo>, status: Status, rows: seq<ClientLogo>): seq<ClientLogo>
  {
    match status
    case Done => SortBy(rows, DisplayOrder)
    case NoData => []
    case Failed => prev
  }

  class Screen {
    const db: Table<ClientColumns>
    var clients: seq<ClientLogo>
    var loading: bool
    var dialogOpen: bool
    var editing: Option<ClientLogo>
    var form: ClientForm

    ghost predicate Valid()
      reads this, db
    {
      db.Valid()
    }

    /** The state on mount, before the first fetch. */
    constructor (db: Table<ClientColumns>)
      requires db.Valid()
      ensures Valid() && this.db == db
      ensures clients == [] && loading && !dialogOpen && editing == None
      ensures form == NewForm(0)
    {
      this.db := db;
      clients := [];
      loading := true;
      dialogOpen := false;
      editing := None;
      form := NewForm(0);
    }

    /** `fetchClients()`: the whole table ordered by display order. */
    method FetchClients(status: Status)
      modifies this`clients, this`loading
      ensures clients == Refreshed(old(clients), status, db.rows)
      ensures !loading
    {
      var resp := db.Select(DisplayOrder, status);
      if !resp.failed {
        clients := resp.data.GetOr([]);
      }
      loading := false;
    }

    /** `openDialog(client?)`: edit a listed client, or start a new one. */
    method OpenDialog(client: Option<ClientLogo>)
      modifies this`editing, this`form, this`dialogOpen
      ensures dialogOpen
      ensures editing == client
      ensures form == match client
        case Some(c) => FormOf(c)
        case None => NewForm(|clients|)
    {
      editing := client;
      match client {
        case Some(c) => form := FormOf(c);
        case None => form := NewForm(|clients|);
      }
      dialogOpen := true;
    }

    /** The display-order input: `parseInt(value) || 0`. */
    method SetDisplayOrder(text: string)
      modifies this`form
      ensures form == old(form).(displayOrder := ParseIntOrZero(text))
    {
      form := form.(displayOrder := ParseIntOrZero(text));
    }

    /** The dialog's own open/close events (Cancel, the close button). */
    method OnOpenChange(open: bool)
      modifies this`dialogOpen
      ensures dialogOpen == open
    {
      dialogOpen := open;
    }

    /**
     * `handleSubmit`: update the edited client's row with the form, or
     * insert the form as a new row. On success the dialog closes and the
     * list is fetched again (answering `refetch`); on failure nothing
     * changes, so the dialog stays as it was with the draft intact.
     */
    method HandleSubmit(status: Status, refetch: Status)
      requires Valid()
      modifies this, db
      ensures Valid()
      ensures editing == old(editing) && form == old(form)
      ensures db.rows == if status.Failed? then old(db.rows)
        else if old(editing).Some? then Updated(old(db.rows), old(editing).value.id, Overwrite(ColumnsOf(old(form))))
        else Inserted(old(db.rows), ColumnsOf(old(form)))
      ensures status.Failed? ==>
        dialogOpen == old(dialogOpen) && clients == old(clients) && loading == old(loading)
      ensures !status.Failed? ==>
        !dialogOpen && clients == Refreshed(old(clients), refetch, db.rows) && !loading
    {
      var ok;
      match editing {
        case Some(c) => ok := db.Update(c.id, Overwrite(ColumnsOf(form)), status);
        case None => ok := db.Insert(ColumnsOf(form), status);
      }
      if ok {
        dialogOpen := false;
        FetchClients(refetch);
      }
    }

    /** `togglePublish(client)`: send the negation of the listed flag. */
    method TogglePublish(client: ClientLogo, status: Status, refetch: Status)
      requires Valid()
      modifies this, db
      ensures Valid()
      ensures db.rows == if status.Failed? then old(db.rows)
        else Updated(old(db.rows), client.id, SetPublished(!client.cols.isPublished))
      ensures clients == if status.Failed? then old(clients) else Refreshed(old(clients), refetch, db.rows)
      ensures loading == (status.Failed? && old(loading))
      ensures dialogOpen == old(dialogOpen) && editing == old(editing) && form == old(form)
    {
      var ok := db.Update(client.id, SetPublished(!client.cols.isPublished), status);
      if ok {
        FetchClients(refetch);
      }
    }

    /** `deleteClient(id)`: nothing happens unless the user confirms. */
    method DeleteClient(id: Id, confirmed: bool, status: Status, refetch: Status)
      requires Valid()
      modifies this, db
      ensures Valid()
      ensures db.rows == if !confirmed || status.Failed? then old(db.rows) else Deleted(old(db.rows), id)
      ensures clients == if !confirmed || status.Failed? then old(clients)
        else Refreshed(old(clients), refetch, db.rows)
      ensures loading == ((!confirmed || status.Failed?) && old(loading))
      ensures dialogOpen == old(dialogOpen) && editing == old(editing) && form == old(form)
    {
      if !confirmed {
        return;
      }
      var ok := db.Delete(id, status);
      if ok {
        FetchClients(refetch);
      }
    }
  }
}
