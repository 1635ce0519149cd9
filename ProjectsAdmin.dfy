/**
 * The projects admin screen: the list of portfolio projects, and a dialog
 * whose form creates a project or edits one. Its React state cells
 * (`projects`, `loading`, `dialogOpen`, `editingProject`, `form`) are the
 * fields of `Screen`; the `projects` table it writes to is `db`.
 */
module ProjectsAdmin {
  import opened Wrappers
  import opened Remote
  import opened Numerals
  import opened Slug

  /** Every column of a project except its id. */
  datatype ProjectColumns = ProjectColumns(
    title: string,
    slug: string,
    location: Option<string>,
    clientName: Option<string>,
    projectType: Option<string>,
    description: Option<string>,
    heroImage: Option<string>,
    isPublished: bool,
    displayOrder: int)

  type Project = Row<ProjectColumns>

  /** The dialog's draft; absent optional fields are the empty string here. */
  datatype ProjectForm = ProjectForm(
    title: string,
    slug: string,
    location: string,
    clientName: string,
    projectType: string,
    description: string,
    heroImage: string,
    isPublished: bool,
    displayOrder: int)

  /** The sort key of `order('display_order', ...)`. */
  function DisplayOrder(c: ProjectColumns): int
  {
    c.displayOrder
  }

  /** The patch `{ is_published: b }`. */
  function SetPublished(b: bool): ProjectColumns -> ProjectColumns
  {
    (c: ProjectColumns) => c.(isPublished := b)
  }

  /** The draft for editing an existing project: title, slug, flag and order
      copied, each null optional field shown as ''. */
  function FormOf(p: Project): (f: ProjectForm)
    ensures f.title == p.cols.title && f.slug == p.cols.slug
    ensures f.isPublished == p.cols.isPublished && f.displayOrder == p.cols.displayOrder
    ensures f.location == p.cols.location.GetOr("") && f.clientName == p.cols.clientName.GetOr("")
    ensures f.projectType == p.cols.projectType.GetOr("") && f.description == p.cols.description.GetOr("")
    ensures f.heroImage == p.cols.heroImage.GetOr("")
  {
    ProjectForm(p.cols.title, p.cols.slug, p.cols.location.GetOr(""), p.cols.clientName.GetOr(""),
                p.cols.projectType.GetOr(""), p.cols.description.GetOr(""), p.cols.heroImage.GetOr(""),
                p.cols.isPublished, p.cols.displayOrder)
  }

  /** The draft for a new project: empty text, a draft (unpublished), and
      placed after the `count` projects already listed. */
  function NewForm(count: nat): ProjectForm
  {
    ProjectForm("", "", "", "", "", "", "", false, count)
  }

  /** `{ ...form, slug: form.slug || generateSlug(form.title) }`: the form,
      with a slug derived from the title when none was typed. */
  function Payload(form: ProjectForm): (p: ProjectForm)
    ensures p == form.(slug := p.slug)
    ensures form.slug != "" ==> p.slug == form.slug
    ensures form.slug == "" ==> p.slug == GenerateSlug(form.title) && IsSlug(p.slug)
  {
    form.(slug := if form.slug != "" then form.slug else GenerateSlug(form.title))
  }

  /** Building the payload of a payload changes nothing more: a derived slug
      is derived again identically, even when it came out empty. */
  lemma PayloadIdempotent(form: ProjectForm)
    ensures Payload(Payload(form)) == Payload(form)
  {
    if form.slug == "" {
      GenerateSlugIdempotent(form.title);
    }
  }

  /** The columns the payload writes: the form as it is, so empty optional
      fields are stored as '' and not as null. */
  function ColumnsOf(f: ProjectForm): ProjectColumns
  {
    ProjectColumns(f.title, f.slug, Some(f.location), Some(f.clientName), Some(f.projectType),
                   Some(f.description), Some(f.heroImage), f.isPublished, f.displayOrder)
  }

  predicate HasNoNulls(c: ProjectColumns)
  {
    c.location.Some? && c.clientName.Some? && c.projectType.Some? && c.description.Some? && c.heroImage.Some?
  }

  /** Opening a project and saving the draft untouched writes its row back
      unchanged exactly when no optional field is null and the slug survives:
      it is non-empty, or the title derives the same empty slug. */
  lemma ResubmitUnchanged(p: Project)
    ensures ColumnsOf(Payload(FormOf(p))) == p.cols
      <==> HasNoNulls(p.cols) && (p.cols.slug != "" || GenerateSlug(p.cols.title) == "")
  {
  }

  /** The list after `fetchProjects()` when the query answers with `status`:
      an error keeps the old list, null data empties it, and otherwise it is
      the whole table in display order. */
  function Refreshed(prev: seq<Project>, status: Status, rows: seq<Project>): seq<Project>
  {
    match status
    case Done => SortBy(rows, DisplayOrder)
    case NoData => []
    case Failed => prev
  }

  /** Sending `{ is_published: !b }` for a row whose flag is `b`, then the
      negation of the refreshed flag, gives the table back. */
  lemma TogglePublishTwice(rows: seq<Project>, id: Id, b: bool)
    requires forall i :: 0 <= i < |rows| && rows[i].id == id ==> rows[i].cols.isPublished == b
    ensures Updated(Updated(rows, id, SetPublished(!b)), id, SetPublished(b)) == rows
  {
    UpdatedUndone(rows, id, SetPublished(!b), SetPublished(b));
  }

  /** The toggle writes only `is_published` of the one row with that id. */
  lemma TogglePublishOnly(rows: seq<Project>, k: nat)
    requires UniqueIds(rows) && k < |rows|
    ensures var p := rows[k];
      Updated(rows, p.id, SetPublished(!p.cols.isPublished))
      == rows[k := Row(p.id, p.cols.(isPublished := !p.cols.isPublished))]
  {
    UpdatedOne(rows, k, SetPublished(!rows[k].cols.isPublished));
  }

  class Screen {
    const db: Table<ProjectColumns>
    var projects: seq<Project>
    var loading: bool
    var dialogOpen: bool
    var editing: Option<Project>
    var form: ProjectForm

    ghost predicate Valid()
      reads this, db
    {
      db.Valid()
    }

    /** The state on mount, before the first fetch. */
    constructor (db: Table<ProjectColumns>)
      requires db.Valid()
      ensures Valid() && this.db == db
      ensures projects == [] && loading && !dialogOpen && editing == None
      ensures form == NewForm(0)
    {
      this.db := db;
      projects := [];
      loading := true;
      dialogOpen := false;
      editing := None;
      form := NewForm(0);
    }

    /** `fetchProjects()`: the whole table ordered by display order. */
    method FetchProjects(status: Status)
      modifies this`projects, this`loading
      ensures projects == Refreshed(old(projects), status, db.rows)
      ensures !loading
    {
      var resp := db.Select(DisplayOrder, status);
      if !resp.failed {
        projects := resp.data.GetOr([]);
      }
      loading := false;
    }

    /** `openDialog(project?)`: edit a listed project, or start a new one. */
    method OpenDialog(project: Option<Project>)
      modifies this`editing, this`form, this`dialogOpen
      ensures dialogOpen
      ensures editing == project
      ensures form == match project
        case Some(p) => FormOf(p)
        case None => NewForm(|projects|)
    {
      editing := project;
      match project {
        case Some(p) => form := FormOf(p);
        case None => form := NewForm(|projects|);
      }
      dialogOpen := true;
    }

    /** The display-order input: `parseInt(value) || 0`. */
    method SetDisplayOrder(text: string)
      modifies this`form
      ensures form == old(form).(displayOrder := ParseIntOrZero(text))
    {
      form := form.(displayOrder := ParseIntOrZero(text));
    }

    /** The dialog's own open/close events (Cancel, the close button). */
    method OnOpenChange(open: bool)
      modifies this`dialogOpen
      ensures dialogOpen == open
    {
      dialogOpen := open;
    }

    /**
     * `handleSubmit`: build the payload, then update the edited project's
     * row with it or insert it as a new row. On success the dialog closes
     * and the list is fetched again (answering `refetch`); on failure
     * nothing changes, so the dialog stays as it was with the draft intact.
     */
    method HandleSubmit(status: Status, refetch: Status)
      requires Valid()
      modifies this, db
      ensures Valid()
      ensures editing == old(editing) && form == old(form)
      ensures db.rows == if status.Failed? then old(db.rows)
        else if old(editing).Some? then Updated(old(db.rows), old(editing).value.id, Overwrite(ColumnsOf(Payload(old(form)))))
        else Inserted(old(db.rows), ColumnsOf(Payload(old(form))))
      ensures status.Failed? ==>
        dialogOpen == old(dialogOpen) && projects == old(projects) && loading == old(loading)
      ensures !status.Failed? ==>
        !dialogOpen && projects == Refreshed(old(projects), refetch, db.rows) && !loading
    {
      var payload := Payload(form);
      var ok;
      match editing {
        case Some(p) => ok := db.Update(p.id, Overwrite(ColumnsOf(payload)), status);
        case None => ok := db.Insert(ColumnsOf(payload), status);
      }
      if ok {
        dialogOpen := false;
        FetchProjects(refetch);
      }
    }

    /** `togglePublish(project)`: send the negation of the listed flag. */
    method TogglePublish(project: Project, status: Status, refetch: Status)
      requires Valid()
      modifies this, db
      ensures Valid()
      ensures db.rows == if status.Failed? then old(db.rows)
        else Updated(old(db.rows), project.id, SetPublished(!project.cols.isPublished))
      ensures projects == if status.Failed? then old(projects) else Refreshed(old(projects), refetch, db.rows)
      ensures loading == (status.Failed? && old(loading))
      ensures dialogOpen == old(dialogOpen) && editing == old(editing) && form == old(form)
    {
      var ok := db.Update(project.id, SetPublished(!project.cols.isPublished), status);
      if ok {
        FetchProjects(refetch);
      }
    }

    /** `deleteProject(id)`: nothing happens unless the user confirms. */
    method DeleteProject(id: Id, confirmed: bool, status: Status, refetch: Status)
      requires Valid()
      modifies this, db
      ensures Valid()
      ensures db.rows == if !confirmed || status.Failed? then old(db.rows) else Deleted(old(db.rows), id)
      ensures projects == if !confirmed || status.Failed? then old(projects)
        else Refreshed(old(projects), refetch, db.rows)
      ensures loading == ((!confirmed || status.Failed?) && old(loading))
      ensures dialogOpen == old(dialogOpen) && editing == old(editing) && form == old(form)
    {
      if !confirmed {
        return;
      }
      var ok := db.Delete(id, status);
      if ok {
        FetchProjects(refetch);
      }
    }
  }
}
