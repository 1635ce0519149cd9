# Portfolio site admin and client carousel, modelled in Dafny

This project models the logic of three parts of a luxury-interiors portfolio
site built on React and a hosted Postgres service:

- **The projects admin screen.** It has a list of portfolio projects and a
  dialog that creates or edits one. When no slug is typed, the slug is derived
  from the project title.
- **The clients admin screen.** It has a list of client logos and a dialog
  that creates or edits one.
- **The public "Trusted By Leading Brands" carousel.** It loads the published
  client logos in display order and doubles the list for a seamless marquee.

The modules are:

- `Wrappers`: `Option`.
- `Remote`: a table of the hosted service. It is a class `Table` whose `rows`
  field is the committed server state. Pure functions give the answer to each
  request: `Inserted`, `Updated`, `Deleted`, `Where` and `SortBy`. Every
  request takes the service's answer as an input `Status`:
  - `Done`: data, no error;
  - `NoData`: null data, no error;
  - `Failed`: an error.
- `Numerals`: `${n}` rendering of integers, and `parseInt(text) || 0` as the
  display-order input computes it.
- `Slug`: `generateSlug`, written character by character over ASCII.
- `ClientLogos`: the `client_logos` row, which the clients screen and the
  carousel share.
- `ProjectsAdmin` and `ClientsAdmin`: each screen is a class `Screen`.
  - Its fields are the component's state cells: the list, `loading`,
    `dialogOpen`, the record being edited, and the form.
  - Its methods are the handlers. Each takes the `Status` of its request and,
    after a mutation, the `Status` of the refetch that follows.
- `ClientLogosSection`: a class `Section` (the fetched list and `loading`) and
  the pure render decision.

Both admin screens send the form verbatim
(src/pages/admin/ProjectsAdmin.tsx:103-106, src/pages/admin/ClientsAdmin.tsx:84
and :97), so an empty optional field is stored as `''` and never as null.
`ColumnsOf` in both admin modules follows this, and `ResubmitUnchanged` states
the consequence.

## Model

| member | source | states |
|---|---|---|
| Slug.GenerateSlug | src/pages/admin/ProjectsAdmin.tsx:65-67 | the derived slug is always well formed: only `[a-z0-9-]`, no `--`, and no hyphen at either end |
| Slug.HyphenateShape | src/pages/admin/ProjectsAdmin.tsx:66 | collapsing every run of characters outside `[a-z0-9]` leaves only `[a-z0-9-]` and never two hyphens in a row; the output is empty exactly when the input is, and starts with a hyphen exactly when the input starts with a separator |
| Slug.FixedPointsAreSlugs | src/pages/admin/ProjectsAdmin.tsx:66 | a string is left unchanged by slug derivation if and only if it is a well-formed slug |
| Slug.SlugIsFixedPoint | src/pages/admin/ProjectsAdmin.tsx:66 | a well-formed slug derives to itself |
| Slug.GenerateSlugIdempotent | src/pages/admin/ProjectsAdmin.tsx:66 | deriving a slug from a derived slug gives the same slug |
| Slug.SlugKeepsAlnums | src/pages/admin/ProjectsAdmin.tsx:66 | the letters and digits of the slug are exactly those of the lowered title, in the same order |
| Slug.EmptySlug | src/pages/admin/ProjectsAdmin.tsx:66 | the slug is empty if and only if no character of the title lowers to an ASCII letter or digit |
| Slug.Example | src/pages/admin/ProjectsAdmin.tsx:66 | `Villa Al Noor Phase 2!` derives `villa-al-noor-phase-2` |
| ProjectsAdmin.Payload | src/pages/admin/ProjectsAdmin.tsx:103-106 | the payload equals the form in every field but the slug; a non-empty typed slug is kept verbatim (whitespace included), and an empty one is replaced by the slug derived from the title, which is well formed |
| ProjectsAdmin.PayloadIdempotent | src/pages/admin/ProjectsAdmin.tsx:103-106 | building the payload of a payload changes nothing |
| ProjectsAdmin.FormOf | src/pages/admin/ProjectsAdmin.tsx:72-82 | the edit form copies title, slug, publish flag and display order, and shows each optional field as its value or `''` when null |
| ProjectsAdmin.ResubmitUnchanged | src/pages/admin/ProjectsAdmin.tsx:72-82 | saving an opened project untouched writes its row back unchanged if and only if no optional field is null and the slug is non-empty or the title derives the empty slug |
| ProjectsAdmin.TogglePublishTwice | src/pages/admin/ProjectsAdmin.tsx:136-147 | toggling the flag of a row and toggling it back restores the table |
| ProjectsAdmin.TogglePublishOnly | src/pages/admin/ProjectsAdmin.tsx:136-147 | with unique ids, the toggle changes only `is_published` of the one row with that id, to its negation |
| ProjectsAdmin.Screen.constructor | src/pages/admin/ProjectsAdmin.tsx:29-45 | on mount: empty list, loading, dialog closed, nothing edited, an empty unpublished form |
| ProjectsAdmin.Screen.FetchProjects | src/pages/admin/ProjectsAdmin.tsx:51-63 | an error keeps the list, null data empties it, otherwise the list is the whole table in ascending display order; loading is false afterwards |
| ProjectsAdmin.Screen.OpenDialog | src/pages/admin/ProjectsAdmin.tsx:69-98 | the dialog opens, the edited project is the one passed (or none), and the form is its edit form, or an empty unpublished form whose display order is the length of the list |
| ProjectsAdmin.Screen.SetDisplayOrder | src/pages/admin/ProjectsAdmin.tsx:239 | only the form's display order changes, to the integer JavaScript's `parseInt` reads from the text, or 0 when it reads none |
| ProjectsAdmin.Screen.OnOpenChange | src/pages/admin/ProjectsAdmin.tsx:173 | the dialog's open state follows its own open/close events |
| ProjectsAdmin.Screen.HandleSubmit | src/pages/admin/ProjectsAdmin.tsx:100-134 | when editing, only the row with the edited id is overwritten with the payload; otherwise exactly one new row with a fresh id is appended; on error the table, list, dialog and form are unchanged; on success the dialog closes and the list is refetched |
| ProjectsAdmin.Screen.TogglePublish | src/pages/admin/ProjectsAdmin.tsx:136-147 | the table's row with that id gets the negated listed flag and the list is refetched; an error changes nothing; the dialog and form are untouched |
| ProjectsAdmin.Screen.DeleteProject | src/pages/admin/ProjectsAdmin.tsx:149-163 | unless confirmed nothing changes; when confirmed and accepted, exactly the rows with that id are removed and the list is refetched |
| ClientsAdmin.FormOf | src/pages/admin/ClientsAdmin.tsx:58-64 | the edit form copies name, logo, publish flag and display order; the website field is `''` exactly when the website is null or empty, and the website otherwise |
| ClientsAdmin.ResubmitUnchanged | src/pages/admin/ClientsAdmin.tsx:58-64 | saving an opened client untouched writes back its row with a null website turned into `''`, so the row is unchanged if and only if its website was not null |
| ClientsAdmin.Screen.constructor | src/pages/admin/ClientsAdmin.tsx:23-35 | on mount: empty list, loading, dialog closed, nothing edited, an empty published form |
| ClientsAdmin.Screen.FetchClients | src/pages/admin/ClientsAdmin.tsx:41-53 | an error keeps the list, null data empties it, otherwise the list is the whole table in ascending display order; loading is false afterwards |
| ClientsAdmin.Screen.OpenDialog | src/pages/admin/ClientsAdmin.tsx:55-76 | the dialog opens, the edited client is the one passed (or none), and the form is its edit form, or an empty published form whose display order is the length of the list |
| ClientsAdmin.Screen.SetDisplayOrder | src/pages/admin/ClientsAdmin.tsx:192 | only the form's display order changes, to the integer JavaScript's `parseInt` reads from the text, or 0 when it reads none |
| ClientsAdmin.Screen.OnOpenChange | src/pages/admin/ClientsAdmin.tsx:146 | the dialog's open state follows its own open/close events |
| ClientsAdmin.Screen.HandleSubmit | src/pages/admin/ClientsAdmin.tsx:78-107 | when editing, only the row with the edited id is overwritten with the form verbatim; otherwise exactly one new row is appended; on error nothing changes; on success the dialog closes and the list is refetched |
| ClientsAdmin.Screen.TogglePublish | src/pages/admin/ClientsAdmin.tsx:109-120 | the table's row with that id gets the negated listed flag and the list is refetched; an error changes nothing |
| ClientsAdmin.Screen.DeleteClient | src/pages/admin/ClientsAdmin.tsx:122-136 | unless confirmed nothing changes; when confirmed and accepted, exactly the rows with that id are removed and the list is refetched |
| ClientLogos.TogglePublishTwice | src/pages/admin/ClientsAdmin.tsx:109-120 | toggling the flag of a row and toggling it back restores the table |
| ClientLogos.TogglePublishOnly | src/pages/admin/ClientsAdmin.tsx:109-120 | with unique ids, the toggle changes only `is_published` of the one row with that id, to its negation |
| Numerals.NatToString | src/components/sections/ClientLogosSection.tsx:81 | `${index}` renders a non-negative integer as a non-empty string of decimal digits |
| Numerals.DecimalValue | src/components/sections/ClientLogosSection.tsx:81 | the digits `${n}` renders read back as n |
| Numerals.IntToString | src/pages/admin/ClientsAdmin.tsx:191 | the input's value `${display_order}` is non-empty, starts with `-` exactly when the number is negative, and is decimal digits after that sign |
| Numerals.ParseInt | src/pages/admin/ClientsAdmin.tsx:192 | `parseInt` reads a number only from text that is not blank, and a negative number only after a leading `-` |
| Numerals.ParseIntOrZero | src/pages/admin/ClientsAdmin.tsx:192 | the display-order value is 0 whenever `parseInt` reads no number from the text, and any other value is the number it read |
| Numerals.ParseRendered | src/pages/admin/ClientsAdmin.tsx:192 | the display-order input reads back every integer it renders |
| Numerals.NonNumericIsZero | src/pages/admin/ClientsAdmin.tsx:192 | text whose first non-blank character is neither a digit nor a sign, the empty text included, gives 0 |
| Numerals.ParseStopsAtNonDigit | src/pages/admin/ProjectsAdmin.tsx:239 | reading stops at the first non-digit, so `12.5` or `12abc` gives 12 |
| Numerals.NatToStringInjective | src/components/sections/ClientLogosSection.tsx:81 | two different indices render to different digit strings |
| ClientLogosSection.PublishedInOrder | src/components/sections/ClientLogosSection.tsx:21-25 | the fetched list holds exactly the published rows, each as often as in the table, in non-decreasing display order |
| ClientLogosSection.Section.constructor | src/components/sections/ClientLogosSection.tsx:16-17 | on mount: no clients, loading |
| ClientLogosSection.Section.FetchClients | src/components/sections/ClientLogosSection.tsx:20-31 | only an answer with data replaces the list, with the published rows in display order; an error or null data keeps it; loading is false afterwards |
| ClientLogosSection.Duplicated | src/components/sections/ClientLogosSection.tsx:37 | the doubled list is twice as long, and positions i and i + n both hold client i |
| ClientLogosSection.ItemKey | src/components/sections/ClientLogosSection.tsx:81 | the key is the client's id, a hyphen, then only decimal digits |
| ClientLogosSection.ItemOf | src/components/sections/ClientLogosSection.tsx:79-105 | an item shows the client's logo under its name, is a link exactly when the website is neither null nor empty, and has a key starting with the client's id |
| ClientLogosSection.ItemKeyInjective | src/components/sections/ClientLogosSection.tsx:81 | the key `id-index` determines both the id and the index, even when ids contain hyphens |
| ClientLogosSection.DistinctKeys | src/components/sections/ClientLogosSection.tsx:79-81 | the keys of the doubled list are pairwise distinct, although every id appears twice |
| ClientLogosSection.LinkOf | src/components/sections/ClientLogosSection.tsx:86-105 | a logo is wrapped in a link if and only if its website is neither null nor empty, and the link is that website |
| ClientLogosSection.Render | src/components/sections/ClientLogosSection.tsx:36-110 | nothing is rendered if and only if loading is over and no client was loaded; the placeholder shows if and only if loading; otherwise client i appears at positions i and i + n with its key, name, logo and link, and all keys differ |
| Remote.SortBy | src/pages/admin/ProjectsAdmin.tsx:52-55 | `order('display_order', { ascending: true })` returns a permutation of its rows sorted by the key |
| Remote.Where | src/components/sections/ClientLogosSection.tsx:24 | `eq('is_published', true)` keeps exactly the matching rows, each as often as before |
| Remote.Inserted | src/pages/admin/ProjectsAdmin.tsx:122-124 | an insert appends one row with the given columns and an id not yet in the table, leaving the other rows as they were and the ids unique |
| Remote.Updated | src/pages/admin/ProjectsAdmin.tsx:109-112 | an update by id patches exactly the rows with that id and leaves every other row and every id as it was |
| Remote.UpdatedOne | src/pages/admin/ProjectsAdmin.tsx:109-112 | with unique ids, an update by id changes one position of the table |
| Remote.Deleted | src/pages/admin/ProjectsAdmin.tsx:152-155 | a delete by id removes every row with that id and keeps every other row, each as often as before |
| Remote.DeletedOne | src/pages/admin/ProjectsAdmin.tsx:152-155 | with unique ids, deleting the id of position k removes exactly position k |
| Remote.DeletedAbsent | src/pages/admin/ProjectsAdmin.tsx:152-155 | deleting an id that is not in the table leaves it unchanged |
| Remote.Table.Select | src/pages/admin/ProjectsAdmin.tsx:52-55 | `select('*').order('display_order')` answers with the whole table sorted by the key, an error, or null data, as the service's status says |
| Remote.Table.SelectWhere | src/components/sections/ClientLogosSection.tsx:21-25 | `select('*').eq('is_published', true).order('display_order')` answers with the matching rows sorted by the key, an error, or null data |
| Remote.Table.Insert | src/pages/admin/ProjectsAdmin.tsx:122-124 | an insert is applied exactly when the service reports no error, keeps ids unique, and otherwise leaves the table unchanged |
| Remote.Table.Update | src/pages/admin/ProjectsAdmin.tsx:109-112 | an update by id is applied exactly when the service reports no error, keeps ids unique, and otherwise leaves the table unchanged |
| Remote.Table.Delete | src/pages/admin/ProjectsAdmin.tsx:152-155 | a delete by id is applied exactly when the service reports no error, keeps ids unique, and otherwise leaves the table unchanged |

## Left out

- The hosted service client, the network, authentication and row-level
  security. Each request is answered by the `Status` input, and `Table`
  applies a request only when it does not fail.
- Server-side id generation (a uuid). `Remote.FreshId` picks an id that no
  row has yet; the model claims nothing about its format.
- The database's order among rows with equal `display_order`. The model uses
  a stable insertion sort, and it proves only that the result is sorted and a
  permutation.
- Slug uniqueness. The code never checks it, so the model does not either.
- Toasts, JSX, CSS, the marquee animation and the `useScrollAnimation` hook.
  Their texts and styling carry no state that the handlers read.
- The browser's `confirm()` dialog, modelled as the `confirmed` input.
- Asynchrony. A mutation and the refetch it fires are modelled as two
  sequential steps, and the refetch has its own `Status`. The model does not
  cover interleaved requests or React's batched state updates.
- The publish switch's `onCheckedChange` handlers
  (src/pages/admin/ProjectsAdmin.tsx:265, src/pages/admin/ClientsAdmin.tsx:199).
  Like the text fields, each copies the new value into one form field.
- The browser's `required` check on the project title, client name and logo URL
  (src/pages/admin/ProjectsAdmin.tsx:192, src/pages/admin/ClientsAdmin.tsx:164
  and :174). It blocks the submit event while one of them is empty. The model's
  `HandleSubmit` accepts any form, so it allows more than the page does.
- The text-field `onChange` handlers other than display order. They copy the
  typed value into one form field verbatim, as the datatype update `form.(f := v)` would.
- `CollectionPreviewSection.tsx`. It is a static array of six literals and
  markup, with no logic.
- Slug.GenerateSlug: full Unicode `toLowerCase` is not modelled. Only `A`–`Z`
  are lowered, and every other character outside `[a-z0-9]` is a separator.
  Some non-ASCII characters that JavaScript lowers to ASCII (the Kelvin sign,
  for instance) are therefore separators here.
- Numerals.ParseRendered: JavaScript numbers are doubles. The model uses
  unbounded integers, so precision above 2^53 and exponent rendering
  (`1e21`) are not covered.
