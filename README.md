# Service desk core, modelled in Dafny

This project models the core of a small service-desk web application
(`app.py`). It covers two parts.

The first is the start-up schema reconciler `ensure_schema`. It creates the
`tickets` table if it is absent. It takes one snapshot of the table's
columns and appends every needed column that is missing with
`ALTER TABLE ... ADD COLUMN`. It then creates the `comments`,
`attachments` and `events` tables if they are absent. The SQLite catalog
is a map from table name to an ordered column list. `Schema.Reconciled` is
the specification of one run. `Schema.EnsureSchema` is the imperative run
against a `Schema.Database`, proved equal to that specification.

The second is the ticket store behind the request handlers, as a class
`Desk.Store` with these members:

- `NewTicket` creates a ticket from a validated form.
- `UpdateTicket` handles the status/assignee POST on the detail page.
- `UploadAttach` attaches a file.
- `AddEvent` appends to the event log.

Every handler requires only the structural invariant `Desk.Store.Consistent`:

- ticket ids are consistent, and the next id is one more than the largest ticket id (1 for an empty table), as SQLite assigns an `INTEGER PRIMARY KEY`;
- every event and attachment belongs to an existing ticket;
- every attachment is stored in its own ticket's directory.

Every handler keeps it, and also keeps the stronger invariant `Desk.Store.Valid` whenever it held before the call. `Valid` adds that each ticket's history explains it: the history starts with a "created" event by the requester, and its latest "update" event records the current status and the shown assignee. A store built from empty by the handlers, handling one request at a time, is `Valid`. A legacy store whose tickets predate the event log is only `Consistent`, and the handlers work on it too.

The label filters `k_status` and `k_priority` are modelled in `Labels`.
Python's `str.strip()`, `s or default` and `dict.get` are modelled in `Text`.

Files:

- `wrappers.dfy`: `Option` and `Result`.
- `text.dfy`: stripping with Python's whitespace set, `or` and `get`.
- `labels.dfy`: the Korean label maps, the select choices and the two filters.
- `schema.dfy`: `ensure_schema`.
- `desk.dfy`: rows, form handling, stored file names, the event log and the store.

Inputs the program takes from the outside world are parameters:

- the form is a `map<string, string>`;
- the uploaded file part is `Option<string>`: `None` when the part is missing, otherwise its filename;
- timestamps are a supplied `int`;
- the output of `secure_filename` is a parameter;
- the `uuid4().hex` token is a parameter;
- the saved file's size is a parameter.

On these points the model follows what the code does:

- The update POST appends one "update" event with the summary `"<status>/<assignee or '-'>"`. It does not detect changes and does not log per-field events.
- Attaching a file does not touch the ticket's `updated_at`.
- No route writes to the `comments` table. The detail page only reads it (app.py:258-259), and that read is left out.
- `updated_at` is refreshed by SQLAlchemy's `onupdate` only when the flush writes the row, that is when status or assignee actually changed. `Desk.ApplyUpdate` models exactly that.

## Model

| member | source | states |
|---|---|---|
| Schema.Names | app.py:119 | `[r[1] for r in PRAGMA table_info]`: the column names of a table, in column order |
| Schema.TicketsBase | app.py:104-119 | the tickets table the snapshot reads: the existing table when there is one, otherwise the full CREATE's table |
| Schema.AddColumns | app.py:130 | what `ALTER TABLE ... ADD COLUMN` does to a table: the columns are appended after the existing ones and the constraints are kept |
| Schema.Creates | app.py:133-165 | the tables one run creates: the application tables whose names are absent from the catalog |
| Schema.Missing | app.py:128-129 | the filter over `need_cols` against the snapshot; it never yields more columns than are needed, and its membership is stated by `Schema.MissingMembers` |
| Schema.Alters | app.py:119-130 | the ALTERs one run issues are exactly the needed columns whose names are not in the snapshot of the tickets table |
| Schema.Reconciled | app.py:99-167 | the catalog after one run: its tables are the earlier ones plus the four application tables, and the tickets columns before the run stay in place as a prefix |
| Schema.Database.CreateTableIfNotExists | app.py:104-116 | inserts the table only when its name is absent and reports whether it did |
| Schema.Database.TableInfo | app.py:119 | returns the table's column names in order, or none when the table is missing |
| Schema.Database.AddColumn | app.py:130 | for the declarations `ensure_schema` issues (none is PRIMARY KEY, UNIQUE or NOT NULL), the ALTER succeeds iff the table exists and has no column of that name, with names compared exactly; on success the column is appended, otherwise nothing changes |
| Schema.EnsureSchema | app.py:99-167 | the catalog after the run is `Reconciled` of the catalog before it, and the columns it added are exactly the needed columns missing from the snapshot, in `need_cols` order |
| Schema.AlterAccepted | app.py:119-130 | a needed column missing from the snapshot is still missing after the earlier ALTERs, so the engine never rejects an ALTER the loop issues |
| Schema.MissingMembers | app.py:128-129 | a column is issued as an ALTER iff it is in `need_cols` and its name is not in the snapshot |
| Schema.MissingDistinct | app.py:120-130 | the ALTERed columns have distinct names when `need_cols` has |
| Schema.MissingNone | app.py:128-129 | nothing is ALTERed when every needed name is in the snapshot |
| Schema.MissingAll | app.py:128-129 | every needed column is ALTERed when none of their names is in the snapshot |
| Schema.CreateIfAbsent | app.py:133-165 | after `CREATE TABLE IF NOT EXISTS` the name is present and the key set gains only that name; an existing table leaves the catalog as it was; an absent name gets the new table and every other table keeps its value |
| Schema.NeedColsDistinct | app.py:120-127 | the six needed columns have distinct names |
| Schema.DdlDistinct | app.py:104-165 | each CREATE TABLE statement declares distinct column names |
| Schema.NeedColsInTicketsDdl | app.py:104-127 | every needed column is already declared by the full tickets CREATE |
| Schema.TicketsAfterRun | app.py:104-130 | after a run the tickets table is the snapshot's columns followed by the ALTERed ones |
| Schema.FreshStoreCreatesFullTickets | app.py:104-130 | without a tickets table the full CREATE runs and no ALTER follows |
| Schema.AppendMissingCovers | app.py:119-130 | appending the missing needed columns leaves every needed name present |
| Schema.AppendMissingDistinct | app.py:119-130 | appending the missing needed columns to a table with distinct names keeps the names distinct |
| Schema.NeededNamesPresent | app.py:104-130 | every needed name is a tickets column after a run |
| Schema.RequiredColumnsPresentOnce | app.py:104-130 | after a run every needed column is in the tickets table exactly once, whether the table was created or was a legacy table |
| Schema.ReconcileKeepsOtherTables | app.py:133-165 | a run adds exactly the four application tables when absent, with their DDL (the tables it creates are exactly `Creates`), and leaves every other table and every existing comments/attachments/events table as it was |
| Schema.ReconcileExtendsTickets | app.py:119-130 | on an existing tickets table a run keeps its constraints and columns as a prefix and appends only needed columns whose names were missing |
| Schema.ReconcileIsAdditive | app.py:104-165 | a run adds exactly the four application tables when absent; it leaves every other table and every existing comments/attachments/events table as it was; it keeps the existing tickets columns as a prefix, with their declarations, and appends only needed columns whose names were missing |
| Schema.SecondRunIssuesNothing | app.py:104-165 | a second run issues no ALTER and creates no table |
| Schema.ReconcileIdempotent | app.py:104-165 | running the reconciler on its own output yields the same catalog |
| Schema.OtherTableWellFormed | app.py:133-165 | when every table had distinct column names before the run, every table other than tickets after it, untouched or just created, still has distinct column names |
| Schema.ReconcilePreservesWellFormed | app.py:104-165 | a run never produces a table with a repeated column name |
| Schema.LegacyTicketsBackfill | app.py:118-130 | a legacy tickets table with only id, title and requester gets all six needed columns appended, in order, with their declarations |
| Text.IsSpace | app.py:230-233 | the characters `str.strip()` removes: Python's whitespace set (the ASCII controls 9-13 and 28-31, space, U+0085, U+00A0, U+1680, U+2000-U+200A, U+2028, U+2029, U+202F, U+205F and U+3000) |
| Text.TrimStart | app.py:230-233 | the result is a suffix of the input that does not start with whitespace, and every character dropped is whitespace |
| Text.TrimEnd | app.py:230-233 | the result is a prefix of the input that does not end with whitespace, and every character dropped is whitespace |
| Text.Strip | app.py:230-233 | the stripped string neither starts nor ends with whitespace |
| Text.StripEmptyIff | app.py:230-234 | `strip()` gives "" iff the string is all whitespace |
| Text.StripIdempotent | app.py:230-233 | stripping twice is stripping once |
| Text.StripOfTrimmed | app.py:233 | a string with no whitespace at either end is its own strip |
| Text.Or | app.py:233 | `s or alt` is `s` or `alt`, and is `alt` exactly when `s` is empty (or equals `alt`) |
| Text.Get | app.py:230-233 | `form.get(key, default)` is the field when present and the default otherwise |
| Desk.Supplied | app.py:234 | a field passes `not title` / `not requester` after stripping: it is in the form and not all whitespace |
| Desk.StrippedFieldEmptyIff | app.py:230-234 | `form.get(key, "").strip()` is empty iff the field is missing or blank |
| Desk.PriorityDefaultsToMed | app.py:233 | the priority is the stripped field when it is supplied and not blank, and "med" otherwise |
| Desk.ReadNewTicketForm | app.py:230-235 | a rejection carries the 400 message "title/requester required"; an accepted form has a non-empty title, requester and priority; the exact field values are in `Desk.ReadNewTicketFormRejects` and `Desk.ReadNewTicketFormFields` |
| Desk.ReadNewTicketFormRejects | app.py:230-235 | a creation form is rejected, with 400 "title/requester required", iff its title or requester is missing or blank |
| Desk.ReadNewTicketFormFields | app.py:230-233 | an accepted form yields the stripped non-empty title and requester, the stripped content ("" when missing) and the defaulted priority |
| Desk.Store.constructor | app.py:56-94 | an empty store is valid, with no tickets, events or attachments, and starts at id 1 |
| Desk.Store.AddEvent | app.py:180-184 | appends exactly one event after the earlier ones and changes nothing else |
| Desk.Store.InsertTicket | app.py:237-239 | adds one open, unassigned ticket under a fresh id with creation and update time `now`, and appends one "created" event by the requester with null from/to values; the store stays consistent, and stays valid when it was |
| Desk.Store.NewTicket | app.py:230-239 | a rejected form returns the 400 error and changes nothing; an accepted form inserts the ticket and its "created" event as above and returns the new id; the store stays consistent, and stays valid when it was |
| Desk.ApplyUpdate | app.py:250-252 | status and assignee take the form's values when present and keep the current ones otherwise; every other field is kept; `updated_at` becomes `now` when a value actually changed and keeps its old value otherwise, also when the form re-submits the current values |
| Desk.AssigneeShown | app.py:254 | `assignee or '-'`: the assignee when set and non-empty, "-" otherwise, never empty |
| Desk.Summary | app.py:254 | the update summary is the status, a '/', then the shown assignee |
| Desk.UpdateActor | app.py:253 | the actor is the author field when present and non-empty, otherwise "user" |
| Desk.SplitAtSlash | app.py:254 | splits at the first '/' and is None when the string has none |
| Desk.SplitAtSlashJoin | app.py:254 | splitting `a + "/" + b` at the first slash gives back `a` and `b` when `a` has no slash |
| Desk.SummaryRecoversFields | app.py:254 | an update event's to value gives back the status and the shown assignee when the status has no '/' |
| Desk.EmptyUpdateKeepsTicket | app.py:250-252 | a POST without status and assignee leaves the ticket, update time included, as it was |
| Desk.Store.UpdateTicket | app.py:246-254 | an unknown id is 404 and changes nothing; otherwise the ticket becomes `ApplyUpdate` of it and exactly one "update" event is appended with the form's actor, a null from value and the summary as to value; the store stays consistent, and stays valid when it was |
| Desk.AcceptsUpload | app.py:278 | `if not f or f.filename == ""` fails: a file part is present and its filename is not empty |
| Desk.Leaf | app.py:282 | the stored name is the token, then "__", then `safe_name or 'file'` |
| Desk.LeafRoundTrip | app.py:282 | the token and the defaulted name can be read back from a stored name built with a 32-digit hex token |
| Desk.LeafInjective | app.py:282 | with tokens of one length, two stored names are equal iff their tokens and defaulted names are |
| Desk.LeafIsOneComponent | app.py:282-286 | with no '/' in the token or the sanitised name, the stored name is a single path component, never "." or ".." |
| Desk.Store.UploadAttach | app.py:276-297 | an unknown id is 404; a missing file part or an empty filename changes nothing; otherwise one attachment (filename `safe_name`, stored in the ticket's directory under `Leaf`) and one "attach" event by "user" with to value `safe_name` are appended; the store stays consistent, and stays valid when it was |
| Desk.SameNameUploadsDoNotCollide | app.py:277-297 | two uploads of one name to one ticket under distinct tokens of one length get distinct stored paths, and both attachments are appended in upload order |
| Desk.EventsFor | app.py:262-263 | a ticket's history holds exactly the log's events for that ticket |
| Desk.EventsForAppendOwn | app.py:180-184 | a new event joins the end of its own ticket's history |
| Desk.EventsForAppendOther | app.py:180-184 | a new event leaves every other ticket's history as it was |
| Desk.NewestFirst | app.py:262-263 | the detail page lists the ticket's events newest first: the history reversed |
| Desk.NewestFirstAppendOwn | app.py:262-263 | a new event heads its own ticket's listing, above every earlier event of that ticket |
| Desk.NewestFirstAppendOther | app.py:262-263 | a new event leaves every other ticket's listing as it was |
| Desk.LastUpdate | app.py:253-254 | the latest "update" event of a history, or None exactly when there is none |
| Desk.LastUpdateAppend | app.py:253-254 | appending an update event makes it the latest; any other event leaves the latest as it was |
| Desk.CreatedEventExplains | app.py:237-239 | the "created" event alone explains a fresh open, unassigned ticket |
| Desk.UpdateEventExplains | app.py:250-254 | an update event recording the new summary explains the updated ticket |
| Desk.OtherEventExplains | app.py:297 | an event other than "update" does not change what a history says |
| Desk.NoEventsFor | app.py:237-239 | a ticket with no events in the log has an empty history |
| Desk.CreateKeepsHistory | app.py:237-239 | inserting a fresh ticket with its "created" event keeps every ticket explained by its history |
| Desk.UpdateKeepsHistory | app.py:250-254 | an update with its "update" event keeps every ticket explained by its history |
| Desk.OtherEventKeepsHistory | app.py:296-297 | an "attach" event keeps every ticket explained by its history |
| Desk.CreateKeepsTables | app.py:237-239 | adding a ticket under the next id with its event keeps the tables consistent, and no earlier event belongs to it |
| Desk.CreateKeepsStore | app.py:237-239 | inserting an open, unassigned ticket under the next id with its "created" event keeps the tables consistent, and keeps every ticket explained by its history when it was before |
| Desk.UpdateKeepsTables | app.py:250-254 | replacing a ticket's row and logging an event on it keeps the tables consistent |
| Desk.AttachKeepsTables | app.py:290-297 | recording an attachment in its ticket's directory, with its event, keeps the tables consistent |
| Labels.OrEmpty | app.py:188 | `v or ""` for an optional string: None and "" both give "", any other string itself |
| Labels.Lookup | app.py:188 | `labels.get(v, v or "")`: the label of a known code, the code itself when unknown, "" for None |
| Labels.KStatus | app.py:186-188 | `k_status` shows a known status code as its label, any other value as itself, and None as "" |
| Labels.KPriority | app.py:190-192 | `k_priority` shows a known priority code as its label, any other value as itself, and None as "" |
| Labels.LookupEmptyIff | app.py:186-192 | over labels that are all non-empty, the lookup is "" iff the value is None or "" |
| Labels.KStatusCases | app.py:31-36 | `k_status` maps a known status code to its Korean label, an unknown code to itself, and None or "" to "" |
| Labels.KPriorityCases | app.py:37-42 | `k_priority` maps a known priority code to its Korean label, an unknown code to itself, and None or "" to "" |
| Labels.ChoicesMatchLabels | app.py:31-46 | the select choices list exactly the label maps' codes with the same labels, so each choice's value shows as its label |

## Left out

- Flask plumbing is replaced by parameters and a `Result` value: routing, `render_template`, `redirect`, `abort` and `get_or_404`, request parsing, `send_file`, and the `healthz` and `version` endpoints.
- SQLAlchemy sessions and the sqlite3 connection are replaced by the in-memory catalog and tables. These are I/O through foreign libraries.
- `db.create_all()` is left out. In the program it runs just before `ensure_schema` (app.py:170-171) and creates the tables of the ORM models, `mimetype` column included. So on a fresh store the CREATE branches of `ensure_schema`, the case `Schema.FreshStoreCreatesFullTickets` describes, never fire. The schema model starts from whatever catalog `ensure_schema` finds.
- Only table structure is modelled in the catalog. Row contents of a legacy table, and the values its backfilled columns take, are not modelled.
- Table and column names are compared exactly. SQLite compares both without regard to case, and that is not modelled. The consequence: `name not in existing_cols` (app.py:129) is case-sensitive, but SQLite's duplicate-column check is not. A legacy tickets table with a column `Content` makes the program issue `ALTER TABLE tickets ADD COLUMN content TEXT`. SQLite rejects that as a duplicate column, `cur.execute` raises, and start-up (app.py:171) fails. `Schema.AlterAccepted` and `Schema.EnsureSchema` prove that every ALTER is accepted only under exact comparison.
- Schema.Database.AddColumn: models only the rejections that can arise for the six `need_cols` declarations (missing table, duplicate name). SQLite also rejects ADD COLUMN of a PRIMARY KEY or UNIQUE column, and of a NOT NULL column without a non-null default; none of the declarations at app.py:121-126 is such a column.
- Declared length limits such as `String(120)` are not enforced. SQLite does not enforce them either.
- `secure_filename`, `uuid.uuid4`, `os.makedirs`, `f.save` and `os.path.getsize` are foreign or nondeterministic. Their results are inputs: the sanitised name, the token and the size.
- `os.path.join(FILES_DIR, str(t.id), leaf)` is abstracted to `Desk.StoredPath`: the ticket's directory and the leaf.
- `datetime.now` is a supplied integer. The `fmt_dt` strftime filter is left out.
- The `filesize` filter is floating-point formatting and is left out.
- The listing query in `index` is an ORM filter and ordering that changes nothing, and is left out.
- The attachments and comments lists the detail page reads (app.py:258-261) are left out. Only its event listing is modelled, by `Desk.NewestFirst`.
- Each handler commits twice: first the ticket or attachment row (app.py:238, 252, 296), then its event in `add_event` (app.py:184). The model makes each handler one atomic step. A failure between the two commits is not modelled. Such a failure would leave, for example, a ticket without its "created" event: a store that is `Consistent` but not `Valid`.
- Concurrent requests are left out: the model handles one request at a time. Under a multi-worker server such as gunicorn (app.py:317), two update POSTs on one ticket can interleave between the row commit (app.py:252) and `add_event` (app.py:184). For example: A commits status X, B commits Y, B logs "Y/-", then A logs "X/-". The row then says Y while the latest "update" event says X, so `Desk.Store.Valid` no longer holds. The claim that handlers keep `Valid` holds only for requests handled one at a time.
- Attachment and event ids are the positions in their logs. The model keeps no explicit id column for them.
- The source's broken indentation from line 176 onward and the `indes=True` typo are ignored. The model follows the evident bodies of the statements.
- Desk.ReadNewTicketForm: its own contract states only the rejection message and that an accepted form has non-empty fields. The exact rejection condition and field values are stated by `Desk.ReadNewTicketFormRejects` and `Desk.ReadNewTicketFormFields`, which keeps the stripping out of every caller's proof.
- Desk.LeafInjective: requires the two tokens to have one length. Without that, "a" + "__" + "b__c" equals "a__b" + "__" + "c". Every `uuid4().hex` token is 32 digits long.
