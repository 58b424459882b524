# SimpleReaderServer core in Dafny

This is a model of the data and request-handling core of SimpleReaderServer. It is a small
Flask admin panel with a JSON API. Administrators upload PDF publications and manage
registered reader devices. Devices register themselves and poll a feed of publications.

The model has three modules:

- `StringOps` (string_ops.dfy) writes out the Python string builtins the core relies on:
  `str(n)` for a non-negative integer, with `int(s)` as its inverse; `s.split(".")`, with
  `".".join` as its inverse; and Python 2 `str.lower()`, which changes only `A`-`Z`.
- `Model` (model.py, in model.dfy) holds the `Device` and `Publication` rows and the
  database `Store`. The Store is a class whose two tables are maps keyed by the primary
  key `uid`. The module also has the two `__unicode__` texts and `Publication.generateUid`.
  That method keeps the title's characters from `SIMPLE_CHARS` and lower-cases them. It then
  tries `slug + str(num)` for num = 0, 1, … against the Publication table and takes the first
  free one.
- `App` (app.py, in app.dfy) holds the request handlers, each a method on the Store:
  - `register`, an upsert that leaves the status alone;
  - the green/yellow/red buttons and the delete button of the device list;
  - the delete button of the publication list;
  - saving the edit form;
  - creating a publication with its stored upload names.

  The feed's attribute filter, the upload name and the feed list are functions.

Each handler states its new tables through a function on the maps (`Registered`,
`WithTier`, `Deleted`, `Edited`). Lemmas relate these functions: re-registering and
re-editing change nothing, re-registering keeps a status an administrator set, and
registering then deleting is the same as deleting. Every handler keeps the Store invariant:
each row is filed under its own uid, and device statuses are one of new, green, yellow and
red.

## Model

| member | source | states |
|---|---|---|
| StringOps.NatToString | model.py:35 | `str(num)` is a non-empty digit string, one digit exactly for num < 10, with a leading '0' only for 0 |
| StringOps.DigitsValueOfNatToString | model.py:35-40 | reading the decimal string back gives the number: `int(str(n)) == n` |
| StringOps.NatToStringInjective | model.py:35-40 | different suffix numbers print differently |
| StringOps.SuffixedInjective | model.py:35-40 | `base + str(a) == base + str(b)` only when a == b, so every candidate uid the loop tries is new |
| StringOps.Lower | model.py:31 | lower-casing keeps the length and maps each character by the ASCII rule |
| StringOps.JoinSplit | app.py:173 | `".".join(s.split("."))` gives back s |
| StringOps.Split | app.py:173 | `s.split(sep)` has at least one part and no part contains the separator; `JoinSplit` proves it loses nothing |
| StringOps.LastSegment | app.py:173 | `s.split(".")[-1]` is a dot-free suffix of s; it is preceded by a dot when s has one and is all of s otherwise |
| StringOps.SplitOfDotted | app.py:173 | `(a + "." + b).split(".")` is `[a, b]` when neither part has a dot |
| StringOps.SplitOfDotFree | app.py:173 | a string without a dot splits into itself alone |
| Model.SimpleCharsAreAsciiAlnum | model.py:6 | SIMPLE_CHARS holds exactly the ASCII digits and letters |
| Model.DeviceText | model.py:14-15 | `Device.__unicode__` is the uid, '(', the name and ')', in that order |
| Model.DeviceTextDeterminesName | model.py:14-15 | for one uid, two devices print alike exactly when their names agree |
| Model.PublicationText | model.py:44-45 | `Publication.__unicode__` is "Publication: ", the uid, '(', the title and ')'; with no uid assigned it fails |
| Model.KeepSimple | model.py:31 | the filtered title has only ASCII letters and digits and is no longer than the title |
| Model.KeepSimpleCons | model.py:31 | each character is kept exactly when it is an ASCII letter or digit |
| Model.KeepSimpleCounts | model.py:31 | every ASCII letter or digit is kept as often as the title has it, and every other character is dropped |
| Model.KeepSimpleAppend | model.py:31 | the filter distributes over concatenation |
| Model.KeepSimpleOfSimple | model.py:31 | a title made only of SIMPLE_CHARS is kept whole |
| Model.KeepSimpleOfLower | model.py:31 | lower-casing before or after the filter gives the same result |
| Model.BaseSlug | model.py:31 | the uid base has only digits and lower-case ASCII letters and is no longer than the title |
| Model.BaseSlugIgnoresCase | model.py:31 | titles that differ only in ASCII letter case get the same base |
| Model.BaseSlugIdempotent | model.py:31 | a base is its own base |
| Model.FirstFreeSuffixUnique | model.py:33-40 | only one suffix is the smallest free one |
| Model.NextSuffixIsLarger | model.py:33-40 | after the generated uid is stored, the same title gets a strictly larger suffix |
| Model.KeepSimpleSnoc | model.py:31 | filtering one more character of the title appends it exactly when it is an ASCII letter or digit |
| Model.KeepSimpleOfCafeDejaVu | model.py:31 | the filter turns the title "Café Déjà Vu!" into "CafDjVu": the accented letters, the spaces and '!' are dropped |
| Model.BaseSlugOfCafeDejaVu | model.py:31 | the base of the title "Café Déjà Vu!" is "cafdjvu" |
| Model.SameTitleGetsNextSuffix | model.py:33-40 | for any title, in an empty table the first publication gets suffix 0; once its uid is stored, a second one with the same title gets suffix 1 |
| Model.CafeDejaVuGetsSuffixesZeroAndOne | model.py:27-42 | for two publications titled "Café Déjà Vu!" in an empty table, those uids are "cafdjvu0" and then "cafdjvu1" |
| Model.DevicesValid | app.py:88-107 | every stored device is filed under its own uid and has one of the statuses new, green, yellow and red, the only ones `register` and the tier buttons write |
| Model.PublicationsValid | model.py:40 | every stored publication is filed under its own assigned uid |
| Model.Store.Valid | app.py:207-222 | the database invariant that every handler requires and keeps: both tables satisfy the two predicates above |
| Model.GenerateUid | model.py:27-42 | an assigned uid is returned unchanged; otherwise the uid is the base plus the smallest suffix not in the Publication table, so it is fresh and made of digits and lower-case letters; the returned publication carries it |
| App.TierStatus | app.py:88-107 | the green button writes exactly "green", the yellow button "yellow" and the red button "red"; none writes "new" |
| App.Registered | app.py:207-222 | the device table after `register`: the uid's row exists; name and email are the submitted ones; an unknown uid starts with status "new"; a known one keeps its uid and status; all other rows are unchanged; the table invariant is kept |
| App.Register | app.py:207-222 | the handler produces the `Registered` table, leaves the publications alone and answers with the stored status of the uid |
| App.RegisterIdempotent | app.py:207-222 | registering twice with the same data is the same as registering once |
| App.ReRegisterKeepsTier | app.py:209-216 | registering again after a tier button keeps that tier's status |
| App.WithTier | app.py:88-107 | after a tier button only the chosen device's status changes, and it becomes that tier's status; the table invariant is kept |
| App.SetTier | app.py:88-107 | a known uid gets the `WithTier` table; an unknown uid fails before any change; the publications are untouched |
| App.Deleted | app.py:84 | `filter_by(uid=uid).delete()` removes that row if it exists and keeps every other row unchanged |
| App.DeleteUndoesRegister | app.py:84 | registering a device and then deleting it is the same as just deleting it |
| App.DeleteDevice | app.py:83-87 | the device table becomes `Deleted`; the publications are untouched; the invariant is kept |
| App.DeletePublication | app.py:126-130 | the publication table becomes `Deleted`; the devices are untouched; the invariant is kept |
| App.Edited | app.py:144-151 | saving the form overwrites the seven content fields of that row only; it keeps its uid and the invariant |
| App.EditIdempotent | app.py:144-151 | saving the same form twice is the same as saving it once |
| App.EditPublication | app.py:144-151 | a known uid gets the `Edited` table; an unknown uid fails before any change; the devices are untouched |
| App.UploadName | app.py:173 | the stored name is the uid, a dot and the part of the upload's name after its last dot (all of it when it has no dot) |
| App.UploadNameSplits | app.py:173 | with a dot-free uid, the stored name splits into exactly the uid and the upload's extension |
| App.NewPublication | app.py:165-190 | the new row is filed under a fresh, smallest-suffix, dot-free uid; its URLs point at the two stored uploads; every other field comes from the form or parameter; nothing else changes |
| App.ColumnNamesArePublic | model.py:17-25 | no column name starts with '_', and the ORM's own attribute does |
| App.Columns | model.py:17-25 | the column part of `vars(pub)` has exactly the eight column names as keys |
| App.Attributes | app.py:200 | `vars(pub)` has the eight columns plus `_sa_instance_state`, and no empty name |
| App.PublicFields | app.py:200 | the filter keeps exactly the entries whose name does not start with '_', with their values |
| App.PublicFieldsIdempotent | app.py:200 | filtering a filtered dictionary changes nothing |
| App.PublicFieldsOfPublication | app.py:200 | a cleaned publication is exactly its eight columns |
| App.PublicFieldsDropsOnlyState | app.py:200 | the filter drops `_sa_instance_state` and nothing else |
| App.FeedEntry | app.py:200 | a feed entry equals the publication's columns and has no key that is empty or starts with '_' |
| App.RowOrderLength | app.py:199 | a row order that lists every key once has as many entries as the table has rows |
| App.Feed | app.py:199-200 | the feed has one entry per stored publication, in row order; entry i is row i cleaned; no entry has a key starting with '_' |
| App.FeedEntryUid | app.py:199-200 | entry i carries the uid of row i |
| App.FeedListsEachPublicationOnce | app.py:199-204 | every entry has a uid; a uid appears in the feed exactly when it is stored; no two entries share a uid |

## Left out

- Flask plumbing is not modelled: routing, `render_template`, `flash`, `redirect` and the `json.dumps` of the answers.
  The handlers return what they compute or change.
- A missing form field (a `KeyError` that Flask turns into HTTP 400) is not modelled. The form values are parameters.
- The login gate (`login_required`, `login`, `logout`), `Admin.check_password` and `build_sample_db` are not modelled.
  They are about sessions and password hashing, not the tables.
- The `message.x`, `edit.x` and `download.x` buttons are not modelled. They only read a row and answer with text or a redirect.
- `edit_device` and the GET pages are not modelled, because they only render.
- App.NewPublication: saving the two uploads, `os.stat` and the `"{0:.1f} MB"` float formatting are not modelled, since they are file I/O and floating point.
  The formatted size is the `filesize` parameter.
- App.NewPublication: `datetime.now().strftime(...)` is a clock, so the release date is the `releaseDate` parameter.
- App.NewPublication: `url_for('static', ..., _external=True)` is the `staticUrl` parameter, because it depends on the server's address.
- App.SetTier, App.EditPublication: an unknown uid crashes with an `AttributeError` (HTTP 500) in the source.
  Here it is a `false` result with nothing changed.
- App.Feed: the rows come in the database's order. It is the `order` parameter, which lists each key once.
- App.Attributes: `vars(pub)` is taken to hold every column and `_sa_instance_state`. Expired or deferred ORM attributes, which would be missing, are not modelled.
- App.PublicFields: requires non-empty keys. `key[0]` on an empty name would raise, but attribute names are never empty.
- SQLAlchemy session semantics are not modelled: sessions, autoflush, and the missing commit in `devices()` and `edit_pub`.
  The Store is write-through.
- Requests are modelled one at a time, each handler as one atomic step on the Store. Concurrent requests are not modelled.
- App.NewPublication: in the source, the uid lookup (`generateUid`, model.py:35-38) and the insert (app.py:188-190) are separate steps with the two uploads saved in between, and they are not atomic.
  Two overlapping `new_pub` requests with the same title can get the same uid, and the second commit then fails on the primary key.
  The uid is fresh only under the one-request-at-a-time reading above.
- Model.GenerateUid: its uid is fresh with respect to the table it reads; a row another request inserts after that read is not covered.
- The debug `print(str(request.form))` in `pubs()` (app.py:123) writes to the console only, so it is not modelled.
- In-place mutation of ORM objects (`dev.status = ...`) is modelled as replacing that row's map entry.
  Aliasing between loaded objects is not captured.
- thumbs.py is not part of this model.
- model.py and app.py have no report-driven tier escalation, no push tokens, no notification payloads or dispatch,
  no per-device last message and no rule that hides publications from a tier, so the model has none either.
- The reason typed with a tier button is only flashed, never stored, so no table records it.
- The feed is neither sorted by release date nor restricted by the device's tier: `feed` lists every row in database order.
