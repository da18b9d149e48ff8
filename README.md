# Campus portal store, modelled in Dafny

This project models the data-handling core of a small campus web portal. In the portal, users
register and then upload academic "articles" (documents). Each article is tagged with one of
four types. The model covers three parts:

- **The user table and its manager** (`user_model.dfy`, module `UserModel`).
  - `create` is the guarded insert `User.create`. It checks the username and email lengths,
    that the two passwords match, that `email.split('@')` has exactly two parts, and that the
    email is free. The registration handler does not call it: it saves through `UserForm`, a
    `UserCreationForm`, which hashes the password.
  - `create_user` refuses an empty email, then stores the normalized email and the hashed
    password.
  - `create_superuser` applies the staff/superuser/active defaults and checks the flags.
  - Lookups by id and by email, `get_all`, and `delete_by_id`, which reports whether the user
    existed and cascades to the user's articles.
  - `update`, which changes only the fields that are passed.
  - The avatar validators.
- **The article table** (`article_model.dfy`, module `ArticleModel`).
  - The four type choices and the default `laba`.
  - The extension set and the 10 MB size limit.
  - The owner foreign key, with its cascade rule stated as a function.
  - The table itself, as a class whose rows are inserted, saved and removed.
- **The article handlers' store logic** (`article_views.dfy`, module `ArticleViews`).
  - The global feed, ordered by descending id.
  - The per-type count array of "my articles".
  - Submitting a new article, stamped with the requester as owner.
  - Editing and deleting, which look the article up by the pair (id, owner).

The database is two in-memory tables, each a map from primary key to row. `UserModel.UserStore`
holds the user map and a reference to the `ArticleModel.ArticleTable`. Its `Valid()` states
four invariants:

- ids match their keys and stay below the auto-increment counter;
- emails are unique (`unique=True`);
- the article table is valid;
- every article's owner is a stored user (the foreign key).

`.first()` picks the matching row of least id, as the ORM's primary-key ordering does
(`Keys.MinKey`). Helper modules: `Wrappers` (Option, Result), `Keys` (least and greatest id of a
finite set), and `Files` (an upload as extension plus size).

Two behaviours of the code are kept as written:

- `create` stores `password1` unhashed (`Raw`). `create_user` and `update` store it hashed
  (`Hashed`).
- The article-type column is a plain string. Only the form checks it against the choices.

Some behaviours of the code differ from what one might expect, and the model follows the code:

- `create_user` raises `ValueError`, not a validation error, for an empty email
  (`EmailNotSet`).
- One might expect every stored email to contain exactly one `@`. Only `create` checks it;
  `create_user` does not. So it is a property of `create` here, not of the store.
- One might expect a password to be stored only as a hash. `create` stores it raw (users who
  register through the registration form get a hashed password, since that path does not use
  `create`).
- Editing an article the requester does not own (or a missing id) renders an empty form on GET.
  A valid POST does not silently do nothing. It saves a form bound to no article, which inserts
  an article with no owner, and the `user` foreign key refuses that. The model answers
  `OwnerlessSaveFailed` and changes no row.

## Model

| member | source | states |
|---|---|---|
| `ArticleModel.TypeTagsFollowChoices` | campus_prj/campus_app/models.py:8-13 | the stored type values are `laba`, `kursova`, `bach_diplom`, `mag_diplom` in choice order, pairwise distinct; every type is a choice; the default is `laba` |
| `ArticleModel.ParseType` | campus_prj/campus_app/models.py:8-13 | a string names a type choice iff it is one of the four stored values, and the choice found stores exactly that string |
| `ArticleModel.ParseTagRoundTrip` | campus_prj/campus_app/models.py:8-13 | parsing a choice's stored value gives back that choice |
| `ArticleModel.FileSizeAccepted` | campus_prj/campus_app/models.py:17-26 | a file is accepted iff its size is at most 10·1024·1024 bytes, and rejected iff larger |
| `ArticleModel.ExtensionAccepted` | campus_prj/campus_app/models.py:28-29 | a file is accepted iff its extension is `pdf`, `docx` or `doc` |
| `ArticleModel.FileAccepted` | campus_prj/campus_app/models.py:28-30 | the `file` column accepts an upload iff both validators do |
| `ArticleModel.MakeArticle` | campus_prj/campus_app/models.py:14-33 | a new article has the given id, owner, file and description, a blank name, the type passed or else `laba`, and `created_at` set to the creation time |
| `ArticleModel.Cascade` | campus_prj/campus_app/models.py:15 | after deleting a user, exactly the articles of other owners remain, each unchanged |
| `ArticleModel.CascadeWithoutArticles` | campus_prj/campus_app/models.py:15 | deleting a user who owns no article removes no article |
| `ArticleModel.CascadeIdempotent` | campus_prj/campus_app/models.py:15 | cascading twice for the same user is cascading once |
| `ArticleModel.ArticleTable.Insert` | campus_prj/campus_app/views.py:39-40 | saving a new article stores it under a fresh id and advances the counter by one; the other rows stay as they were |
| `ArticleModel.ArticleTable.Save` | campus_prj/campus_app/views.py:59 | saving an edited article replaces only its own row |
| `ArticleModel.ArticleTable.Remove` | campus_prj/campus_app/views.py:71 | deleting an article removes only its row |
| `ArticleModel.ArticleTable.RemoveOwnedBy` | campus_prj/campus_app/models.py:15 | the cascade leaves exactly `Cascade` of the previous rows |
| `UserModel.NewUser` | campus_prj/authentication/models.py:21 | a user built from email, password and keyword fields takes every field not passed from the column defaults (blank username, no bio, student, not staff, not superuser, active) |
| `UserModel.PhotoSizeAccepted` | campus_prj/authentication/models.py:62-71 | a photo is accepted iff its size, as a real number, is at most 2.5·1024·1024 bytes |
| `UserModel.PhotoAccepted` | campus_prj/authentication/models.py:73-75 | the `photo` column accepts an upload iff its extension is `jpg`, `jpeg` or `png` and the size check passes |
| `UserModel.Split` | campus_prj/authentication/models.py:148 | `email.split('@')` always yields at least one part |
| `UserModel.SplitLength` | campus_prj/authentication/models.py:148 | the split has one part more than the string has `@` characters |
| `UserModel.SplitPartsFree` | campus_prj/authentication/models.py:148 | no part of the split contains the separator |
| `UserModel.JoinSplit` | campus_prj/authentication/models.py:148 | joining the parts with the separator gives back the email (the split loses nothing) |
| `UserModel.CreateAccepted` | campus_prj/authentication/models.py:145-149 | `create` may insert iff username ≤ 40 characters, email ≤ 100, the passwords are equal, the email has exactly one `@`, and no stored user has that email |
| `UserModel.StoredEmailBlocksCreate` | campus_prj/authentication/models.py:145-152 | once a user with an email is stored, every later `create` with that email is refused |
| `UserModel.DefaultsToTrue` | campus_prj/authentication/models.py:30-44 | after `setdefault(flag, True)` the flag is not True only if False was passed |
| `UserModel.SuperuserFields` | campus_prj/authentication/models.py:30-44 | staff passed as False gives the staff error; otherwise superuser passed as False gives the superuser error; otherwise both flags are True, `is_active` is True unless passed, and the other fields are unchanged |
| `UserModel.Updated` | campus_prj/authentication/models.py:169-177 | id, email, role and flags are kept; password (hashed), username and bio change only when passed |
| `UserModel.UpdatedWithNothing` | campus_prj/authentication/models.py:171-176 | an update with no arguments leaves the user unchanged |
| `UserModel.UpdatedIdempotent` | campus_prj/authentication/models.py:171-176 | applying the same update twice equals applying it once (the hash is abstract, so the random salt of `set_password` plays no part) |
| `UserModel.RecordCount` | campus_prj/authentication/models.py:179-184 | with ids matching keys, the table holds as many distinct records as ids |
| `UserModel.UserStore.GetById` | campus_prj/authentication/models.py:99-106 | returns a user iff that id is stored, and then the record with that id; never fails |
| `UserModel.UserStore.GetByEmail` | campus_prj/authentication/models.py:108-117 | returns a user iff some stored user has that email, and then the stored record with that email; it is the only one with that email; never fails |
| `UserModel.UserStore.GetAll` | campus_prj/authentication/models.py:179-184 | returns every stored record, only stored records, one per id |
| `UserModel.UserStore.Insert` | campus_prj/authentication/models.py:150-151 | saving a new user stores it under a fresh id, changes no other user and keeps the store valid |
| `UserModel.UserStore.Create` | campus_prj/authentication/models.py:132-153 | returns a user iff `CreateAccepted`; on refusal the table is unchanged; on success exactly one user is added, with the given email and username, default fields, the unhashed `password1`, and `get_by_email` then finds it |
| `UserModel.UserStore.CreateUser` | campus_prj/authentication/models.py:14-24 | an empty email (tested as passed) is refused with `EmailNotSet` and nothing is stored; an email whose normalized form is stored is refused by the unique constraint; otherwise one user is added, holding the normalized email, the hashed password and the keyword fields |
| `UserModel.UserStore.CreateSuperuser` | campus_prj/authentication/models.py:26-45 | a staff flag passed as False is refused first, then a superuser flag passed as False; with the flags accepted, an empty email gives `EmailNotSet` and a stored normalized email `DuplicateEmail`; a refusal stores nothing; on success the one new user is `create_user`'s record built from the filled-in fields: staff and superuser, active unless passed otherwise, the other keyword fields applied, the normalized email and the hashed password |
| `UserModel.UserStore.DeleteById` | campus_prj/authentication/models.py:119-130 | returns true iff the id was stored; afterwards no user has that id and every other user is unchanged; that user's articles are removed and no others; the article id counter is kept; a missing id changes nothing |
| `UserModel.UserStore.Update` | campus_prj/authentication/models.py:155-177 | re-reads the user by email; only that user's record changes, as `Updated` says; every other user is unchanged; an unknown email changes nothing |
| `ArticleViews.PrependNewest` | campus_prj/campus_app/views.py:11 | putting the largest id in front of a descending listing of the other ids lists all ids in descending order |
| `ArticleViews.NewestFirst` | campus_prj/campus_app/views.py:11 | lists every id once, in strictly descending order |
| `ArticleViews.RowsAt` | campus_prj/campus_app/views.py:11 | fetches the rows under a list of ids, in that order |
| `ArticleViews.RowsAtListing` | campus_prj/campus_app/views.py:11 | looking up a descending listing of all ids gives every row, each stored under its id, in strictly descending id order |
| `ArticleViews.MainFeed` | campus_prj/campus_app/views.py:9-12 | the feed has one entry per stored article; each entry is a stored article; the ids strictly decrease |
| `ArticleViews.MainFeedComplete` | campus_prj/campus_app/views.py:11 | every stored article appears in the feed |
| `ArticleViews.TypeTotals` | campus_prj/campus_app/views.py:22-30 | the grouped totals have an entry for a type iff the requester has an article of that type, and it holds their number of such articles |
| `ArticleViews.CountTypes` | campus_prj/campus_app/views.py:19-32 | the count array has one entry per type choice, in choice order; each entry is the requester's number of articles of that type, 0 when there are none |
| `ArticleViews.SplitFirstTag` | campus_prj/campus_app/views.py:22-32 | the requester's articles with a type in a list of distinct types split into two disjoint parts: those of the first type and those of the rest |
| `ArticleViews.SuffixSum` | campus_prj/campus_app/views.py:22-32 | the counts of any suffix of the type choices add up to the number of the requester's articles with one of those types |
| `ArticleViews.CountsSumToTotal` | campus_prj/campus_app/views.py:18-32 | if every one of the requester's articles has one of the four types, the counts add up to the requester's total number of articles |
| `ArticleViews.FormValid` | campus_prj/campus_app/views.py:37 | the article form is valid iff the type is a choice, the upload is not empty, the extension is `pdf`/`docx`/`doc` and the size is at most 10 MB |
| `ArticleViews.FormValidStoresChoice` | campus_prj/campus_app/views.py:37-40 | a type accepted by the form, whether stored by a new article or by an edit, is one of the four choices, which is the hypothesis of `CountsSumToTotal` |
| `ArticleViews.OwnedArticle` | campus_prj/campus_app/views.py:53 | the (id, owner) lookup finds an article iff that id is stored and owned by the requester, and then it is that stored article |
| `ArticleViews.Edited` | campus_prj/campus_app/views.py:57-59 | saving the edit form changes type, description and file; id, owner, name and `created_at` stay |
| `ArticleViews.ArticlesByUserPage` | campus_prj/campus_app/views.py:16-47 | a valid POST adds exactly one article, under the next id, owned by the requester and stamped with the submission time, then redirects; otherwise no article changes and the page shows the per-type counts, flagging a rejected form |
| `ArticleViews.EditArticlePage` | campus_prj/campus_app/views.py:51-63 | only a valid POST for an article the requester owns changes a row, as `Edited` says; no other user's article changes; no article is added or removed; no `created_at` or owner ever changes; a GET renders the form for the owned article or none, an invalid POST renders it flagged as rejected, a valid POST redirects when the article is owned and answers `OwnerlessSaveFailed` when it is not |
| `ArticleViews.DeleteArticle` | campus_prj/campus_app/views.py:67-74 | removes the article iff both its id and its owner match; otherwise nothing changes; no other article is touched; always redirects to the requester's articles |

## Left out

- HTTP handling, sessions, `login_required`, rendering and flash messages. The handlers take the
  requester's user id and return a `Response` value. `ArticlesByUserPage` requires the
  requester to be a stored user, which `login_required` guarantees.
- The article list each page renders (a lazy queryset). `RenderMyArticles` carries only the counts.
- `UserModel.UserStore.CreateUser` and `UserModel.UserStore.CreateSuperuser`: `normalize_email` is
  Django library code and is not part of this model. It is a parameter `normalize`. The stored
  email and the duplicate check use `normalize(email)`, the empty-email check uses the email as
  passed, and nothing is assumed about what `normalize` does (stripping, lower-casing the domain).
- Password hashing (`set_password`). `Hashed(p)` stands for the stored hash of `p`; the hash
  function itself is left abstract.
- The interactive `input()` prompts of `create_superuser` (I/O). The `first_name` and
  `last_name` fields they fill are also left out.
- `UserModel.SuperuserFields`: `**extra_fields` flags are modelled as booleans. A non-boolean
  value such as `1` fails the source's `is not True` check, but cannot be passed here.
- `AbstractUser` columns the core never reads or writes (`first_name`, `last_name`,
  `last_login`, `date_joined`). The `photo` column is not stored in the user record; only its
  validators are modelled.
- Column length limits at save time. Neither `create_user` nor `update` checks `max_length`,
  and the model follows them.
- `UserModel.UserStore.Update`: when no user has `self.email`, the source fails with
  `AttributeError`. The model returns `found == false` and changes nothing.
- `FileExtensionValidator` internals: case folding, and taking the suffix from a file name. An
  upload carries its extension directly, and acceptance is plain set membership.
- In the edit form, a POST that omits the file and keeps the stored one. `ArticleInput` always
  carries a file.
- The real clock for `created_at`. The time is a `now` parameter.
- ORM query execution, transactions, concurrent last-write-wins, and auto-increment values
  consumed by failed inserts.
- Email comparison follows Python string equality. Database-specific collation is not modelled.
- The user search filter (`filters.py`), forms' widget settings, URL routing, media serving,
  and the profile pages, including `profile_page` failing for a missing user.
- `ArticleViews.MainFeed`: its contract gives order and length. That every stored article
  appears is stated by the lemma `ArticleViews.MainFeedComplete`.
- `ArticleViews.FormValid`: the form's 100-character limit on the uploaded file's name is not
  modelled, because an upload carries only its extension and size. The refusal of an empty file
  is modelled. The form's cleaning of `description` is not modelled either: it strips the
  surrounding whitespace and refuses a value that contains a NUL character. The model stores the
  description as submitted and never refuses it.
