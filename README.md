# sftp_manager: the path tokens and the connection table, in Dafny

The `file_manager` Django application stores SFTP credentials per user. It lets a user browse a
remote directory and download a file from it. This project models the deterministic part of that
application:

- **Path tokens** (`paths.dfy`, module `Paths`). A remote path is carried in one URL segment with
  every `/` replaced by `^`. The module decodes a token, builds each listed entry's token, and
  splits a directory listing into folders and files. It also computes the "go up" token, the
  download file name and the `Content-Disposition` header.
- **The `Connection` model** (`models.dfy`, module `Models`). `Row` is a stored row of the table.
  The class `Connection` is a model instance in memory; the views assign its fields and then call
  `save()`. `Display` is `__str__`.
- **The store logic of the views** (`store.dfy` and `views.dfy`). Module `Store` holds Django's
  `objects.get` and `filter` over the rows, and one function per store view. Each function gives
  the view's answer and the table afterwards: `AddStep`, `EditStep` and `DeleteStep`. The class
  `Views.ConnectionTable` holds the rows and the next primary key. Its methods follow the views step
  by step, and each one ensures that its outcome and new table are what the matching `Store`
  function says. `OpenConnection` and `GetFile` are read-only functions of the table.

Parts of the system outside the model enter as parameters:

- the current user, as a `UserId`;
- the connection form's verdict, as `formValid`;
- the connectivity probe's result, as `Probe`;
- what the server lists or sends, as an `Option`.

`objects.get` can end in three ways, and the model keeps all three: `DoesNotExist`,
`MultipleObjectsReturned` or one row. An exception that a view does not catch becomes
`Raised(...)` or `ServerError(...)`, which stands for a server error.

Behaviour of the code that the model keeps as written:

- An edit keeps the stored username, because `conn.username = username` runs before `username` is
  rebound to the posted value (views.py:157-158). Only the host and the password change.
- An edit is refused when any row, the edited row itself included, has the posted
  `(username, host)` (views.py:160-163).
- `add_connection` checks the form between the duplicate check and the probe. Only
  `NotADirectoryError` from the probe is turned into a message. Any other failure escapes the view.
- A missing credential in edit, delete, browse or download raises `DoesNotExist`. The view does not
  catch it, so the request ends in a server error.

## Model

| member | source | states |
|---|---|---|
| Models.Display | file_manager/models.py:14-15 | the string is the username, then one `@`, then the host, and its length is the sum of the parts plus one |
| Models.DisplayExample | file_manager/tests.py:8-12 | username `anna` and host `34.56.78.39` are shown as `anna@34.56.78.39` |
| Models.DisplayDeterminesParts | file_manager/models.py:15 | when neither host holds `@`, equal strings mean equal usernames and equal hosts |
| Models.Connection.ToString | file_manager/models.py:14-15 | an instance's string is its username, then one `@`, then its host, and its length is the sum of the parts plus one |
| Models.Connection.SetUser | file_manager/models.py:17-18 | the owner becomes the given user; id, host, username and password are unchanged |
| Models.Connection.FromRow | file_manager/models.py:8-12 | an instance loaded from a row has exactly that row's five fields |
| Views.ConnectionTable.StoredRowsFit | file_manager/models.py:10-12 | every stored row has a host of at most 30, a username of at most 20 and a password of at most 50 characters |
| Paths.Replace | file_manager/views.py:198 | same length as the input; each position holds the replacement where the input held the replaced character, and the input's character elsewhere |
| Paths.Encode | file_manager/views.py:208 | a token has the path's length and no `/`; it holds `^` exactly where the path held `/` or `^` |
| Paths.Decode | file_manager/views.py:198 | a decoded path has the token's length and no `^`; it holds `/` exactly where the token held `/` or `^` |
| Paths.DecodeEncode | file_manager/views.py:198-208 | decoding the encoding of a path without `^` gives the path back |
| Paths.EncodeDecode | file_manager/views.py:198-208 | encoding the decoding of a token without `/` gives the token back |
| Paths.EncodeCollision | file_manager/views.py:208 | `a/b` and `a^b` share the token `a^b`, since nothing is escaped |
| Paths.RFind | file_manager/views.py:219 | the result is -1 exactly when the character is absent; otherwise it is a position of the character, and no later position holds it |
| Paths.Filename | file_manager/views.py:251 | the name has no `/` and is a suffix of the path; when it is shorter than the path, a `/` stands just before it |
| Paths.FilenameOfChild | file_manager/views.py:251 | the name of `dir + "/" + name` is `name` when `name` has no `/` |
| Paths.FilenameExample | file_manager/views.py:251 | `docs/a.pdf` is downloaded as `a.pdf` |
| Paths.Disposition | file_manager/views.py:252 | the header is `attachment; filename=` followed by the file name, which holds no `/` |
| Paths.PreviousDir | file_manager/views.py:218-219 | `.` gives `.`; a path with `/` gives the encoding of its part before the last `/`; a path without `/` gives the encoding of the path without its last character |
| Paths.SliceStop | file_manager/views.py:219 | the stop index of Python's `s[:k]`: a `k` within the string is kept, a negative `k` counts from the end, and the result never exceeds the length |
| Paths.ParentStop | file_manager/views.py:219 | the slice `current_dir[:current_dir.rfind("/")]` stops just before the file name when the path holds `/`, and one character before the end (or at 0 for an empty path) when it does not |
| Paths.PreviousDirOfChild | file_manager/views.py:218-219 | going up from `dir + "/" + name`, where `name` has no `/`, gives the token of `dir` |
| Paths.PreviousDirExamples | file_manager/views.py:218-219 | `a/b/c` goes up to `a^b`, and `.` stays `.` |
| Paths.PreviousDirWithoutSlash | file_manager/views.py:218-219 | `home`, which holds no `/`, goes up to `hom`: `rfind` gives -1 and the slice drops the last character |
| Paths.IsFolder | file_manager/views.py:210 | an entry is a folder when its size is zero and its name holds no `.` |
| Paths.IsFile | file_manager/views.py:214 | an entry is a file when its size is positive or its name holds a `.` |
| Paths.FolderOrFile | file_manager/views.py:210-214 | every entry meets exactly one of the folder test and the file test |
| Paths.ClassificationExamples | file_manager/views.py:210-214 | `data` of size 0 is a folder; `report.txt` of size 0 and `image.png` of size 1024 are files |
| Paths.ChildToken | file_manager/views.py:208 | the token has no `/`, and its `^` at the directory's length separates the directory part from the name |
| Paths.ChildTokenRoundTrip | file_manager/views.py:208 | the token of a child decodes to `dir + "/" + name` when neither part holds `^` |
| Paths.Folders | file_manager/views.py:207-210 | every item is a folder entry of the listing paired with its child token, and every folder entry of the listing appears paired with its child token |
| Paths.Files | file_manager/views.py:211-214 | every item is a file entry of the listing paired with its child token, and every file entry of the listing appears paired with its child token |
| Paths.ListingPartition | file_manager/views.py:207-214 | the listing is a merge of the folders' entries and the files' entries: each entry is in exactly one list, both in the listing's order, and the multisets add up |
| Paths.InterleavesMultiset | file_manager/views.py:207-214 | a merge of two sequences holds every element as often as the two together |
| Paths.Browse | file_manager/views.py:198-224 | the current directory shown is the decoded token plus `/`, and each listed token whose name has no `^` decodes to that directory plus the name |
| Paths.UpReturnsToParent | file_manager/views.py:208-219 | opening a listed child of a directory token and then going up gives that token back, when the token has no `/` and the name has neither `/` nor `^` |
| Paths.DownloadNameOfListed | file_manager/views.py:208-252 | the download of a listed entry's token is named after the entry, and its header is `attachment; filename=` plus that name |
| Views.ListedTokenIsChild | file_manager/views.py:207-214 | every folder or file on the browser page carries the token of the browsed directory plus `/` plus the entry's name |
| Views.ListedEntryDownloadsUnderItsName | file_manager/views.py:207-253 | for every folder or file listed by the browser, `get_file` on its token sends the content as an octet-stream attachment named after the entry |
| Store.Matches | file_manager/views.py:113-114 | the matches are exactly the rows that have the user, username and host |
| Store.Get | file_manager/views.py:113-114 | not found exactly when no row has the key; a found row is stored, has the key, and is the only row with it |
| Store.UniqueKeysSingleMatch | file_manager/views.py:113-114 | when keys are unique, at most one row matches and the lookup never reports several |
| Views.ConnectionTable.AllConnections | file_manager/views.py:86-96 | the connections listed for a user are exactly the stored rows of that user |
| Store.OwnedBy | file_manager/views.py:95 | the rows listed for a user are exactly the stored rows of that user |
| Store.SaveRow | file_manager/views.py:166 | same length; the row with the instance's primary key is replaced by the instance's values, and every other row is kept |
| Store.SaveRowAt | file_manager/views.py:166 | with distinct primary keys, saving an instance whose primary key is that of the row at `i` replaces exactly that row |
| Store.RemoveId | file_manager/views.py:181 | the remaining rows are exactly the stored rows with another primary key |
| Store.RemoveIdAt | file_manager/views.py:181 | with distinct primary keys, deleting the row at position `i` leaves the other rows in their order |
| Store.RemoveIdKeepsIdsDistinct | file_manager/views.py:181 | a deletion keeps primary keys distinct |
| Store.AddStep | file_manager/views.py:112-128 | a row is created exactly when no row has the key, the form is valid, the probe reaches the server and the row fits; then exactly that row is appended, and otherwise the table is unchanged; an existing key gives "already exist" (or the several-rows error); a `NotADirectoryError` probe gives "cant be established" |
| Store.AddKeepsKeysUnique | file_manager/views.py:112-128 | adding keeps `(user, username, host)` unique |
| Store.AddTwiceRefused | file_manager/views.py:112-128 | adding `anna@34.56.78.39` twice creates it once and refuses it the second time, and exactly one row matches afterwards |
| Views.AddTwice | file_manager/views.py:112-128 | on a new table, the first addition of `anna@34.56.78.39` is created, the second is refused, and one row is stored |
| Store.EditStep | file_manager/views.py:145-166 | an edit keeps every row's primary key and, with distinct primary keys, every row's owner and username; a missing credential raises `DoesNotExist`; when a row already has the posted username and host nothing changes; a save needs the credential, a valid form and no row with the posted key, and conversely a found credential with a valid form, no row with the posted key and a fitting edited row is saved |
| Store.EditSaved | file_manager/views.py:145-166 | a saved edit overwrites the one row with the URL's key by that row with the posted host and password |
| Store.EditChangesOnlyTarget | file_manager/views.py:155-166 | a saved edit changes only the edited row, and only its host and password |
| Store.EditKeepingKeyRefused | file_manager/views.py:160-163 | an edit posting the same username and host is always refused as "already exist" and leaves the table unchanged |
| Store.EditPasswordViaOtherUsername | file_manager/views.py:155-166 | posting the same host with an unused username saves the new password under the URL's username and drops the posted one |
| Store.EditBreaksKeyUniqueness | file_manager/views.py:155-166 | a table with unique keys where editing `a@h1` into `b@h2` is saved and leaves two rows keyed `a@h2` |
| Store.EditIntendedStep | file_manager/views.py:145-166 | the corrected edit keeps the table's length, changes nothing unless it saves, and raises `DoesNotExist` for a missing credential |
| Store.EditIntendedSaved | file_manager/views.py:145-166 | a saved corrected edit overwrites the row with the URL's key by the posted host, username and password, and no other row holds the posted key |
| Store.EditIntendedKeepsKeysUnique | file_manager/views.py:145-166 | the corrected edit keeps `(user, username, host)` unique |
| Store.EditIntendedAllowsPasswordChange | file_manager/views.py:145-166 | the corrected edit saves a new password for an unchanged username and host |
| Store.DeleteStep | file_manager/views.py:179-181 | a missing credential raises `DoesNotExist` and changes nothing; only a deletion changes the table, and with distinct primary keys it removes exactly one row, the one with the key, keeping all others |
| Store.DeleteAt | file_manager/views.py:179-181 | deleting the credential stored at position `i` leaves the other rows in their order |
| Views.ConnectionTable.constructor | file_manager/models.py:8-12 | a new table is empty and valid |
| Views.ConnectionTable.Create | file_manager/views.py:124-128 | a row that fits is appended with the next primary key; a row that does not fit is refused with `DataError` and changes nothing |
| Views.ConnectionTable.Save | file_manager/views.py:166 | an instance that fits overwrites its row; one that does not fit is refused and changes nothing |
| Views.ConnectionTable.AddConnection | file_manager/views.py:107-129 | the outcome and the new table are those of `AddStep`, and the next primary key advances only on creation |
| Views.ConnectionTable.EditConnection | file_manager/views.py:145-167 | the outcome and the new table are those of `EditStep` |
| Views.ConnectionTable.EditConnectionIntended | file_manager/views.py:145-167 | the outcome and the new table are those of `EditIntendedStep` |
| Views.ConnectionTable.DeleteConnection | file_manager/views.py:179-182 | the outcome and the new table are those of `DeleteStep` |
| Views.ConnectionTable.OpenConnection | file_manager/views.py:198-228 | a missing credential raises `DoesNotExist`; a failed listing gives "Can`t connect to remote server."; a page shows the stored credential, the browsed listing of the token, and exactly the user's connections; a stored credential with a completed listing renders the page |
| Views.ConnectionTable.GetFile | file_manager/views.py:242-254 | a missing credential raises `DoesNotExist`; a failed transfer is a server error; an attachment carries the content as an octet-stream with `attachment; filename=` plus the decoded path's file name |
| Views.ConnectionTable.GetFileFound | file_manager/views.py:242-254 | for a stored credential, a completed transfer is sent as an octet-stream attachment whose header names the decoded path's file |

## Findings

| source | as written | input that shows it | evidently intended | confidence | as-written member | corrected member |
|---|---|---|---|---|---|---|
| file_manager/views.py:157-158 | `conn.username = username` runs before `username` is rebound to the posted value, so the URL's username is stored while the collision check uses the posted one | rows `a@h1` and `a@h2` of one user; edit `a@h1` posting username `b` and host `h2`: no row is `b@h2`, so the edit saves `a@h2`, and two rows then share that key | the posted username is stored, so the checked key is the saved key | high (not executed) | Store.EditBreaksKeyUniqueness | Store.EditIntendedKeepsKeysUnique |
| file_manager/views.py:160-163 | the collision check also matches the row being edited | edit `a@h1` posting username `a`, host `h1` and a new password: always "SFTP Connection already exist."; a new password is saved only by posting some other, unused username, which is then dropped (`Store.EditPasswordViaOtherUsername`) | an edit collides only with another credential, and the posted username is stored, so the password alone can be changed | medium (not executed) | Store.EditKeepingKeyRefused | Store.EditIntendedAllowsPasswordChange |

`Views.ConnectionTable.EditConnection` follows the code as written. `Views.ConnectionTable.EditConnectionIntended`
is the corrected view.

## Left out

- The SFTP sessions (views.py:120-121, 203-206, 246-249) are not modelled. The listing, the probe
  and the downloaded content are parameters. The probe's session is never closed; that is I/O.
- The global host-key setting (views.py:15-16) is library configuration.
- `index`, `user_login`, `user_logout`, `register`, `login_required`, templates and redirects are
  not modelled. They are framework and identity plumbing.
- The GET branches of `add_connection` and `edit_connection` only render the form, so they are not
  modelled.
- `file_manager/urls.py` and `file_manager/forms.py` are not part of this model. The form's verdict
  is the `formValid` parameter, because its rules live in Django.
- Column widths are modelled as a database constraint: a row that does not fit fails with
  `DataError`. The form's password field declares no maximum length. Whether the configured
  database enforces widths (SQLite does not) is not part of this model.
- The `if conn:` test in `open_connection` always holds for a model instance. The
  "Connection impossible." branch is therefore unreachable and not modelled.
- An error other than `SSHException` during a listing, and an entry whose `st_size` is missing,
  are not modelled. Sizes are natural numbers, as SFTP reports them.
- The race between the duplicate check and the insert is a concurrency matter. Operations here run
  one at a time.
- Buffering the whole file in `BytesIO` (views.py:245-253) is I/O. The content is passed through
  unchanged.
- Store.OwnedBy: states which rows are listed, not their order, because the query sets no ordering.
- Store.Get: says nothing positive about the several-rows outcome beyond its being neither of the
  other two.
- Store.EditIntendedStep: its own contract is weaker than the properties proved about it. Its
  uniqueness and password-change properties are separate lemmas.
