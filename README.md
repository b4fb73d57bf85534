# File-share upload folder, modelled in Dafny

The server of this small file-sharing site is a Flask application
(`app.py`). Visitors upload files into one folder, see the folder's files
listed newest first, and delete files by name. This project models that
server's logic and proves its properties:

- `allowed_file`, the upload validator (`uploads.dfy`, module `Uploads`).
  It uses ASCII lower-casing, the last index of a character and Python's
  string order, which are in `text.dfy`, module `Text`.
- The POST branch of the index page and the delete endpoint, written as
  pure transitions on an abstract store that maps file names to saved
  files (`handlers.dfy`, module `Handlers`).
- The listing built by `get_files`: one record per file, sorted by date
  string, newest first, with a stable sort (`listing.dfy`, module
  `Listing`).
- The upload folder as an object whose `contents` field the handlers
  update in place (`app.dfy`, module `App`, class `UploadFolder`). Its
  methods are proved equal to the pure transitions. `GetFiles` builds the
  listing with a loop and then sorts it.

Inputs the server gets from its environment are parameters:
- `now` is the formatted creation time a saved file receives.
- `listing` is the order in which the directory listing returns the
  names. The only thing required of it is that it lists every stored
  name exactly once.
- `parts` are the multipart form parts of the request, keyed by field
  name.

A file's size is the length of its bytes. Its date is the `ctime` string
stored with it.

## Model

| member | source | states |
|---|---|---|
| Text.LastIndexOf | app.py:16 | finds the last occurrence of a character. The result is absent exactly when the character does not occur. Otherwise it is an index holding that character with no further occurrence after it |
| Uploads.AfterLastDot | app.py:16 | `rsplit('.', 1)[1]` is the suffix that follows a `.` and contains no `.` |
| Uploads.AllowedFile | app.py:15-16 | `allowed_file`: the name contains a `.` and the text after its last `.`, lower-cased, is one of the twelve extensions. Its contract bounds accepted names to at least four characters. The full description is AllowedFileAtLastDot, and AllowedFileOfJoin with SplitAtLastDot |
| Uploads.AllowedFileAtLastDot | app.py:15-16 | a name is accepted exactly when it has a `.` with no `.` after it, and the text after that `.`, lower-cased, is an allowed extension |
| Uploads.NoDotRejected | app.py:16 | a name without a `.` is never accepted |
| Uploads.AfterLastDotOfJoin | app.py:16 | for `stem.ext` where `ext` has no dot, the extension is `ext`, whatever dots `stem` contains |
| Uploads.AllowedFileOfJoin | app.py:6-16 | `stem.ext` is accepted exactly when `ext`, lower-cased, is one of the twelve allowed extensions |
| Uploads.SplitAtLastDot | app.py:16 | every name containing a dot has the form `stem.ext`, with `ext` its extension, so the previous row covers all of them |
| Uploads.TrailingDotRejected | app.py:16 | a name ending in `.` has an empty extension and is rejected |
| Uploads.AllowedFileOfLower | app.py:16 | a name and its lower-cased form are accepted or rejected alike |
| Uploads.CaseInsensitive | app.py:16 | two names equal up to ASCII letter case get the same verdict |
| Uploads.TwelveExtensions | app.py:6 | the allowed set holds twelve distinct extensions |
| Uploads.ExampleLastSegmentRefused | app.py:16 | `a.txt.exe` is refused |
| Uploads.ExampleLastSegmentAccepted | app.py:16 | `a.exe.txt` is accepted |
| Uploads.ExampleUpperCase | app.py:16 | `PHOTO.JPG` and `photo.jpg` are both accepted |
| Uploads.ExampleNoExtension | app.py:16 | `notes.` and `README` are refused |
| Handlers.Upload | app.py:33-48 | an upload succeeds exactly when a `file` part exists and its name passes the validator. The empty-name check never lets a file through. Every refusal is `danger`, redirects back and leaves the store unchanged. A success flashes "Uploaded <name> successfully!", redirects to the index and stores the bytes under the part's own name with time `now`. It replaces any entry of that name and leaves every other entry unchanged |
| Handlers.UploadCheckOrder | app.py:34-48 | the refusal message follows the fixed check order. "No file part" means the part is missing. "No selected file" means the name is empty. "File type not allowed." means a non-empty name that fails the validator |
| Handlers.UploadTwice | app.py:41-45 | repeating the same upload leaves the same store and response as doing it once |
| Handlers.Delete | app.py:56-64 | `success` is true exactly when the name is stored. Then the status is 200 and the flash is "Deleted <name>." as `success`; otherwise the status is 404 and the flash is "File not found." as `danger`. Afterwards the name is gone, every other entry is kept, and an absent name changes nothing |
| Handlers.DeleteAfterUpload | app.py:56-64 | deleting a name that was just uploaded succeeds and gives the previous store without that name |
| Handlers.DeleteTwice | app.py:56-64 | a second delete of the same name answers `success: false` with status 404 and leaves the store as it was |
| Text.StrLe | app.py:28 | Python's `<=` on `str`: code-point lexicographic order, in which a prefix comes first. StrLeReflexive, StrLeAntisymmetric, StrLeTransitive and StrLeTotal make it a total order, so "newest first" means Python's order |
| Text.StrLeReflexive | app.py:28 | every string is `<=` itself |
| Text.StrLeAntisymmetric | app.py:28 | two strings each `<=` the other are equal |
| Text.StrLeTransitive | app.py:28 | the order is transitive |
| Text.StrLeTotal | app.py:28 | any two strings are comparable |
| Listing.Insert | app.py:28 | inserting one record into the listing yields a permutation of the record plus the listing |
| Listing.SortNewestFirst | app.py:28 | the sorted listing is a permutation of its input |
| Listing.SortIsNewestFirst | app.py:28 | the sorted listing is non-increasing in date string, compared pair by pair |
| Listing.SortIsStable | app.py:28 | for every date, the records carrying it keep their input order. Python's sort stays stable under `reverse=True` |
| App.ListingRecords | app.py:20-27 | each record the loop builds gives a stored file's name, size and date. For a listing of the folder, every stored name has a record and no name has two |
| App.ListingSize | app.py:20 | a directory listing names exactly as many entries as the folder holds |
| App.UploadFolder.IndexPost | app.py:33-48 | the new contents and the response are those of `Handlers.Upload` on the old contents |
| App.UploadFolder.DeleteFile | app.py:56-64 | the new contents and the response are those of `Handlers.Delete` on the old contents |
| App.UploadFolder.GetFiles | app.py:18-29 | returns one record per stored file: every stored name has a record, and each record gives that file's size and date. The records are a permutation of the listing's records, newest first, and records with equal dates stay in listing order |

## Left out

- `static/app.js` is not part of this model. It is browser glue: DOM events, `fetch`, `XMLHttpRequest`, dialogs, the QR-code widget and page reloads. The endpoints it calls but `app.py` does not define (`/rename`, `/create_folder`, `/bulk_delete`, `/bulk_download`, `/upload?path=`) are not modelled either.
- The GET branch of the index page renders a template from `get_files()`. The listing is `App.UploadFolder.GetFiles`; the HTML rendering is not modelled.
- `uploaded_file` (`send_from_directory`) and `app.run` are Flask plumbing and are left out. So are the secret key and the creation of the folder at start-up; the constructor takes the folder's existing contents instead.
- Flask's `flash`, `redirect` and `jsonify` are kept only as values: the message, its category, the redirect target, the `success` flag and the status code.
- Files are keys of a map. Path joining, path traversal through names such as `../x.txt`, directories inside the folder, and errors raised by `os.remove` or `file.save` are not modelled. File names are opaque strings.
- Creation times are stored already formatted as `%Y-%m-%d %H:%M` and compared as strings; `st_ctime`, the clock and `strftime` are outside the model. Saving a file gives it the time `now`, including when it replaces an existing file.
- Lower-casing covers ASCII letters only. Python's `str.lower` also maps other characters, but the verdicts do not differ. Lower-casing a non-ASCII character gives an ASCII letter in two cases only. The Kelvin sign becomes `k`, and no allowed extension contains `k`. Capital I with a dot above becomes `i` followed by a combining dot, which no allowed extension contains.
- `request.files` is a multi-dict. The model keeps one part per field name, which is the part `request.files['file']` returns.
- Concurrent requests are not modelled; each handler is one atomic transition.
