# Travel-Journey blog: a Dafny model of its post store

The blog (`app.py`, a Flask application) keeps its travel posts as one JSON array in
`posts.json`. A post is a record with a title, an author, the content, a date and an
optional image file name. A post's id is just its position in that array. The listing
and single-post pages only load the array. The create, edit and delete handlers load the
whole array, change it in memory and write it all back. The home page reads no file. Uploaded images are
accepted only when their extension is png, jpg, jpeg or gif, in any case. An accepted
image is recorded under its sanitized file name.

This project models that core in four modules:

- `Wrappers` (wrappers.dfy) holds `Option`, `Result` and `Outcome`, and `IndexError`,
  the one error of the handlers that this model covers: an id past the end of the list.
- `Uploads` (uploads.dfy) models `allowed_file` as the predicate `AllowedFile`. It also
  models the upload guard shared by `create` and `edit`, and the image name a post
  records (`StoredImage`).
- `Posts` (posts.dfy) holds the `Post` record and the list operations as functions:
  read by id, append, edit at an id, pop at an id. Lemmas relate these operations.
- `App` (app.dfy) is the class `Blog`. It holds the contents of the posts file as
  `Option<seq<Post>>`, where `None` means there is no file yet. Its methods are the
  handlers `posts_list`, `post`, `create`, `edit` and `delete`, plus `load_posts` and
  `save_posts`. Each handler method is proved to leave the file equal to the
  corresponding `Posts` function applied to the old contents.

`secure_filename` is not modelled. It is the class constant `sanitize`, an arbitrary
function fixed when a `Blog` is constructed, so every property holds for any sanitizer.
A request's `image` part is the input `Upload`. It is either `NoFileField` (the form has
no `image` field) or `FileField(filename)`. An empty `filename` stands for a file field
sent without a file; werkzeug treats that file as false.

Flask's `int` converter only yields non-negative ids, so ids are `nat`. The failure modelled
is an id at or past the end of the list. It is an `IndexError` result that leaves the file
untouched, where the Python code raises the exception before `save_posts` runs. A missing
form field and a corrupt posts file also raise in the Python code; neither is modelled (see
"## Left out").

## Model

| member | source | states |
|---|---|---|
| Uploads.LowerChar | app.py:19 | ASCII upper-case letters map to their lower-case letter; every other character is kept |
| Uploads.Lower | app.py:19 | lower-casing keeps the length and lower-cases each character in place |
| Uploads.LastDot | app.py:19 | the cut `rsplit('.', 1)` makes: absent exactly when the name has no '.', else a position holding '.' with no '.' after it |
| Uploads.Extension | app.py:19 | `rsplit('.', 1)[1]`: the dot-free tail of the name that directly follows a '.' |
| Uploads.LastDotUnique | app.py:19 | a '.' with no '.' after it is the one `rsplit` cuts at |
| Uploads.AllowedFileIff | app.py:11-19 | `allowed_file(f)` holds iff some '.' in f has no '.' after it and the lower-cased text after it is png, jpg, jpeg or gif |
| Uploads.AllowedFileOfParts | app.py:11-19 | for stem + "." + ext with a dot-free ext, the verdict depends only on the lower-cased ext being in the allow-set |
| Uploads.NoDotNotAllowed | app.py:19 | a name with no '.' is refused |
| Uploads.TrailingDotNotAllowed | app.py:19 | a name ending in '.' is refused, since its extension is empty |
| Uploads.AllowedFileIsLong | app.py:11-19 | every accepted name has at least four characters |
| Uploads.UpperCaseExtensionAccepted | app.py:11-19 | "photo.PNG" is accepted |
| Uploads.LastExtensionAccepted | app.py:11-19 | "a.tar.gif" and ".gif" are accepted |
| Uploads.OtherExtensionRejected | app.py:11-19 | "photo.exe" and "photo.png.exe" are refused |
| Uploads.MissingExtensionRejected | app.py:19 | "noext" and "photo." are refused |
| Uploads.AllowedFile | app.py:18-19 | `allowed_file`: a name without '.' is refused, and an accepted name's text after its last '.' has three or four characters; the full verdict is stated by AllowedFileIff |
| Uploads.ValidUpload | app.py:63-65 | the guard `'image' in request.files and file and allowed_file(...)` passes iff a file field is present and its name passes `allowed_file`; the emptiness test never decides |
| Uploads.StoredImage | app.py:60-68 | a post records an image iff the upload has a file field whose name passes `allowed_file`, and then it records the sanitized name |
| Posts.NewPost | app.py:72 | the created record carries the four submitted fields and the given image |
| Posts.Revise | app.py:84-95 | an edited record takes all four submitted text fields; its image changes only when a new image was stored |
| Posts.Get | app.py:49 | reading id i succeeds iff i is below the length and gives the post at i; otherwise IndexError |
| Posts.Append | app.py:72 | appending gives one more post: the old ones unchanged in front, the new one last |
| Posts.Edit | app.py:82-95 | editing id i succeeds iff i is below the length; then the length is kept, post i is revised and every other post is unchanged; otherwise IndexError |
| Posts.Delete | app.py:107 | popping id i succeeds iff i is below the length; then the length drops by one, posts before i stay, and the post at j > i moves to j - 1; otherwise IndexError |
| Posts.GetAfterAppend | app.py:49-72 | after an append the new post reads at the old length and every other id reads as before |
| Posts.CreateThenGet | app.py:49-72 | a post created without an image reads back at the new id as the submitted fields with no image |
| Posts.DeleteUndoesAppend | app.py:72-107 | popping the id just appended gives back the list as it was |
| Posts.GetAfterDelete | app.py:49-107 | after popping id i, reading j gives what reading j (below i) or j + 1 (from i on) gave before |
| Posts.DeleteFirstOfThree | app.py:107 | of three posts, popping id 0 leaves the former ids 1 and 2 at ids 0 and 1 |
| Posts.GetAfterEdit | app.py:49-95 | after editing id i, reading i gives the revised post and reading any other id gives what it gave before |
| Posts.EditKeepsImage | app.py:84-95 | an edit without a new image sets the four text fields and keeps the post's image |
| Posts.EditIdempotent | app.py:82-95 | submitting the same edit twice leaves the same list as submitting it once |
| Posts.EditWithOwnFieldsIsIdentity | app.py:82-95 | re-submitting a post's own fields without an image leaves the list unchanged |
| Posts.OutOfRangeFails | app.py:49-107 | at an id at or past the end, reading, editing and popping all fail with IndexError |
| App.Blog.Stored | app.py:22-26 | the posts the file holds: the saved list, and the empty list when there is no file |
| App.Blog.LoadPosts | app.py:22-26 | loading gives exactly the stored posts |
| App.Blog.SavePosts | app.py:29-31 | saving makes the file hold exactly the given list |
| App.Blog.Resave | app.py:22-31 | saving what was just loaded leaves the stored posts unchanged, and the file then exists |
| App.Blog.PostsList | app.py:40-43 | the listing is every stored post in stored order |
| App.Blog.ShowPost | app.py:46-50 | showing id i succeeds iff i is below the number of stored posts and gives the post at i; otherwise IndexError |
| App.Blog.Create | app.py:55-74 | the file then holds the old posts followed by the new post, whose image is the stored name of a valid upload or none |
| App.Blog.Edit | app.py:79-98 | below the length, the file then holds the old posts with post i revised by the form and the valid upload; otherwise IndexError and the file is unchanged |
| App.Blog.Delete | app.py:104-109 | below the length, the file then holds the old posts without post i; otherwise IndexError and the file is unchanged |
| App.CreateThenShow | app.py:46-74 | creating a post without an upload and then showing the new id (the old number of posts) reads back the submitted fields with no image |

## Left out

- Posts.Delete: an id of 2**63 or more makes `list.pop` raise OverflowError rather than IndexError, because CPython converts the index to a machine-size integer; the model reports IndexError, with the same effect (an unhandled error, nothing saved).
- App.Blog.Delete: the same OverflowError case for ids of 2**63 or more is reported as IndexError.
- Posts.OutOfRangeFails: its `Delete` clause says IndexError also for ids of 2**63 or more, where `list.pop` raises OverflowError; reading and editing (`posts[post_id]`) do raise IndexError there.
- A form without one of `title`, `author`, `content` or `date` makes `request.form[...]` raise before anything is saved (400 Bad Request, or an unhandled error under `debug=True`). The model takes the four fields as given.
- Flask routing, `render_template`, `redirect`/`url_for`, request-form parsing and `app.run` are framework plumbing. The handlers take the parsed form and upload as parameters.
- The GET branches of `create` and `edit` only render a form. `edit`'s GET branch reads `posts[post_id]` first, and that read is the one `App.Blog.ShowPost` models.
- JSON encoding and decoding and the file reads and writes in `load_posts`/`save_posts` are I/O. The file is its decoded contents. A corrupt file (a JSON parse error) and records with missing keys are not modelled.
- `secure_filename` belongs to werkzeug and is not part of this model. It is the uninterpreted `sanitize` constant.
- `file.save` into the upload folder and the `os.makedirs` bootstrap are file-system side effects and are not modelled. So is overwriting an existing image with the same name.
- Uploads.Lower: `str.lower` also lower-cases non-ASCII letters; the model lower-cases ASCII only. No non-ASCII letter lower-cases to a single one of the letters in png, jpg, jpeg and gif, so this does not change `allowed_file`'s verdict, but that is argued, not proved.
- The static "about" text of `home` is rendering only.
- Concurrent requests can race between one request's load and its save, so one update can be lost. The model is sequential: each handler runs to completion alone.
