# A verified model of the cline-todo core

cline-todo is a small Next.js todo application. Todos carry tags and
attached files. This project models its core in Dafny and proves properties
of the model:

- **Attachment storage** (`file_upload.dfy`): the `data:` URL envelope
  parser, the choice of the stored file's extension, and the storage
  name, path and URL. The file store is a class whose file map the save and
  delete methods update. `posix_path.dfy` models Node's POSIX
  `path.normalize` and `path.join`; `text.dfy` models the JavaScript string
  operations the code uses (`trim`, `split`/`pop`, `startsWith`, `includes`).
- **The in-memory database** (`db.dfy`): tables of todos, tags, todo–tag
  join rows and file rows, with ids drawn from one counter. It offers the
  lookups and the inserts the routes perform.
- **`POST` and `GET /api/todos`** (`todos_route.dfy`): title validation and
  trimming, the find-or-create loop over the tag names, creation of the todo
  with its join rows, and the list filtered by tag name, newest first, with
  tags flattened.
- **`POST /api/files`** (`files_route.dfy`): the ordered checks (400, 404,
  500) and the record created after a successful save.
- **The client state** (`page.dfy`, `todo_form.dfy`, `todo_item.dfy`,
  `todo_details.dfy`, `todo_list.dfy`, `tag_editor.dfy`): each component's
  React state is a class, and each handler is a method. A server call is a
  parameter that either succeeded with a value or failed. The list patches
  are pure functions. The shared tag-add rule lives in `tag_editor.dfy`.
  The tag vocabulary is built by nested loops and then sorted in
  JavaScript's UTF-16 order.

Records follow `src/types/index.ts`; timestamps are natural numbers.
Database ids are natural numbers. The id a client sees is the number's
decimal text (`Db.IdFor`).

## Model

| member | source | states |
|---|---|---|
| FileUpload.MatchEnvelopeIff | src/lib/fileUpload.ts:26-33 | the regex matches exactly `data:` + a non-empty run of letters, `-`, `+`, `/` + `;base64,` + a non-empty payload without line terminators; the match's groups are that type and that payload (both directions) |
| FileUpload.ForeignCharInTypeRejected | src/lib/fileUpload.ts:26-30 | a media type holding any character outside the class (a digit, a '.') makes the envelope fail, so `audio/mp4` and `application/vnd.ms-excel` are rejected |
| FileUpload.EmptyPayloadRejected | src/lib/fileUpload.ts:26-30 | an envelope with an empty payload (a zero-byte file) is rejected |
| FileUpload.ExtensionFromName | src/lib/fileUpload.ts:37 | for a name not ending in '.', the extension is the non-empty, dot-free text after its last '.', or the whole name when it has no '.' |
| FileUpload.ExtensionFallback | src/lib/fileUpload.ts:37-39 | for an empty name or one ending in '.', the extension is the second `/`-separated segment of the media type (`split('/')[1]`) when it exists and is non-empty, else `bin` |
| FileUpload.ExtensionHasNoDot | src/lib/fileUpload.ts:37-39 | with a dot-free media type, the extension is non-empty and dot-free |
| FileUpload.UploadDirClean | src/lib/fileUpload.ts:6 | `path.join(cwd, 'public', 'uploads')` for an absolute cwd is a clean absolute path |
| FileUpload.StoragePathInside | src/lib/fileUpload.ts:41-42 | the storage path of `<uuid>.<ext>` begins with the upload directory and a '/', and is already in normal form |
| FileUpload.StoragePathDirectIff | src/lib/fileUpload.ts:41-45 | the storage path lies directly in the upload directory exactly when the extension has no '/' |
| FileUpload.StoragePathNested | src/lib/fileUpload.ts:41-42 | an extension holding '/' puts the stored file below a subdirectory of the upload directory, not directly in it |
| FileUpload.StoredPathPassesGuard | src/lib/fileUpload.ts:58-59 | every storage path the save builds passes the delete guard |
| FileUpload.SiblingPassesGuard | src/lib/fileUpload.ts:58-62 | the guard is a string prefix test: `<uploadDir>-old/<f>` passes it though it is outside the directory |
| FileUpload.FileStore.constructor | src/lib/fileUpload.ts:6 | the upload directory is `path.join(cwd, 'public', 'uploads')` |
| FileUpload.FileStore.SaveFileFromBase64 | src/lib/fileUpload.ts:19-52 | a non-matching envelope gives `Invalid base64 string` and writes nothing; a write fails only on a disk fault or an extension holding '/'; on success the bytes are stored at `path.join(uploadDir, <uuid>.<ext>)`, nothing else changes, the url is `/uploads/<name>` and the size is the number of decoded bytes |
| FileUpload.FileStore.DeleteFile | src/lib/fileUpload.ts:55-70 | answers true exactly when the normalized path passes the prefix guard and names a stored file, which is then removed; otherwise answers false and removes nothing |
| PosixPath.NormalizeClean | src/lib/fileUpload.ts:58 | `path.normalize` leaves a clean absolute path unchanged |
| PosixPath.NormalizeIdempotent | src/lib/fileUpload.ts:58 | normalizing an absolute path twice is normalizing it once |
| Text.TrimIdempotent | src/app/api/todos/route.ts:91 | `trim` applied twice equals `trim` applied once |
| Text.TrimSlice | src/app/api/todos/route.ts:91 | `trim` keeps one contiguous slice of the string and removes only spaces before and after it |
| Text.BlankIffAllSpace | src/app/api/todos/route.ts:61 | `s.trim() === ''` exactly when every character of `s` is JavaScript white space |
| Text.ContainsIffOccurs | src/components/TodoDetails.tsx:260-267 | `includes` holds exactly when the needle occurs at some position |
| Text.JoinSplit | src/lib/fileUpload.ts:37-38 | joining the parts of `split(sep)` with `sep` gives back the string |
| Text.SplitJoin | src/lib/fileUpload.ts:37 | splitting the join of separator-free parts gives back those parts |
| Text.SplitPartsSepFree | src/lib/fileUpload.ts:37 | no part of `split(sep)` holds the separator |
| Text.LastSegmentSpec | src/lib/fileUpload.ts:37 | `split(sep).pop()` is the separator-free tail of the string: all of it when it has no separator, otherwise the text after its last separator |
| Text.DecimalRoundTrip | src/components/TodoDetails.tsx:34 | the decimal text of a number reads back as that number |
| Db.Database.UpsertTag | src/app/api/todos/route.ts:74-78 | an existing tag of that exact name is returned and the table is unchanged; otherwise one new row with a fresh id is appended |
| Db.Database.CreateTodo | src/app/api/todos/route.ts:89-96 | appends one row with a fresh id, not completed, both times `now`, and one join row per tag id in order |
| Db.Database.CreateTodoFile | src/app/api/files/route.ts:33-41 | appends one file row with a fresh id; nothing else changes |
| Db.FilesOfAppendOwn | src/app/api/todos/route.ts:30-31 | a new file row is listed last among its todo's files |
| Db.LinkedTags | src/app/api/todos/route.ts:110 | `todo.tags.map(todoTag => todoTag.tag)` has at most one tag per join row, and each is the view of a stored tag row |
| Db.LinkedTagsOfJoinRows | src/app/api/todos/route.ts:93-110 | the tags of a new todo are the tags of its join rows, in order |
| Db.FindTagUnique | src/app/api/todos/route.ts:80-84 | with unique tag ids, the lookup by id (`connect: { id: tag.id }`) finds each row |
| Db.FindTagByNameUnique | src/app/api/todos/route.ts:74-78 | with unique tag names, the lookup by name (`where: { name }`) finds each row |
| TodosRoute.TagRequestsMembership | src/app/api/todos/route.ts:70-78 | a name is requested exactly when some entry trims to it and is not blank |
| TodosRoute.TagRequestsClean | src/app/api/todos/route.ts:72-75 | every requested name is non-empty and trimmed |
| TodosRoute.TagRequestsOfBlanks | src/app/api/todos/route.ts:72 | entries that are all blank request no tag |
| TodosRoute.UpsertRequested | src/app/api/todos/route.ts:69-87 | the loop connects one tag per non-blank entry, in input order, each named by the trimmed entry; a tag that already existed is reused unchanged; the rows added are exactly the requested names the table lacked (one row each, names being unique); no tag is removed and no join row changes |
| TodosRoute.Post | src/app/api/todos/route.ts:57-113 | a missing or blank title gives 400 `Title is required` and changes nothing; otherwise 201 with one new todo whose title is trimmed, whose description is trimmed when present, not completed, with no files, whose tags are named exactly by the requested names in order, and whose id was not taken; the tag rows added are exactly the requested names the table lacked; the earlier join rows are kept and the only new ones, one per requested name, belong to the new todo, so no other todo's tags change |
| TodosRoute.SortNewest | src/app/api/todos/route.ts:27-29 | the result is a permutation of the rows, ordered by createdAt descending |
| TodosRoute.GetSelects | src/app/api/todos/route.ts:9-38 | the listed rows are exactly the rows passing the filter, each as often as in the table |
| TodosRoute.GetNewestFirst | src/app/api/todos/route.ts:25-29 | the list is ordered by createdAt descending |
| TodosRoute.GetFiltered | src/app/api/todos/route.ts:13-44 | under a non-empty tag filter, every listed todo has a tag of that name |
| TodosRoute.GetUnfiltered | src/app/api/todos/route.ts:11-13 | with no filter or an empty one, every row is listed |
| FilesRoute.RecordedMimetype | src/app/api/files/route.ts:37 | the recorded type is the body's mimetype when non-empty, else `application/octet-stream` |
| FilesRoute.Post | src/app/api/files/route.ts:6-58 | a falsy todoId, file or filename gives 400 with nothing written; an unknown todo gives 404 with nothing written; a failed save gives 500 with no record; success is 201 exactly when all three checks pass; it records the original name, the storage path, the recorded type and the decoded size, and answers `{id, filename, url, size, mimetype, createdAt}` with the save's url |
| Home.FindById | src/app/page.tsx:69 | `find` answers a todo with that id from the list, or none exactly when no todo has it |
| Home.FindByIdFirst | src/app/page.tsx:69 | `find` answers the first todo with that id |
| Home.ReplaceById | src/app/page.tsx:87 | every entry with that id is replaced; the others are unchanged, in place |
| Home.RemoveById | src/app/page.tsx:147 | no entry with that id remains; every other entry remains, in order |
| Home.RemoveByIdIds | src/app/page.tsx:147 | the ids left are the ids with every occurrence of `id` removed, so the list shrinks by exactly the number of todos carrying `id` and every other todo keeps its multiplicity |
| Home.AddFile | src/app/page.tsx:205-213 | the matching todos get the file appended after their files (missing files count as none); other todos are unchanged |
| Home.RemoveFile | src/app/page.tsx:245-253 | todos holding the file lose it; all others are identical |
| Home.WithoutFileIds | src/app/page.tsx:249 | `files.filter(file => file.id !== fileId)` leaves the file ids with every `fileId` removed, so the list shrinks by exactly the number of files carrying it |
| Home.PrependThenRemove | src/app/page.tsx:59 | deleting a todo just prepended restores the list |
| Home.ReplaceByIdAbsent | src/app/page.tsx:87 | replacing an id no todo has leaves the list unchanged |
| Home.RemoveFileGone | src/app/page.tsx:245-253 | after a file delete no todo holds the file |
| Home.AddThenRemoveFile | src/app/page.tsx:205-253 | deleting a file that was just attached with a new id restores the list, provided the todo that received it already had a files list (a missing list comes back as `[]`, not as missing) |
| Home.HomeState.constructor | src/app/page.tsx:10-13 | the page starts with no todos, no error and no selected todo |
| Home.HomeState.HandleAddTodo | src/app/page.tsx:44-64 | posts title, description and tags; on success the server's todo is prepended; on failure the error is `Failed to add todo. Please try again.` and the list is unchanged |
| Home.HomeState.HandleToggleTodo | src/app/page.tsx:67-97 | an unknown id sends nothing and changes nothing; otherwise sends `completed = !current`, replaces that id by the answer and updates the selection only when it has that id; a failure sets the update error and changes no list |
| Home.HomeState.HandleEditTodo | src/app/page.tsx:100-129 | sends title, description and tags; replaces that id by the answer, and the selection only when it has that id; a failure sets the update error |
| Home.HomeState.HandleDeleteTodo | src/app/page.tsx:137-157 | removes exactly the entries with that id and closes the selection if it had it; a failure sets the delete error |
| Home.HomeState.HandleUploadFile | src/app/page.tsx:175-231 | sends `{todoId, filename, mimetype, file}`; on success appends the answer to the todo's files, refreshes the selection when it is that todo, and returns the answer; on failure returns none and sets the upload error |
| Home.HomeState.HandleDeleteFile | src/app/page.tsx:234-271 | on success removes the file from every todo, refreshes the selection if it held the file, and returns true; on failure returns false and sets the file-delete error |
| TagEditor.AddNameKeepsNoDup | src/components/TodoForm.tsx:28-33 | an add never introduces a duplicate entry |
| TagEditor.AddNameIsClean | src/components/TodoForm.tsx:29-30 | an added entry is non-blank and trimmed |
| TagEditor.AddNamePresent | src/components/TodoForm.tsx:28-33 | after an add of a non-blank input its trimmed form is in the list |
| TagEditor.AddThenRemove | src/components/TodoForm.tsx:28-37 | removing a name just added restores the list |
| TagEditor.RemoveKeepsTagList | src/components/TodoForm.tsx:35-37 | removal keeps the list clean and duplicate-free |
| Seqs.RemoveAll | src/components/TodoForm.tsx:35-37 | `filter(x => x !== v)`: no `v` remains, the result is an order-preserving subsequence, and it is shorter by exactly the number of occurrences of `v`, so every other entry keeps its multiplicity |
| TodoForm.FormState.constructor | src/components/TodoForm.tsx:8-13 | the six fields start empty or false |
| TodoForm.FormState.HandleAddTag | src/components/TodoForm.tsx:28-33 | appends the trimmed input and clears it only when it is non-blank and absent; keeps the tag list clean and duplicate-free |
| TodoForm.FormState.HandleRemoveTag | src/components/TodoForm.tsx:35-37 | removes every entry equal to the name, keeping the order of the rest |
| TodoForm.FormState.HandleSubmit | src/components/TodoForm.tsx:15-26 | a blank title calls nothing and changes nothing; otherwise `onAdd` gets the title as typed, the description and the tags (none when empty), and all six fields are reset |
| TodoItem.ItemState.constructor | src/components/TodoItem.tsx:24-36 | `editedTags` starts as the names of the prop tags in order; the description defaults to '' |
| TodoItem.ItemState.StartEditing | src/components/TodoItem.tsx:188 | enters edit mode, keeping the edited values |
| TodoItem.ItemState.HandleEdit | src/components/TodoItem.tsx:38-43 | calls `onEdit` and leaves edit mode only when the title is not blank |
| TodoItem.ItemState.HandleAddTag | src/components/TodoItem.tsx:45-50 | appends the trimmed input and clears it only when it is non-blank and absent; duplicate-freedom is kept |
| TodoItem.ItemState.HandleRemoveTag | src/components/TodoItem.tsx:52-54 | removes every entry equal to the name |
| TodoItem.ItemState.Cancel | src/components/TodoItem.tsx:123-128 | restores title, description and tag names from the props as they are at that moment (after any re-render) and leaves edit mode; the props themselves are unchanged |
| TodoItem.ItemState.ReceiveProps | src/components/TodoList.tsx:81-87 | a re-render under the same key replaces the title, description and tags props and keeps every state field |
| TodoItem.CancelAfterSave | src/components/TodoItem.tsx:123-128 | a row re-rendered with a saved title and then cancelled shows the saved title, not the one it was mounted with |
| TodoList.AvailableTags | src/components/TodoList.tsx:27-37 | the result holds each tag name of each todo, only those, once each, strictly sorted in UTF-16 order |
| TodoList.VocabularyUnique | src/components/TodoList.tsx:36 | only one strictly sorted list has exactly the todos' tag names, so the vocabulary is determined |
| TodoList.SortedUnique | src/components/TodoList.tsx:36 | two strictly sorted lists with the same entries are equal |
| TodoList.Sort | src/components/TodoList.tsx:36 | `Array.from(set).sort()` gives the same names, strictly sorted |
| TodoList.BelowTotal | src/components/TodoList.tsx:36 | the UTF-16 string order is total on distinct strings |
| TodoList.BelowTransitive | src/components/TodoList.tsx:36 | the UTF-16 string order is transitive |
| TodoDetails.DetailsState.constructor | src/components/TodoDetails.tsx:13-19 | the panel copies the todo's title, description ('' when missing), files and tags |
| TodoDetails.DetailsState.StartEditing | src/components/TodoDetails.tsx:344 | the Edit button enters edit mode and changes no other field |
| TodoDetails.DetailsState.HandleEdit | src/components/TodoDetails.tsx:22-27 | with a non-blank title calls `onEdit` with the tag names in list order and leaves edit mode; else nothing |
| TodoDetails.DetailsState.HandleAddTag | src/components/TodoDetails.tsx:29-42 | with a non-blank name no tag has, appends a tag with that trimmed name and a `temp-` id and clears the input; the names change as the shared add rule says |
| TodoDetails.DetailsState.HandleRemoveTag | src/components/TodoDetails.tsx:44-46 | drops every tag with that name; the names lose exactly that name |
| TodoDetails.DetailsState.HandleFileUpload | src/components/TodoDetails.tsx:55-82 | with no selection nothing changes; otherwise the non-null results are appended in selection order and the panel leaves the uploading state |
| TodoDetails.DetailsState.HandleDeleteFile | src/components/TodoDetails.tsx:84-89 | the file leaves the list only when the delete answered true |
| TodoDetails.DetailsState.Cancel | src/components/TodoDetails.tsx:325-330 | restores title, description and tags from the current `todo` prop (after any re-render) and leaves edit mode; files, tag input and the prop are unchanged |
| TodoDetails.DetailsState.ReceiveTodo | src/app/page.tsx:304-306 | the open panel receives the page's new `selectedTodo` and keeps every state field, as `useState` does |
| TodoDetails.CancelAfterSave | src/components/TodoDetails.tsx:325-330 | a panel handed the saved todo and then cancelled shows the saved title and tags, not those it was opened with |
| TodoDetails.WithoutTagNameNames | src/components/TodoDetails.tsx:45 | removing tags by name removes exactly that name from the list of names, so the list shrinks by exactly the number of tags of that name |
| TodoDetails.UploadedMembership | src/components/TodoDetails.tsx:63-70 | a file is among the uploaded ones exactly when some result is that file |
| TodoDetails.UploadedAllPresent | src/components/TodoDetails.tsx:63-72 | when every upload answers, the appended files are the answers in order |
| TodoDetails.TempTag | src/components/TodoDetails.tsx:33-38 | the temporary tag has the given name and an id starting with `temp-` |
| TodoDetails.IsImageIff | src/components/TodoDetails.tsx:256 | a file is previewed as an image exactly when its mimetype is `image/` followed by anything |
| TodoDetails.IsImageExamples | src/components/TodoDetails.tsx:256 | `image/png` is previewed as an image; `application/pdf` and a bare `image` are not |
| TodoDetails.FileIconByRules | src/components/TodoDetails.tsx:259-269 | the icon is that of the first rule, in the fixed order, whose substrings the mimetype contains, or the default icon |
| TodoDetails.OfficeDocumentIcon | src/components/TodoDetails.tsx:261-263 | a type containing "document" and not "pdf" gets the document icon, even a spreadsheet or presentation type |
| TodoDetails.FileUrlMissesStoredFile | src/components/TodoDetails.tsx:255 | for any file name without '/', the link is `/uploads/` plus the name, and it equals the stored file's url `/uploads/<uuid>.<ext>` exactly when the name already is `<uuid>.<ext>` |
| TodoDetails.ReportPdfLinkMissed | src/components/TodoDetails.tsx:255 | a file uploaded as `report.pdf` gets the link `/uploads/report.pdf`, which is not the stored file's url |
| TodoDetails.StoredFileUrlIsSavedUrl | src/components/TodoDetails.tsx:255 | a link built from the last segment of a stored file's path is the url the save answered |

## Left out

- I/O and plumbing: fetch, `FileReader`, JSON, `NextRequest`/`NextResponse`, async scheduling and `console.error`. A server call is a parameter that either succeeded with a value or failed.
- The `catch` branches of `GET` and `POST /api/todos` (500 `Failed to fetch todos` / `Failed to create todo`). The in-memory store never throws.
- Base64 decoding is a function parameter (`decode`), as is the fresh name from `uuidv4()`. The model requires it to be 36 lowercase hex digits and dashes.
- The disk is a map from path to bytes. A write fails only on a disk fault (a parameter) or when the path is not directly in the upload directory (a missing directory). Symlinks and directory creation are not modelled.
- `ensureUploadDir`: its mkdir/access behaviour is filesystem plumbing.
- FileUpload.FileStore.DeleteFile: unlinks the entry at the normalized path, where the code passes the raw path to `unlink`. The two name the same file for a lexical `..`; with symlinks they may not.
- `path.normalize` is modelled for POSIX paths by dot-segment resolution over `/`-separated segments.
- Prisma is an in-memory store. The unique constraints and cascades of the schema are not shown. Tag-name uniqueness is a proved invariant of the store instead of an assumed constraint.
- Repeated tag names in one `POST` produce repeated join rows, as in the code. Whether the schema would refuse them is unknown.
- Todos with equal `createdAt` are listed in a stable order. Prisma leaves that order unspecified.
- The PUT/DELETE `/api/todos/[id]` and DELETE `/api/files/[id]` handlers are not part of this model. Update, delete and cascade semantics are not guessed.
- Home.HomeState.HandleUploadFile: the server's answer (`{id, filename, url, size, mimetype, createdAt}`) is treated as the `TodoFile` that the code casts it to. The model's `TodoFile` has fields that answer lacks.
- `fetchTodos`, `handleFilterByTag` and `handleViewTodoDetails` in `page.tsx` only load or store a value, so the model has no members for them.
- The input change handlers and the show/hide toggles of the components are plain field assignments. The model has no members for them.
- `formatFileSize`: its KB/MB branches use floating-point division and `toFixed`.
- TodoDetails.DetailsState.HandleFileUpload: the `isUploading` flag is observed only at the end. The reset of the file input and the `catch` branch are left out. `onUploadFile` never throws, because it catches everything and answers null.
- JSX rendering, CSS, `layout.tsx` and `tailwind.config.js`: presentation only.
- Dates are natural numbers. `new Date()` and `Date.now()` are the parameter `now`.

## Findings

| source | as written | input that shows it | evidently intended | confidence | as-written member | corrected member |
|---|---|---|---|---|---|---|
| src/components/TodoDetails.tsx:255 | the file link is `/uploads/` plus the last `/`-segment of the file's original name | a file uploaded as `report.pdf` is stored as `<uuid>.pdf`, but its link is `/uploads/report.pdf` | the link names the stored file: `/uploads/` plus the last segment of the storage path, which is the url the upload answered | high; not executed | TodoDetails.FileUrlMissesStoredFile | TodoDetails.StoredFileUrlIsSavedUrl |
