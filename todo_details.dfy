/**
 * The details panel of one todo: its editable copy of the title,
 * description and tags, its list of files, and the per-file link, preview
 * and icon rules.
 */
module TodoDetails {
  import opened Types
  import opened Seqs
  import opened Text
  import opened PosixPath
  import opened FileUpload
  import opened TagEditor
  import Home

  // ---- tags edited as records ----

  /** The temporary tag the panel creates for a new name; `now` is `Date.now()`. */
  function TempTag(name: string, now: nat): (t: Tag)
    ensures StartsWith(t.id, "temp-") && t.name == name
  {
    Tag("temp-" + Decimal(now), name, now, now)
  }

  /** `tags.filter(tag => tag.name !== name)`. */
  function WithoutTagName(tags: seq<Tag>, name: string): (r: seq<Tag>)
    ensures forall i :: 0 <= i < |r| ==> r[i] in tags && r[i].name != name
    ensures forall i :: 0 <= i < |tags| && tags[i].name != name ==> tags[i] in r
    ensures IsSubsequence(r, tags)
  {
    if tags == [] then []
    else if tags[0].name == name then WithoutTagName(tags[1..], name)
    else [tags[0]] + WithoutTagName(tags[1..], name)
  }

  /** Removing by name from the records removes exactly that name from the names. */
  lemma {:induction false} WithoutTagNameNames(tags: seq<Tag>, name: string)
    ensures TagNames(WithoutTagName(tags, name)) == RemoveAll(TagNames(tags), name)
    ensures |WithoutTagName(tags, name)| == |tags| - multiset(TagNames(tags))[name]
  {
    if tags != [] {
      WithoutTagNameNames(tags[1..], name);
      assert TagNames(tags) == [tags[0].name] + TagNames(tags[1..]);
      if tags[0].name != name {
        var r := [tags[0]] + WithoutTagName(tags[1..], name);
        assert TagNames(r) == [tags[0].name] + TagNames(WithoutTagName(tags[1..], name));
      }
    }
  }

  // ---- uploads ----

  /** The files among the upload results, in selection order (`null` results skipped). */
  function Uploaded(results: seq<Option<TodoFile>>): (files: seq<TodoFile>)
    ensures |files| <= |results|
  {
    if results == [] then []
    else
      var last := results[|results| - 1];
      Uploaded(results[..|results| - 1]) + (if last.Some? then [last.value] else [])
  }

  /** A file is uploaded exactly when some result is that file. */
  lemma {:induction false} UploadedMembership(results: seq<Option<TodoFile>>, f: TodoFile)
    ensures f in Uploaded(results) <==> Some(f) in results
  {
    if results != [] {
      var init := results[..|results| - 1];
      UploadedMembership(init, f);
      assert results == init + [results[|results| - 1]];
    }
  }

  /** When every upload answers, the files are the answers in order. */
  lemma {:induction false} UploadedAllPresent(results: seq<Option<TodoFile>>)
    requires forall i :: 0 <= i < |results| ==> results[i].Some?
    ensures |Uploaded(results)| == |results|
    ensures forall i :: 0 <= i < |results| ==> Uploaded(results)[i] == results[i].value
  {
    if results != [] {
      UploadedAllPresent(results[..|results| - 1]);
    }
  }

  // ---- one file's row ----

  /** The link the panel shows for a file: `/uploads/` and the last `/`-segment of its name. */
  function FileUrl(file: TodoFile): string {
    "/uploads/" + LastSegment(file.filename, '/')
  }

  /** The link to the stored file: `/uploads/` and the last `/`-segment of its storage path. */
  function StoredFileUrl(file: TodoFile): string {
    "/uploads/" + LastSegment(file.path, '/')
  }

  /** `mimetype.startsWith('image/')`. */
  predicate IsImage(mimetype: string) {
    StartsWith(mimetype, "image/")
  }

  /** A file is previewed as an image exactly when its type is `image/` and some subtype. */
  lemma IsImageIff(mimetype: string)
    ensures IsImage(mimetype) <==> exists sub :: mimetype == "image/" + sub
  {
    if IsImage(mimetype) {
      assert mimetype == "image/" + mimetype[6..];
    }
  }

  /** `image/png` is previewed; `application/pdf` and a bare `image` are not. */
  lemma IsImageExamples()
    ensures IsImage("image/png")
    ensures !IsImage("application/pdf") && !IsImage("image")
  {
    assert "image/png"[..6] == "image/";
    assert "application/pdf"[0] != "image/"[0];
  }

  // The icon literals, code point for code point as the component has them.
  const PdfIcon: string := "\U{F8FF}\U{FC}\U{EC}\U{EF}"
  const DocumentIcon: string := "\U{F8FF}\U{FC}\U{EC}\U{F9}"
  const ChartIcon: string := "\U{F8FF}\U{FC}\U{EC}\U{E4}"
  const PageIcon: string := "\U{F8FF}\U{FC}\U{EC}\U{D1}"
  const ArchiveIcon: string := "\U{F8FF}\U{FC}\U{F3}\U{FA}\U{D4}\U{220F}\U{E8}"
  const AudioIcon: string := "\U{F8FF}\U{FC}\U{E9}\U{B5}"
  const VideoIcon: string := "\U{F8FF}\U{FC}\U{E9}\U{A8}"

  /** `getFileIcon`: the first substring rule the mimetype matches picks the icon. */
  function FileIcon(mimetype: string): string {
    if Contains(mimetype, "pdf") then PdfIcon
    else if Contains(mimetype, "word") || Contains(mimetype, "document") then DocumentIcon
    else if Contains(mimetype, "excel") || Contains(mimetype, "spreadsheet") then ChartIcon
    else if Contains(mimetype, "presentation") || Contains(mimetype, "powerpoint") then ChartIcon
    else if Contains(mimetype, "text") then PageIcon
    else if Contains(mimetype, "zip") || Contains(mimetype, "compressed") then ArchiveIcon
    else if Contains(mimetype, "audio") then AudioIcon
    else if Contains(mimetype, "video") then VideoIcon
    else PageIcon
  }

  /** A rule: any of its substrings picks its icon. */
  datatype IconRule = IconRule(needles: seq<string>, icon: string)

  /** The rules in the order they are tried. */
  const IconRules: seq<IconRule> := [
    IconRule(["pdf"], PdfIcon),
    IconRule(["word", "document"], DocumentIcon),
    IconRule(["excel", "spreadsheet"], ChartIcon),
    IconRule(["presentation", "powerpoint"], ChartIcon),
    IconRule(["text"], PageIcon),
    IconRule(["zip", "compressed"], ArchiveIcon),
    IconRule(["audio"], AudioIcon),
    IconRule(["video"], VideoIcon)
  ]

  /** Some needle of the list occurs in the mimetype. */
  predicate AnyOccurs(needles: seq<string>, mimetype: string) {
    needles != [] && (Contains(mimetype, needles[0]) || AnyOccurs(needles[1..], mimetype))
  }

  lemma AnyOccursOne(a: string, m: string)
    ensures AnyOccurs([a], m) <==> Contains(m, a)
  {
    assert [a][1..] == [];
  }

  lemma AnyOccursTwo(a: string, b: string, m: string)
    ensures AnyOccurs([a, b], m) <==> Contains(m, a) || Contains(m, b)
  {
    assert [a, b][1..] == [b];
    AnyOccursOne(b, m);
  }

  predicate Matches(rule: IconRule, mimetype: string) {
    AnyOccurs(rule.needles, mimetype)
  }

  /** The icon of the first rule that matches, or `fallback`. */
  function FirstMatch(rules: seq<IconRule>, mimetype: string, fallback: string): (icon: string)
    ensures (forall i :: 0 <= i < |rules| ==> !Matches(rules[i], mimetype)) ==> icon == fallback
    ensures forall i :: 0 <= i < |rules| ==>
      (Matches(rules[i], mimetype) && forall j :: 0 <= j < i ==> !Matches(rules[j], mimetype)) ==> icon == rules[i].icon
  {
    if rules == [] then fallback
    else if Matches(rules[0], mimetype) then rules[0].icon
    else
      var r := FirstMatch(rules[1..], mimetype, fallback);
      assert forall i :: 1 <= i < |rules| ==> rules[i] == rules[1..][i - 1];
      r
  }

  /** `FirstMatch` on the rules from `k` on tries rule `k`, then the ones after it. */
  lemma FirstMatchAt(rules: seq<IconRule>, k: nat, m: string, fallback: string)
    requires k < |rules|
    ensures FirstMatch(rules[k..], m, fallback) ==
      if Matches(rules[k], m) then rules[k].icon else FirstMatch(rules[k + 1..], m, fallback)
  {
    assert rules[k..][1..] == rules[k + 1..];
  }

  /** The icon is the first matching rule's, in the fixed order, or the page icon. */
  lemma FileIconByRules(mimetype: string)
    ensures FileIcon(mimetype) == FirstMatch(IconRules, mimetype, PageIcon)
  {
    var m, rs := mimetype, IconRules;
    assert rs[0..] == rs && rs[8..] == [];
    AnyOccursOne("pdf", m);
    FirstMatchAt(rs, 0, m, PageIcon);
    AnyOccursTwo("word", "document", m);
    FirstMatchAt(rs, 1, m, PageIcon);
    AnyOccursTwo("excel", "spreadsheet", m);
    FirstMatchAt(rs, 2, m, PageIcon);
    AnyOccursTwo("presentation", "powerpoint", m);
    FirstMatchAt(rs, 3, m, PageIcon);
    AnyOccursOne("text", m);
    FirstMatchAt(rs, 4, m, PageIcon);
    AnyOccursTwo("zip", "compressed", m);
    FirstMatchAt(rs, 5, m, PageIcon);
    AnyOccursOne("audio", m);
    FirstMatchAt(rs, 6, m, PageIcon);
    AnyOccursOne("video", m);
    FirstMatchAt(rs, 7, m, PageIcon);
  }

  /**
   * The word-processing rule comes before the spreadsheet and presentation
   * rules, so any type naming a "document" — the Office Open XML
   * spreadsheet and presentation types among them — shows the document icon.
   */
  lemma OfficeDocumentIcon(mimetype: string)
    requires Contains(mimetype, "document") && !Contains(mimetype, "pdf")
    ensures FileIcon(mimetype) == DocumentIcon
  {
  }

  // ---- the panel ----

  class DetailsState {
    // the `todo` prop; the page hands the open panel a new todo after an
    // edit, an upload or a file delete, without remounting it
    var todo: Todo

    var isEditing: bool
    var title: string
    var description: string
    var files: seq<TodoFile>
    var tags: seq<Tag>
    var tagInput: string
    var isUploading: bool

    /** The editable copy shows the todo as it came. */
    predicate ShowsTodo()
      reads this
    {
      && !isEditing
      && title == todo.title
      && description == todo.description.GetOr("")
      && tags == todo.tags.GetOr([])
    }

    constructor(todo: Todo)
      ensures this.todo == todo
      ensures ShowsTodo() && files == todo.files.GetOr([]) && tagInput == "" && !isUploading
    {
      this.todo := todo;
      isEditing := false;
      title := todo.title;
      description := todo.description.GetOr("");
      files := todo.files.GetOr([]);
      tags := todo.tags.GetOr([]);
      tagInput := "";
      isUploading := false;
    }

    /** The Edit button. */
    method StartEditing()
      modifies this
      ensures todo == old(todo)
      ensures isEditing
      ensures title == old(title) && description == old(description) && tags == old(tags)
      ensures files == old(files) && tagInput == old(tagInput) && isUploading == old(isUploading)
    {
      isEditing := true;
    }

    /** `handleEdit`: with a non-blank title, call `onEdit` with the tag names in list order. */
    method HandleEdit() returns (call: Option<EditCall>)
      modifies this
      ensures todo == old(todo)
      ensures IsBlank(title) ==> call.None? && unchanged(this)
      ensures !IsBlank(title) ==>
        && call == Some(EditCall(todo.id, title, Some(description), Some(TagNames(tags))))
        && !isEditing
      ensures title == old(title) && description == old(description) && tags == old(tags)
      ensures files == old(files) && tagInput == old(tagInput) && isUploading == old(isUploading)
    {
      if IsBlank(title) {
        return None;
      }
      call := Some(EditCall(todo.id, title, Some(description), Some(TagNames(tags))));
      isEditing := false;
    }

    /**
     * `handleAddTag`: append a temporary tag named by the trimmed input and
     * clear the input, when no tag has that name and the input is not blank.
     */
    method HandleAddTag(now: nat)
      modifies this
      ensures todo == old(todo)
      ensures TagNames(tags) == AddName(TagNames(old(tags)), old(tagInput))
      ensures CanAdd(TagNames(old(tags)), old(tagInput)) ==>
        tags == old(tags) + [TempTag(Trim(old(tagInput)), now)] && tagInput == ""
      ensures !CanAdd(TagNames(old(tags)), old(tagInput)) ==> tags == old(tags) && tagInput == old(tagInput)
      ensures isEditing == old(isEditing) && title == old(title) && description == old(description)
      ensures files == old(files) && isUploading == old(isUploading)
    {
      if CanAdd(TagNames(tags), tagInput) {
        var newTag := TempTag(Trim(tagInput), now);
        tags := tags + [newTag];
        tagInput := "";
        assert TagNames(tags) == TagNames(old(tags)) + [newTag.name];
      }
    }

    /** `handleRemoveTag`: drop every tag with that name. */
    method HandleRemoveTag(tagToRemove: string)
      modifies this
      ensures todo == old(todo)
      ensures tags == WithoutTagName(old(tags), tagToRemove)
      ensures TagNames(tags) == RemoveAll(TagNames(old(tags)), tagToRemove)
      ensures isEditing == old(isEditing) && title == old(title) && description == old(description)
      ensures files == old(files) && tagInput == old(tagInput) && isUploading == old(isUploading)
    {
      WithoutTagNameNames(tags, tagToRemove);
      tags := WithoutTagName(tags, tagToRemove);
    }

    /**
     * `handleFileUpload`: `results[i]` is what `onUploadFile` answered for the
     * i-th selected file. With no selection nothing happens; otherwise the
     * files uploaded are appended in selection order and the panel leaves
     * the uploading state.
     */
    method HandleFileUpload(results: seq<Option<TodoFile>>)
      modifies this
      ensures todo == old(todo)
      ensures results == [] ==> unchanged(this)
      ensures results != [] ==> files == old(files) + Uploaded(results) && !isUploading
      ensures isEditing == old(isEditing) && title == old(title) && description == old(description)
      ensures tags == old(tags) && tagInput == old(tagInput)
    {
      if |results| == 0 {
        return;
      }
      isUploading := true;
      var uploadedFiles: seq<TodoFile> := [];
      var i := 0;
      while i < |results|
        invariant 0 <= i <= |results|
        invariant uploadedFiles == Uploaded(results[..i])
      {
        assert results[..i + 1][..i] == results[..i];
        if results[i].Some? {
          uploadedFiles := uploadedFiles + [results[i].value];
        }
        i := i + 1;
      }
      assert results[..i] == results;
      files := files + uploadedFiles;
      isUploading := false;
    }

    /** `handleDeleteFile`: the file leaves the list only when `onDeleteFile` answered true. */
    method HandleDeleteFile(fileId: string, success: bool)
      modifies this
      ensures todo == old(todo)
      ensures success ==> files == Home.WithoutFile(old(files), fileId)
      ensures !success ==> files == old(files)
      ensures isEditing == old(isEditing) && title == old(title) && description == old(description)
      ensures tags == old(tags) && tagInput == old(tagInput) && isUploading == old(isUploading)
    {
      if success {
        files := Home.WithoutFile(files, fileId);
      }
    }

    /**
     * A re-render of the open panel with a new `todo` prop: the state
     * fields keep their values, as `useState` ignores a later initial value.
     */
    method ReceiveTodo(t: Todo)
      modifies this
      ensures todo == t
      ensures isEditing == old(isEditing) && title == old(title) && description == old(description)
      ensures files == old(files) && tags == old(tags) && tagInput == old(tagInput)
      ensures isUploading == old(isUploading)
    {
      todo := t;
    }

    /** The Cancel button: back to the current todo, out of edit mode; files and tag input are kept. */
    method Cancel()
      modifies this
      ensures todo == old(todo)
      ensures ShowsTodo()
      ensures files == old(files) && tagInput == old(tagInput) && isUploading == old(isUploading)
    {
      isEditing := false;
      title := todo.title;
      description := todo.description.GetOr("");
      tags := todo.tags.GetOr([]);
    }
  }

  /**
   * The panel opened on `shownFirst` receives `saved` after an edit is saved;
   * editing the title again and pressing Cancel shows the saved todo.
   */
  method CancelAfterSave(shownFirst: Todo, saved: Todo, typed: string) returns (title: string, tags: seq<Tag>)
    ensures title == saved.title && tags == saved.tags.GetOr([])
  {
    var panel := new DetailsState(shownFirst);
    panel.ReceiveTodo(saved);
    panel.StartEditing();
    panel.title := typed;
    panel.Cancel();
    title, tags := panel.title, panel.tags;
  }

  // ---- where a stored file is reached ----

  /** The last `/`-segment of `prefix/name` is `name` when `name` has no `/`. */
  lemma LastSegmentAfterSlash(prefix: string, name: string)
    requires '/' !in name
    ensures LastSegment(prefix + "/" + name, '/') == name
  {
    var s := prefix + "/" + name;
    var t := LastSegment(s, '/');
    LastSegmentSpec(s, '/');
    assert s[|s| - |name| - 1] == '/';
    assert s[|s| - |name|..] == name;
  }

  /**
   * The link built from the storage path of a file stored directly in the
   * upload directory is the url the save answered for it.
   */
  lemma StoredFileUrlIsSavedUrl(dir: string, file: TodoFile)
    requires IsDirectChild(dir, file.path)
    ensures StoredFileUrl(file) == UploadUrl + "/" + file.path[|dir| + 1..]
  {
    var rest := file.path[|dir| + 1..];
    assert file.path == file.path[..|dir|] + "/" + rest;
    LastSegmentAfterSlash(file.path[..|dir|], rest);
  }

  /**
   * The link is built from the file name, not from the stored name: for a
   * name without '/' it is "/uploads/" and the name, and it is the stored
   * file's url exactly when the name already is `<uuid>.<ext>`.
   */
  lemma FileUrlMissesStoredFile(uuid: string, ext: string, file: TodoFile)
    requires '/' !in file.filename
    ensures FileUrl(file) == "/uploads/" + file.filename
    ensures FileUrl(file) == PublicUrl(StoredName(uuid, ext)) <==> file.filename == StoredName(uuid, ext)
  {
    LastSegmentOfFree(file.filename, '/');
    assert PublicUrl(StoredName(uuid, ext)) == "/uploads/" + StoredName(uuid, ext);
    if FileUrl(file) == PublicUrl(StoredName(uuid, ext)) {
      assert FileUrl(file)[9..] == file.filename;
    }
  }

  /** A file uploaded as "report.pdf" gets the link "/uploads/report.pdf", which no stored name has. */
  lemma ReportPdfLinkMissed(uuid: string, ext: string, file: TodoFile)
    requires IsUuid(uuid) && file.filename == "report.pdf"
    ensures FileUrl(file) == "/uploads/report.pdf"
    ensures FileUrl(file) != PublicUrl(StoredName(uuid, ext))
  {
    assert '/' !in "report.pdf";
    FileUrlMissesStoredFile(uuid, ext, file);
    assert |StoredName(uuid, ext)| == 37 + |ext|;
  }
}
