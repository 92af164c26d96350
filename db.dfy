/**
 * The database the route handlers talk to, held in memory: the todo, tag,
 * todo-tag join and todo-file tables as sequences of rows in insertion
 * order, with ids drawn from one counter. A row's public id is the decimal
 * rendering of its number; the views build the `Todo`, `Tag` and
 * `TodoFile` records the handlers return.
 */
module Db {
  import opened Types
  import opened Text

  datatype TodoRow = TodoRow(
    id: nat,
    title: string,
    description: Option<string>,
    completed: bool,
    createdAt: nat,
    updatedAt: nat)

  datatype TagRow = TagRow(id: nat, name: string, createdAt: nat, updatedAt: nat)

  /** A join row connecting a todo to a tag. */
  datatype TodoTagRow = TodoTagRow(todoId: nat, tagId: nat)

  datatype FileRow = FileRow(
    id: nat,
    filename: string,
    path: string,
    mimetype: string,
    size: nat,
    todoId: nat,
    createdAt: nat,
    updatedAt: nat)

  /** The public id of row number `n`. */
  function IdFor(n: nat): string {
    Decimal(n)
  }

  // ---- lookups ----

  /** The first todo row with public id `id`: `findUnique({ where: { id } })`. */
  function FindTodo(todos: seq<TodoRow>, id: string): (r: Option<TodoRow>)
    ensures r.Some? ==> r.value in todos && IdFor(r.value.id) == id
    ensures r.None? ==> forall i :: 0 <= i < |todos| ==> IdFor(todos[i].id) != id
  {
    if todos == [] then None
    else if IdFor(todos[0].id) == id then Some(todos[0])
    else FindTodo(todos[1..], id)
  }

  /** The first tag row named `name`. */
  function FindTagByName(tags: seq<TagRow>, name: string): (r: Option<TagRow>)
    ensures r.Some? ==> r.value in tags && r.value.name == name
    ensures r.None? ==> forall i :: 0 <= i < |tags| ==> tags[i].name != name
  {
    if tags == [] then None
    else if tags[0].name == name then Some(tags[0])
    else FindTagByName(tags[1..], name)
  }

  /** The first tag row with number `id`. */
  function FindTag(tags: seq<TagRow>, id: nat): (r: Option<TagRow>)
    ensures r.Some? ==> r.value in tags && r.value.id == id
    ensures r.None? ==> forall i :: 0 <= i < |tags| ==> tags[i].id != id
  {
    if tags == [] then None
    else if tags[0].id == id then Some(tags[0])
    else FindTag(tags[1..], id)
  }

  // ---- views ----

  function TagView(t: TagRow): Tag {
    Tag(IdFor(t.id), t.name, t.createdAt, t.updatedAt)
  }

  function FileView(f: FileRow): TodoFile {
    TodoFile(IdFor(f.id), f.filename, f.path, f.mimetype, f.size, IdFor(f.todoId), f.createdAt, f.updatedAt)
  }

  /**
   * `todo.tags.map(todoTag => todoTag.tag)`: the tags of the join rows of
   * todo `todoId`, in join-row order.
   */
  function LinkedTags(links: seq<TodoTagRow>, tags: seq<TagRow>, todoId: nat): (r: seq<Tag>)
    ensures |r| <= |links|
    ensures forall t :: t in r ==> exists row :: row in tags && TagView(row) == t
  {
    if links == [] then []
    else
      var rest := LinkedTags(links[1..], tags, todoId);
      if links[0].todoId == todoId && FindTag(tags, links[0].tagId).Some?
      then [TagView(FindTag(tags, links[0].tagId).value)] + rest
      else rest
  }

  /** `include: { files: true }`: the file rows of todo `todoId`, in insertion order. */
  function FilesOf(files: seq<FileRow>, todoId: nat): (r: seq<TodoFile>)
    ensures |r| <= |files|
    ensures forall i :: 0 <= i < |r| ==> r[i].todoId == IdFor(todoId)
  {
    if files == [] then []
    else
      var rest := FilesOf(files[1..], todoId);
      if files[0].todoId == todoId then [FileView(files[0])] + rest else rest
  }

  /** A todo row with its files and its flattened tags. */
  function TodoView(row: TodoRow, tags: seq<TagRow>, links: seq<TodoTagRow>, files: seq<FileRow>): Todo {
    Todo(IdFor(row.id), row.title, row.description, row.completed, row.createdAt, row.updatedAt,
         Some(FilesOf(files, row.id)), Some(LinkedTags(links, tags, row.id)))
  }

  // ---- facts about the views ----

  /** Join rows of other todos do not change a todo's tags. */
  lemma {:induction false} LinkedTagsAppendOther(links: seq<TodoTagRow>, more: seq<TodoTagRow>, tags: seq<TagRow>, todoId: nat)
    requires forall k :: 0 <= k < |more| ==> more[k].todoId != todoId
    ensures LinkedTags(links + more, tags, todoId) == LinkedTags(links, tags, todoId)
  {
    if links == [] {
      assert links + more == more;
      LinkedTagsOther(more, tags, todoId);
    } else {
      assert (links + more)[1..] == links[1..] + more;
      LinkedTagsAppendOther(links[1..], more, tags, todoId);
    }
  }

  lemma {:induction false} LinkedTagsOther(links: seq<TodoTagRow>, tags: seq<TagRow>, todoId: nat)
    requires forall k :: 0 <= k < |links| ==> links[k].todoId != todoId
    ensures LinkedTags(links, tags, todoId) == []
  {
    if links != [] {
      LinkedTagsOther(links[1..], tags, todoId);
    }
  }

  /** The tags of a todo whose join rows all come after the others. */
  lemma {:induction false} LinkedTagsAppendOwn(links: seq<TodoTagRow>, more: seq<TodoTagRow>, tags: seq<TagRow>, todoId: nat)
    requires forall k :: 0 <= k < |links| ==> links[k].todoId != todoId
    ensures LinkedTags(links + more, tags, todoId) == LinkedTags(more, tags, todoId)
  {
    if links == [] {
      assert links + more == more;
    } else {
      assert (links + more)[1..] == links[1..] + more;
      LinkedTagsAppendOwn(links[1..], more, tags, todoId);
    }
  }

  /** Adding tag rows keeps the tags a join row resolves to, when numbers stay unique. */
  lemma FindTagAppend(tags: seq<TagRow>, t: TagRow, id: nat)
    requires FindTag(tags, id).Some?
    ensures FindTag(tags + [t], id) == FindTag(tags, id)
  {
    if tags[0].id != id {
      assert (tags + [t])[1..] == tags[1..] + [t];
      FindTagAppend(tags[1..], t, id);
    }
  }

  lemma {:induction false} LinkedTagsGrowTags(links: seq<TodoTagRow>, tags: seq<TagRow>, t: TagRow, todoId: nat)
    requires forall k :: 0 <= k < |links| ==> FindTag(tags, links[k].tagId).Some?
    ensures LinkedTags(links, tags + [t], todoId) == LinkedTags(links, tags, todoId)
  {
    if links != [] {
      FindTagAppend(tags, t, links[0].tagId);
      LinkedTagsGrowTags(links[1..], tags, t, todoId);
    }
  }

  /** File rows of other todos do not change a todo's files. */
  lemma {:induction false} FilesOfAppendOther(files: seq<FileRow>, f: FileRow, todoId: nat)
    requires f.todoId != todoId
    ensures FilesOf(files + [f], todoId) == FilesOf(files, todoId)
  {
    if files == [] {
      assert files + [f] == [f];
    } else {
      assert (files + [f])[1..] == files[1..] + [f];
      FilesOfAppendOther(files[1..], f, todoId);
    }
  }

  /** A todo's new file row comes last among its files. */
  lemma {:induction false} FilesOfAppendOwn(files: seq<FileRow>, f: FileRow)
    ensures FilesOf(files + [f], f.todoId) == FilesOf(files, f.todoId) + [FileView(f)]
  {
    if files == [] {
      assert files + [f] == [f];
    } else {
      assert (files + [f])[1..] == files[1..] + [f];
      FilesOfAppendOwn(files[1..], f);
    }
  }

  /** Todos that have no file rows have no files. */
  lemma {:induction false} FilesOfNone(files: seq<FileRow>, todoId: nat)
    requires forall k :: 0 <= k < |files| ==> files[k].todoId != todoId
    ensures FilesOf(files, todoId) == []
  {
    if files != [] {
      FilesOfNone(files[1..], todoId);
    }
  }

  /** The tag-table facts the store keeps: numbers below `nextId`, numbers and names unique, join rows resolve. */
  predicate TagTableValid(tags: seq<TagRow>, links: seq<TodoTagRow>, nextId: nat) {
    && (forall i :: 0 <= i < |tags| ==> tags[i].id < nextId)
    && (forall i, j :: 0 <= i < j < |tags| ==> tags[i].id != tags[j].id && tags[i].name != tags[j].name)
    && (forall k :: 0 <= k < |links| ==> FindTag(tags, links[k].tagId).Some?)
  }

  /** A tag with the next number and a new name keeps the table valid and every todo's tags. */
  lemma AppendFreshTag(tags: seq<TagRow>, links: seq<TodoTagRow>, nextId: nat, t: TagRow)
    requires TagTableValid(tags, links, nextId)
    requires t.id == nextId && FindTagByName(tags, t.name).None?
    ensures TagTableValid(tags + [t], links, nextId + 1)
    ensures FindTag(tags + [t], t.id) == Some(t)
    ensures forall k :: 0 <= k < |links| ==> LinkedTags(links, tags + [t], links[k].todoId) == LinkedTags(links, tags, links[k].todoId)
  {
    FreshTagDistinct(tags, nextId, t);
    forall k | 0 <= k < |links| ensures FindTag(tags + [t], links[k].tagId).Some? {
      FindTagAppend(tags, t, links[k].tagId);
    }
    forall k | 0 <= k < |links| ensures LinkedTags(links, tags + [t], links[k].todoId) == LinkedTags(links, tags, links[k].todoId) {
      LinkedTagsGrowTags(links, tags, t, links[k].todoId);
    }
    FindTagFresh(tags, t);
  }

  /** Numbers stay below the counter and numbers and names stay distinct after a fresh tag. */
  lemma FreshTagDistinct(tags: seq<TagRow>, nextId: nat, t: TagRow)
    requires forall i :: 0 <= i < |tags| ==> tags[i].id < nextId
    requires forall i, j :: 0 <= i < j < |tags| ==> tags[i].id != tags[j].id && tags[i].name != tags[j].name
    requires t.id == nextId && FindTagByName(tags, t.name).None?
    ensures var r := tags + [t]; forall i :: 0 <= i < |r| ==> r[i].id < nextId + 1
    ensures var r := tags + [t]; forall i, j :: 0 <= i < j < |r| ==> r[i].id != r[j].id && r[i].name != r[j].name
  {
    var r := tags + [t];
    forall i, j | 0 <= i < j < |r| ensures r[i].id != r[j].id && r[i].name != r[j].name {
      if j == |tags| {
        assert r[i] == tags[i];
      } else {
        assert r[i] == tags[i] && r[j] == tags[j];
      }
    }
  }

  // ---- the store ----

  /**
   * The four tables. Row numbers come from `nextId`; tag names are unique
   * (the upsert looks tags up by name); join and file rows point at
   * existing rows.
   */
  class Database {
    var todos: seq<TodoRow>
    var tags: seq<TagRow>
    var links: seq<TodoTagRow>
    var files: seq<FileRow>
    var nextId: nat

    predicate Valid()
      reads this
    {
      && (forall i :: 0 <= i < |todos| ==> todos[i].id < nextId)
      && (forall i :: 0 <= i < |tags| ==> tags[i].id < nextId)
      && (forall i :: 0 <= i < |files| ==> files[i].id < nextId)
      && (forall i, j :: 0 <= i < j < |todos| ==> todos[i].id != todos[j].id)
      && (forall i, j :: 0 <= i < j < |tags| ==> tags[i].id != tags[j].id && tags[i].name != tags[j].name)
      && (forall i, j :: 0 <= i < j < |files| ==> files[i].id != files[j].id)
      && (forall k :: 0 <= k < |links| ==> links[k].todoId < nextId && FindTag(tags, links[k].tagId).Some?)
      && (forall k :: 0 <= k < |files| ==> files[k].todoId < nextId)
    }

    constructor()
      ensures Valid()
      ensures todos == [] && tags == [] && links == [] && files == []
    {
      todos, tags, links, files, nextId := [], [], [], [], 0;
    }

    /** The public record of a todo row, with its files and tags. */
    function View(row: TodoRow): Todo
      reads this
    {
      TodoView(row, tags, links, files)
    }

    /**
     * `prisma.tag.upsert({ where: { name }, update: {}, create: { name } })`:
     * the tag named `name` unchanged if there is one, otherwise a new tag.
     */
    method UpsertTag(name: string, now: nat) returns (tag: TagRow)
      requires Valid()
      modifies this
      ensures Valid()
      ensures tag.name == name && tag in tags
      ensures FindTagByName(old(tags), name).Some? ==> tag == FindTagByName(old(tags), name).value && tags == old(tags)
      ensures FindTagByName(old(tags), name).None? ==>
        tag == TagRow(old(nextId), name, now, now) && tags == old(tags) + [tag]
      ensures FindTag(tags, tag.id) == Some(tag)
      ensures todos == old(todos) && links == old(links) && files == old(files)
      ensures nextId >= old(nextId)
      ensures forall k :: 0 <= k < |links| ==> LinkedTags(links, tags, links[k].todoId) == LinkedTags(links, old(tags), links[k].todoId)
    {
      var found := FindTagByName(tags, name);
      if found.Some? {
        tag := found.value;
        FindTagUnique(tags, tag);
        return;
      }
      tag := TagRow(nextId, name, now, now);
      AppendFreshTag(tags, links, nextId, tag);
      tags := tags + [tag];
      nextId := nextId + 1;
    }

    /**
     * `prisma.todo.create` with nested join rows: a new todo row and one
     * join row per tag number, in order.
     */
    method CreateTodo(title: string, description: Option<string>, tagIds: seq<nat>, now: nat)
      returns (row: TodoRow)
      requires Valid()
      requires forall k :: 0 <= k < |tagIds| ==> FindTag(tags, tagIds[k]).Some?
      modifies this
      ensures Valid()
      ensures row == TodoRow(old(nextId), title, description, false, now, now)
      ensures todos == old(todos) + [row]
      ensures links == old(links) + JoinRows(row.id, tagIds)
      ensures tags == old(tags) && files == old(files)
      ensures nextId == old(nextId) + 1
    {
      row := TodoRow(nextId, title, description, false, now, now);
      todos := todos + [row];
      links := links + JoinRows(row.id, tagIds);
      nextId := nextId + 1;
    }

    /** `prisma.todoFile.create`: a new file row of todo `todoId`. */
    method CreateTodoFile(filename: string, path: string, mimetype: string, size: nat, todoId: nat, now: nat)
      returns (row: FileRow)
      requires Valid() && todoId < nextId
      modifies this
      ensures Valid()
      ensures row == FileRow(old(nextId), filename, path, mimetype, size, todoId, now, now)
      ensures files == old(files) + [row]
      ensures todos == old(todos) && tags == old(tags) && links == old(links)
      ensures nextId == old(nextId) + 1
    {
      row := FileRow(nextId, filename, path, mimetype, size, todoId, now, now);
      files := files + [row];
      nextId := nextId + 1;
    }
  }

  /** The join rows connecting todo `todoId` to each tag number, in order. */
  function JoinRows(todoId: nat, tagIds: seq<nat>): (r: seq<TodoTagRow>)
    ensures |r| == |tagIds|
    ensures forall k :: 0 <= k < |r| ==> r[k] == TodoTagRow(todoId, tagIds[k])
  {
    if tagIds == [] then [] else [TodoTagRow(todoId, tagIds[0])] + JoinRows(todoId, tagIds[1..])
  }

  /** With unique tag numbers, the lookup by number finds each row. */
  lemma FindTagUnique(tags: seq<TagRow>, t: TagRow)
    requires t in tags
    requires forall i, j :: 0 <= i < j < |tags| ==> tags[i].id != tags[j].id
    ensures FindTag(tags, t.id) == Some(t)
  {
    if tags[0] != t {
      assert t in tags[1..];
      FindTagUnique(tags[1..], t);
    }
  }

  /** With unique tag names, the lookup by name finds each row. */
  lemma {:induction false} FindTagByNameUnique(tags: seq<TagRow>, t: TagRow)
    requires t in tags
    requires forall i, j :: 0 <= i < j < |tags| ==> tags[i].name != tags[j].name
    ensures FindTagByName(tags, t.name) == Some(t)
  {
    if tags[0] != t {
      assert t in tags[1..];
      FindTagByNameUnique(tags[1..], t);
    }
  }

  lemma FindTagFresh(tags: seq<TagRow>, t: TagRow)
    requires forall i :: 0 <= i < |tags| ==> tags[i].id < t.id
    ensures FindTag(tags + [t], t.id) == Some(t)
  {
    if tags == [] {
      assert tags + [t] == [t];
    } else {
      assert (tags + [t])[1..] == tags[1..] + [t];
      FindTagFresh(tags[1..], t);
    }
  }

  /** The tags of a todo's own join rows, when every tag number resolves. */
  lemma {:induction false} LinkedTagsOfJoinRows(todoId: nat, tagIds: seq<nat>, tags: seq<TagRow>)
    requires forall k :: 0 <= k < |tagIds| ==> FindTag(tags, tagIds[k]).Some?
    ensures var r := LinkedTags(JoinRows(todoId, tagIds), tags, todoId);
      && |r| == |tagIds|
      && forall k :: 0 <= k < |r| ==> r[k] == TagView(FindTag(tags, tagIds[k]).value)
  {
    if tagIds != [] {
      LinkedTagsOfJoinRows(todoId, tagIds[1..], tags);
      assert JoinRows(todoId, tagIds)[1..] == JoinRows(todoId, tagIds[1..]);
    }
  }
}
