/**
 * The `/api/todos` route: `POST` validates the title, finds or creates a
 * tag for every non-blank entry of `tags` and creates the todo with its
 * join rows; `GET` lists the todos, optionally only those carrying a tag of
 * a given name, newest first, with their tags flattened.
 */
module TodosRoute {
  import opened Types
  import opened Text
  import opened Db

  // ---- POST ----

  /** The names `POST` connects: `tagName.trim()` of every non-blank entry, in order. */
  function TagRequests(names: seq<string>): (r: seq<string>)
    ensures |r| <= |names|
  {
    if names == [] then []
    else
      var last := names[|names| - 1];
      TagRequests(names[..|names| - 1]) + EntryRequest(last)
  }

  /** Every requested name is trimmed and not empty. */
  lemma {:induction false} TagRequestsClean(names: seq<string>)
    ensures forall k :: 0 <= k < |TagRequests(names)| ==> TagRequests(names)[k] != "" && IsTrimmed(TagRequests(names)[k])
  {
    if names != [] {
      TagRequestsClean(names[..|names| - 1]);
    }
  }

  /** What one entry of `tags` asks for: its trimmed name, or nothing when it is blank. */
  function EntryRequest(entry: string): seq<string> {
    if IsBlank(entry) then [] else [Trim(entry)]
  }

  /** Entry `entry` asks for the tag `n`. */
  predicate Asks(entry: string, n: string) {
    n in EntryRequest(entry)
  }

  lemma TagRequestsLast(names: seq<string>, n: string)
    requires names != []
    ensures n in TagRequests(names) <==>
      n in TagRequests(names[..|names| - 1]) || Asks(names[|names| - 1], n)
  {
  }

  /** Some entry of `names` asks for `n`. */
  predicate AskedBy(names: seq<string>, n: string) {
    exists entry :: entry in names && Asks(entry, n)
  }

  lemma AskedByLast(names: seq<string>, n: string)
    requires names != []
    ensures AskedBy(names, n) <==> AskedBy(names[..|names| - 1], n) || Asks(names[|names| - 1], n)
  {
    var init, last := names[..|names| - 1], names[|names| - 1];
    assert names == init + [last];
    if AskedBy(names, n) {
      var entry :| entry in names && Asks(entry, n);
      assert entry in init || entry == last;
    }
  }

  /** A name is requested exactly when some non-blank entry trims to it. */
  lemma {:induction false} TagRequestsMembership(names: seq<string>, n: string)
    ensures n in TagRequests(names) <==> AskedBy(names, n)
  {
    if names != [] {
      TagRequestsMembership(names[..|names| - 1], n);
      TagRequestsLast(names, n);
      AskedByLast(names, n);
    }
  }

  /** Blank entries contribute nothing: a list of blanks requests no tag. */
  lemma {:induction false} TagRequestsOfBlanks(names: seq<string>)
    requires forall i :: 0 <= i < |names| ==> IsBlank(names[i])
    ensures TagRequests(names) == []
  {
    if names != [] {
      TagRequestsOfBlanks(names[..|names| - 1]);
    }
  }

  /** An earlier match by name survives appending rows. */
  lemma {:induction false} FindTagByNamePrefix(a: seq<TagRow>, b: seq<TagRow>, name: string)
    requires FindTagByName(a, name).Some?
    ensures FindTagByName(a + b, name) == FindTagByName(a, name)
  {
    if a[0].name != name {
      assert (a + b)[1..] == a[1..] + b;
      FindTagByNamePrefix(a[1..], b, name);
    }
  }

  /**
   * `ids` connects the names `req` in the tag table `tags`: the k-th number
   * is a tag named `req[k]`, and the tag already named so in `origin` when
   * there was one.
   */
  predicate Connects(tags: seq<TagRow>, ids: seq<nat>, req: seq<string>, origin: seq<TagRow>) {
    && |ids| == |req|
    && (forall k :: 0 <= k < |ids| ==> FindTag(tags, ids[k]).Some? && FindTag(tags, ids[k]).value.name == req[k])
    && (forall k :: 0 <= k < |ids| && FindTagByName(origin, req[k]).Some? ==>
          FindTag(tags, ids[k]) == FindTagByName(origin, req[k]))
  }

  /** Tags that resolve keep resolving to the same row. */
  ghost predicate KeepsTags(before: seq<TagRow>, after: seq<TagRow>) {
    forall id :: FindTag(before, id).Some? ==> FindTag(after, id) == FindTag(before, id)
  }

  /** Every row appended to `origin` carries a requested name that `origin` lacked. */
  predicate AddsOnlyMissing(origin: seq<TagRow>, tags: seq<TagRow>, req: seq<string>) {
    forall j :: |origin| <= j < |tags| ==> tags[j].name in req && FindTagByName(origin, tags[j].name).None?
  }

  /** The rows added over two steps are added names of either step. */
  lemma AddsOnlyMissingStep(origin: seq<TagRow>, before: seq<TagRow>, after: seq<TagRow>,
                            req: seq<string>, moreReq: seq<string>)
    requires origin <= before <= after
    requires AddsOnlyMissing(origin, before, req)
    requires AddsOnlyMissing(before, after, moreReq)
    ensures AddsOnlyMissing(origin, after, req + moreReq)
  {
    forall j | |origin| <= j < |after|
      ensures after[j].name in req + moreReq && FindTagByName(origin, after[j].name).None?
    {
      if j < |before| {
        assert after[j] == before[j];
      } else {
        MissingFromPrefix(origin, before, after[j].name);
      }
    }
  }

  /** A name missing from a list is missing from its prefixes. */
  lemma MissingFromPrefix(a: seq<TagRow>, b: seq<TagRow>, name: string)
    requires a <= b && FindTagByName(b, name).None?
    ensures FindTagByName(a, name).None?
  {
    assert forall i :: 0 <= i < |a| ==> a[i] == b[i];
  }

  /** Every connected name that `origin` lacked has a row among the added ones. */
  lemma ConnectsCoversMissing(origin: seq<TagRow>, tags: seq<TagRow>, ids: seq<nat>, req: seq<string>, n: string)
    requires origin <= tags && Connects(tags, ids, req, origin)
    requires n in req && FindTagByName(origin, n).None?
    ensures exists j :: |origin| <= j < |tags| && tags[j].name == n
  {
    var k :| 0 <= k < |req| && req[k] == n;
    var t := FindTag(tags, ids[k]).value;
    var j :| 0 <= j < |tags| && tags[j] == t;
    assert forall i :: 0 <= i < |origin| ==> tags[i] == origin[i];
  }

  /**
   * One step of the loop of `POST`: a blank entry is skipped; otherwise its
   * trimmed name is upserted and the tag's number is to be connected.
   */
  method ConnectEntry(db: Database, entry: string, now: nat) returns (ids: seq<nat>)
    requires db.Valid()
    modifies db
    ensures db.Valid()
    ensures old(db.tags) <= db.tags && KeepsTags(old(db.tags), db.tags)
    ensures db.todos == old(db.todos) && db.links == old(db.links) && db.files == old(db.files)
    ensures db.nextId >= old(db.nextId)
    ensures Connects(db.tags, ids, EntryRequest(entry), old(db.tags))
    ensures AddsOnlyMissing(old(db.tags), db.tags, EntryRequest(entry))
  {
    if IsBlank(entry) {
      return [];
    }
    var tag := db.UpsertTag(Trim(entry), now);
    if db.tags != old(db.tags) {
      AppendKeepsTags(old(db.tags), tag);
    }
    UpsertConnects(old(db.tags), db.tags, tag, Trim(entry));
    UpsertAddsOnlyMissing(old(db.tags), db.tags, tag, entry);
    ids := [tag.id];
  }

  /** An upsert of a non-blank entry adds at most the row of its trimmed name, when that name was missing. */
  lemma UpsertAddsOnlyMissing(before: seq<TagRow>, after: seq<TagRow>, tag: TagRow, entry: string)
    requires !IsBlank(entry) && tag.name == Trim(entry)
    requires FindTagByName(before, tag.name).Some? ==> after == before
    requires FindTagByName(before, tag.name).None? ==> after == before + [tag]
    ensures AddsOnlyMissing(before, after, EntryRequest(entry))
  {
  }

  /** Appending a tag row keeps every tag that resolved. */
  lemma AppendKeepsTags(before: seq<TagRow>, t: TagRow)
    ensures KeepsTags(before, before + [t])
  {
    forall id | FindTag(before, id).Some? ensures FindTag(before + [t], id) == FindTag(before, id) {
      FindTagAppend(before, t, id);
    }
  }

  /** The upserted tag connects its name, and is the existing tag of that name when there was one. */
  lemma UpsertConnects(before: seq<TagRow>, after: seq<TagRow>, tag: TagRow, name: string)
    requires tag.name == name && FindTag(after, tag.id) == Some(tag)
    requires FindTagByName(before, name).Some? ==> tag == FindTagByName(before, name).value
    ensures Connects(after, [tag.id], [name], before)
  {
  }

  /** A match in a prefix is the match in the whole list. */
  lemma FindTagByNameInPrefix(a: seq<TagRow>, b: seq<TagRow>, name: string)
    requires a <= b && FindTagByName(a, name).Some?
    ensures FindTagByName(b, name) == FindTagByName(a, name)
  {
    assert a + b[|a|..] == b;
    FindTagByNamePrefix(a, b[|a|..], name);
  }

  /** Connections made before a step and in it, together. */
  lemma ConnectsAppend(origin: seq<TagRow>, before: seq<TagRow>, after: seq<TagRow>,
                       ids: seq<nat>, req: seq<string>, more: seq<nat>, moreReq: seq<string>)
    requires origin <= before
    requires Connects(before, ids, req, origin)
    requires KeepsTags(before, after)
    requires Connects(after, more, moreReq, before)
    ensures Connects(after, ids + more, req + moreReq, origin)
  {
    var all := ids + more;
    var allReq := req + moreReq;
    forall k | 0 <= k < |all|
      ensures FindTag(after, all[k]).Some? && FindTag(after, all[k]).value.name == allReq[k]
      ensures FindTagByName(origin, allReq[k]).Some? ==> FindTag(after, all[k]) == FindTagByName(origin, allReq[k])
    {
      if k < |ids| {
        assert all[k] == ids[k] && allReq[k] == req[k];
      } else {
        var j := k - |ids|;
        assert all[k] == more[j] && allReq[k] == moreReq[j];
        if FindTagByName(origin, moreReq[j]).Some? {
          FindTagByNameInPrefix(origin, before, moreReq[j]);
        }
      }
    }
  }

  /**
   * The loop of `POST` over `body.tags`: upserts the trimmed name of every
   * non-blank entry, in order, and collects the tag numbers to connect.
   */
  method UpsertRequested(db: Database, names: seq<string>, now: nat) returns (tagIds: seq<nat>)
    requires db.Valid()
    modifies db
    ensures db.Valid()
    ensures old(db.tags) <= db.tags
    ensures db.todos == old(db.todos) && db.links == old(db.links) && db.files == old(db.files)
    ensures db.nextId >= old(db.nextId)
    ensures Connects(db.tags, tagIds, TagRequests(names), old(db.tags))
    ensures AddsOnlyMissing(old(db.tags), db.tags, TagRequests(names))
    ensures forall n :: n in TagRequests(names) && FindTagByName(old(db.tags), n).None? ==>
      exists j :: |old(db.tags)| <= j < |db.tags| && db.tags[j].name == n
  {
    tagIds := [];
    var i := 0;
    while i < |names|
      invariant 0 <= i <= |names|
      invariant db.Valid()
      invariant old(db.tags) <= db.tags
      invariant db.todos == old(db.todos) && db.links == old(db.links) && db.files == old(db.files)
      invariant db.nextId >= old(db.nextId)
      invariant Connects(db.tags, tagIds, TagRequests(names[..i]), old(db.tags))
      invariant AddsOnlyMissing(old(db.tags), db.tags, TagRequests(names[..i]))
    {
      assert names[..i + 1][..i] == names[..i];
      assert TagRequests(names[..i + 1]) == TagRequests(names[..i]) + EntryRequest(names[i]);
      ghost var before := db.tags;
      var ids := ConnectEntry(db, names[i], now);
      ConnectsAppend(old(db.tags), before, db.tags, tagIds, TagRequests(names[..i]), ids, EntryRequest(names[i]));
      AddsOnlyMissingStep(old(db.tags), before, db.tags, TagRequests(names[..i]), EntryRequest(names[i]));
      tagIds := tagIds + ids;
      i := i + 1;
    }
    assert names[..i] == names;
    forall n | n in TagRequests(names) && FindTagByName(old(db.tags), n).None?
      ensures exists j :: |old(db.tags)| <= j < |db.tags| && db.tags[j].name == n
    {
      ConnectsCoversMissing(old(db.tags), db.tags, tagIds, TagRequests(names), n);
    }
  }

  /** The view of a todo created after all other rows: no files, and the tags of its join rows. */
  lemma NewTodoView(row: TodoRow, tags: seq<TagRow>, links: seq<TodoTagRow>, files: seq<FileRow>,
                    tagIds: seq<nat>, requested: seq<string>, origin: seq<TagRow>)
    requires forall k :: 0 <= k < |links| ==> links[k].todoId < row.id
    requires forall k :: 0 <= k < |files| ==> files[k].todoId < row.id
    requires Connects(tags, tagIds, requested, origin)
    ensures var v := TodoView(row, tags, links + JoinRows(row.id, tagIds), files);
      && v.files == Some([]) && v.tags.Some? && TagNames(v.tags.value) == requested
      && forall k :: 0 <= k < |requested| && FindTagByName(origin, requested[k]).Some? ==>
           v.tags.value[k] == TagView(FindTagByName(origin, requested[k]).value)
  {
    LinkedTagsAppendOwn(links, JoinRows(row.id, tagIds), tags, row.id);
    LinkedTagsOfJoinRows(row.id, tagIds, tags);
    FilesOfNone(files, row.id);
  }

  /** Join rows appended for one todo leave the earlier rows in place. */
  lemma AppendedJoinRows(before: seq<TodoTagRow>, todoId: nat, ids: seq<nat>)
    ensures var after := before + JoinRows(todoId, ids);
      && |after| == |before| + |ids|
      && after[..|before|] == before
      && forall k :: |before| <= k < |after| ==> after[k].todoId == todoId
  {
    var after := before + JoinRows(todoId, ids);
    assert after[..|before|] == before;
  }

  /** A number above every row's number gives an id no row has. */
  lemma FreshId(todos: seq<TodoRow>, n: nat)
    requires forall i :: 0 <= i < |todos| ==> todos[i].id < n
    ensures FindTodo(todos, IdFor(n)).None?
  {
    forall i | 0 <= i < |todos| ensures IdFor(todos[i].id) != IdFor(n) {
      if IdFor(todos[i].id) == IdFor(n) {
        DecimalInjective(todos[i].id, n);
      }
    }
  }

  /**
   * `POST /api/todos` with JSON body `body` at time `now`. A blank title is
   * refused before any write; otherwise every requested name is upserted
   * in order and the todo is created with one join row per requested name.
   */
  method Post(db: Database, body: CreateTodoInput, now: nat) returns (reply: Reply<Todo>)
    requires db.Valid()
    modifies db
    ensures db.Valid()
    ensures (body.title.None? || IsBlank(body.title.value)) ==>
      reply == ErrorJson(400, "Title is required") && unchanged(db)
    ensures body.title.Some? && !IsBlank(body.title.value) ==>
      var requested := TagRequests(body.tags.GetOr([]));
      && reply.Json? && reply.status == 201
      && |db.todos| == |old(db.todos)| + 1
      && db.todos == old(db.todos) + [db.todos[|old(db.todos)|]]
      && reply.value == db.View(db.todos[|old(db.todos)|])
      && FindTodo(old(db.todos), reply.value.id).None?
      && reply.value.title == Trim(body.title.value)
      && reply.value.description == (if body.description.Some? then Some(Trim(body.description.value)) else None)
      && !reply.value.completed && reply.value.createdAt == now
      && reply.value.files == Some([])
      && reply.value.tags.Some?
      && TagNames(reply.value.tags.value) == requested
      && (forall k :: 0 <= k < |requested| && FindTagByName(old(db.tags), requested[k]).Some? ==>
            reply.value.tags.value[k] == TagView(FindTagByName(old(db.tags), requested[k]).value))
      && old(db.tags) <= db.tags
      && AddsOnlyMissing(old(db.tags), db.tags, requested)
      && (forall n :: n in requested && FindTagByName(old(db.tags), n).None? ==>
            exists j :: |old(db.tags)| <= j < |db.tags| && db.tags[j].name == n)
      && |db.links| == |old(db.links)| + |requested|
      && db.links[..|old(db.links)|] == old(db.links)
      && (forall k :: |old(db.links)| <= k < |db.links| ==> db.links[k].todoId == db.todos[|old(db.todos)|].id)
      && db.files == old(db.files)
  {
    if body.title.None? || IsBlank(body.title.value) {
      return ErrorJson(400, "Title is required");
    }
    var tagIds := UpsertRequested(db, body.tags.GetOr([]), now);
    ghost var requested := TagRequests(body.tags.GetOr([]));
    var description := if body.description.Some? then Some(Trim(body.description.value)) else None;
    ghost var linksBefore := db.links;
    ghost var tagsBefore := db.tags;
    var row := db.CreateTodo(Trim(body.title.value), description, tagIds, now);
    AppendedJoinRows(linksBefore, row.id, tagIds);
    NewTodoView(row, db.tags, linksBefore, db.files, tagIds, requested, old(db.tags));
    FreshId(old(db.todos), row.id);
    reply := Json(201, db.View(row));
  }

  // ---- GET ----

  /** `if (tagFilter)`: a present, non-empty parameter selects by tag name. */
  predicate Keep(row: TodoRow, tags: seq<TagRow>, links: seq<TodoTagRow>, tagFilter: Option<string>) {
    tagFilter.None? || tagFilter.value == "" || tagFilter.value in TagNames(LinkedTags(links, tags, row.id))
  }

  /** The rows the `where` clause selects, in table order. */
  function Selected(todos: seq<TodoRow>, tags: seq<TagRow>, links: seq<TodoTagRow>, tagFilter: Option<string>): (r: seq<TodoRow>)
    ensures |r| <= |todos|
  {
    if todos == [] then []
    else
      var rest := Selected(todos[1..], tags, links, tagFilter);
      if Keep(todos[0], tags, links, tagFilter) then [todos[0]] + rest else rest
  }

  /** Exactly the rows that pass the filter are selected, each as often as it occurs. */
  lemma {:induction false} SelectedCount(todos: seq<TodoRow>, tags: seq<TagRow>, links: seq<TodoTagRow>, tagFilter: Option<string>, row: TodoRow)
    ensures multiset(Selected(todos, tags, links, tagFilter))[row] ==
      if Keep(row, tags, links, tagFilter) then multiset(todos)[row] else 0
  {
    if todos != [] {
      SelectedCount(todos[1..], tags, links, tagFilter, row);
      assert todos == [todos[0]] + todos[1..];
    }
  }

  /** Later rows never have a later `createdAt`. */
  predicate NewestFirst(s: seq<TodoRow>) {
    forall i, j :: 0 <= i < j < |s| ==> s[i].createdAt >= s[j].createdAt
  }

  /** Places `r` before the first row that is not newer than it. */
  function InsertNewest(r: TodoRow, s: seq<TodoRow>): (t: seq<TodoRow>)
    ensures multiset(t) == multiset(s) + multiset{r}
    ensures |t| == |s| + 1
  {
    if s == [] || r.createdAt >= s[0].createdAt then [r] + s
    else
      assert s == [s[0]] + s[1..];
      [s[0]] + InsertNewest(r, s[1..])
  }

  /** Inserting keeps every row at or below a common bound. */
  lemma {:induction false} InsertNewestBound(r: TodoRow, s: seq<TodoRow>, bound: nat)
    requires r.createdAt <= bound
    requires forall k :: 0 <= k < |s| ==> s[k].createdAt <= bound
    ensures forall k :: 0 <= k < |InsertNewest(r, s)| ==> InsertNewest(r, s)[k].createdAt <= bound
  {
    if s != [] && r.createdAt < s[0].createdAt {
      InsertNewestBound(r, s[1..], bound);
    }
  }

  /** Inserting into a newest-first list keeps it newest first. */
  lemma {:induction false} InsertNewestSorted(r: TodoRow, s: seq<TodoRow>)
    requires NewestFirst(s)
    ensures NewestFirst(InsertNewest(r, s))
  {
    if s == [] {
      ConsNewestFirst(r, s);
    } else if r.createdAt >= s[0].createdAt {
      assert forall k :: 0 < k < |s| ==> s[0].createdAt >= s[k].createdAt;
      ConsNewestFirst(r, s);
    } else {
      var rest := InsertNewest(r, s[1..]);
      InsertNewestSorted(r, s[1..]);
      InsertNewestBound(r, s[1..], s[0].createdAt);
      ConsNewestFirst(s[0], rest);
    }
  }

  /** A row no older than every row of a newest-first list can go in front of it. */
  lemma ConsNewestFirst(x: TodoRow, rest: seq<TodoRow>)
    requires NewestFirst(rest)
    requires forall k :: 0 <= k < |rest| ==> rest[k].createdAt <= x.createdAt
    ensures NewestFirst([x] + rest)
  {
    var t := [x] + rest;
    forall i, j | 0 <= i < j < |t| ensures t[i].createdAt >= t[j].createdAt {
      assert t[j] == rest[j - 1];
      if i > 0 {
        assert t[i] == rest[i - 1];
      }
    }
  }

  /** `orderBy: { createdAt: 'desc' }`, stable among equal times. */
  function SortNewest(s: seq<TodoRow>): (t: seq<TodoRow>)
    ensures multiset(t) == multiset(s)
    ensures NewestFirst(t)
  {
    if s == [] then []
    else
      assert s == [s[0]] + s[1..];
      InsertNewestSorted(s[0], SortNewest(s[1..]));
      InsertNewest(s[0], SortNewest(s[1..]))
  }

  function Views(rows: seq<TodoRow>, tags: seq<TagRow>, links: seq<TodoTagRow>, files: seq<FileRow>): (r: seq<Todo>)
    ensures |r| == |rows|
    ensures forall i :: 0 <= i < |rows| ==> r[i] == TodoView(rows[i], tags, links, files)
  {
    if rows == [] then [] else [TodoView(rows[0], tags, links, files)] + Views(rows[1..], tags, links, files)
  }

  /** The rows `GET` returns, in order. */
  function ListRows(todos: seq<TodoRow>, tags: seq<TagRow>, links: seq<TodoTagRow>, tagFilter: Option<string>): seq<TodoRow> {
    SortNewest(Selected(todos, tags, links, tagFilter))
  }

  /** `GET /api/todos?tag=…`: the selected todos, newest first, with tags flattened. */
  function Get(db: Database, tagFilter: Option<string>): (reply: Reply<seq<Todo>>)
    reads db
  {
    Json(200, Views(ListRows(db.todos, db.tags, db.links, tagFilter), db.tags, db.links, db.files))
  }

  /** The listed rows are the selected rows, each as often as in the table. */
  lemma ListRowsCount(todos: seq<TodoRow>, tags: seq<TagRow>, links: seq<TodoTagRow>, tagFilter: Option<string>, row: TodoRow)
    ensures multiset(ListRows(todos, tags, links, tagFilter))[row] ==
      if Keep(row, tags, links, tagFilter) then multiset(todos)[row] else 0
  {
    SelectedCount(todos, tags, links, tagFilter, row);
  }

  /** Every listed row passes the filter. */
  lemma ListRowsKept(todos: seq<TodoRow>, tags: seq<TagRow>, links: seq<TodoTagRow>, tagFilter: Option<string>)
    ensures var rows := ListRows(todos, tags, links, tagFilter);
      forall i :: 0 <= i < |rows| ==> Keep(rows[i], tags, links, tagFilter)
  {
    var rows := ListRows(todos, tags, links, tagFilter);
    forall i | 0 <= i < |rows| ensures Keep(rows[i], tags, links, tagFilter) {
      assert rows[i] in multiset(rows);
      ListRowsCount(todos, tags, links, tagFilter, rows[i]);
    }
  }

  /** The listed rows are exactly the rows that pass the filter, each as often as in the table. */
  lemma GetSelects(db: Database, tagFilter: Option<string>, row: TodoRow)
    ensures var rows := ListRows(db.todos, db.tags, db.links, tagFilter);
      multiset(rows)[row] == if Keep(row, db.tags, db.links, tagFilter) then multiset(db.todos)[row] else 0
  {
    ListRowsCount(db.todos, db.tags, db.links, tagFilter, row);
  }

  /** `GET` lists newest first. */
  lemma GetNewestFirst(db: Database, tagFilter: Option<string>)
    ensures var reply := Get(db, tagFilter);
      forall i, j :: 0 <= i < j < |reply.value| ==> reply.value[i].createdAt >= reply.value[j].createdAt
  {
    var rows := ListRows(db.todos, db.tags, db.links, tagFilter);
    assert NewestFirst(rows);
  }

  /** Under a non-empty filter every listed todo carries a tag of that name. */
  lemma GetFiltered(db: Database, name: string)
    requires name != ""
    ensures var reply := Get(db, Some(name));
      forall i :: 0 <= i < |reply.value| ==> reply.value[i].tags.Some? && name in TagNames(reply.value[i].tags.value)
  {
    ListRowsKept(db.todos, db.tags, db.links, Some(name));
  }

  /** Without a filter, or with an empty one, every row is listed. */
  lemma GetUnfiltered(db: Database, tagFilter: Option<string>, row: TodoRow)
    requires tagFilter.None? || tagFilter.value == ""
    ensures multiset(ListRows(db.todos, db.tags, db.links, tagFilter))[row] == multiset(db.todos)[row]
  {
    ListRowsCount(db.todos, db.tags, db.links, tagFilter, row);
  }
}
