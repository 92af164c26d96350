/**
 * The home page's state: the todo list, the selected todo and the error
 * message, and the handlers that patch the list after each call to the
 * server. A call's outcome is a parameter (`Call<T>`: it succeeded with the
 * server's value, or it failed); the handlers return the request they send.
 */
module Home {
  import opened Types
  import opened Seqs
  import FilesRoute

  // ---- list patches ----

  /** `todos.find(todo => todo.id === id)`. */
  function FindById(todos: seq<Todo>, id: string): (r: Option<Todo>)
    ensures r.Some? ==> r.value.id == id && r.value in todos
    ensures r.None? <==> forall i :: 0 <= i < |todos| ==> todos[i].id != id
  {
    if todos == [] then None
    else if todos[0].id == id then Some(todos[0])
    else FindById(todos[1..], id)
  }

  /** `find` answers the first todo carrying the id. */
  lemma {:induction false} FindByIdFirst(todos: seq<Todo>, id: string, i: nat)
    requires i < |todos| && todos[i].id == id
    requires forall j :: 0 <= j < i ==> todos[j].id != id
    ensures FindById(todos, id) == Some(todos[i])
  {
    if i > 0 {
      FindByIdFirst(todos[1..], id, i - 1);
    }
  }

  /** `todos.map(todo => todo.id === id ? updated : todo)`. */
  function ReplaceById(todos: seq<Todo>, id: string, updated: Todo): (r: seq<Todo>)
    ensures |r| == |todos|
    ensures forall i :: 0 <= i < |todos| ==> r[i] == if todos[i].id == id then updated else todos[i]
  {
    if todos == [] then [] else [if todos[0].id == id then updated else todos[0]] + ReplaceById(todos[1..], id, updated)
  }

  /** `todos.filter(todo => todo.id !== id)`. */
  function RemoveById(todos: seq<Todo>, id: string): (r: seq<Todo>)
    ensures forall i :: 0 <= i < |r| ==> r[i].id != id
    ensures forall i :: 0 <= i < |todos| && todos[i].id != id ==> todos[i] in r
    ensures IsSubsequence(r, todos)
  {
    if todos == [] then []
    else if todos[0].id == id then RemoveById(todos[1..], id)
    else [todos[0]] + RemoveById(todos[1..], id)
  }

  /** The ids of a list of files. */
  function FileIds(files: seq<TodoFile>): (ids: seq<string>)
    ensures |ids| == |files| && forall i :: 0 <= i < |files| ==> ids[i] == files[i].id
  {
    if files == [] then [] else [files[0].id] + FileIds(files[1..])
  }

  /** `todo.files && todo.files.some(file => file.id === fileId)`. */
  predicate HasFile(todo: Todo, fileId: string) {
    todo.files.Some? && fileId in FileIds(todo.files.value)
  }

  /** `files.filter(file => file.id !== fileId)`. */
  function WithoutFile(files: seq<TodoFile>, fileId: string): (r: seq<TodoFile>)
    ensures fileId !in FileIds(r)
    ensures forall i :: 0 <= i < |files| && files[i].id != fileId ==> files[i] in r
    ensures IsSubsequence(r, files)
  {
    if files == [] then []
    else if files[0].id == fileId then WithoutFile(files[1..], fileId)
    else [files[0]] + WithoutFile(files[1..], fileId)
  }

  /** The todo `todoId` with `file` appended to its files (missing files count as none). */
  function AddFile(todos: seq<Todo>, todoId: string, file: TodoFile): (r: seq<Todo>)
    ensures |r| == |todos|
    ensures forall i :: 0 <= i < |todos| ==>
      r[i] == if todos[i].id == todoId then todos[i].(files := Some(todos[i].files.GetOr([]) + [file])) else todos[i]
  {
    if todos == [] then []
    else
      var t := todos[0];
      [if t.id == todoId then t.(files := Some(t.files.GetOr([]) + [file])) else t] + AddFile(todos[1..], todoId, file)
  }

  /** Every todo holding file `fileId` without it; the others as they were. */
  function RemoveFile(todos: seq<Todo>, fileId: string): (r: seq<Todo>)
    ensures |r| == |todos|
    ensures forall i :: 0 <= i < |todos| ==>
      r[i] == if HasFile(todos[i], fileId) then todos[i].(files := Some(WithoutFile(todos[i].files.value, fileId))) else todos[i]
  {
    if todos == [] then []
    else
      var t := todos[0];
      [if HasFile(t, fileId) then t.(files := Some(WithoutFile(t.files.value, fileId))) else t] + RemoveFile(todos[1..], fileId)
  }

  // ---- facts about the patches ----

  /** The ids of a list of todos. */
  function TodoIds(todos: seq<Todo>): (ids: seq<string>)
    ensures |ids| == |todos| && forall i :: 0 <= i < |todos| ==> ids[i] == todos[i].id
  {
    if todos == [] then [] else [todos[0].id] + TodoIds(todos[1..])
  }

  /**
   * `filter` by id drops exactly the todos carrying the id: the ids left are
   * the ids with every `id` removed, so each other todo keeps its multiplicity.
   */
  lemma {:induction false} RemoveByIdIds(todos: seq<Todo>, id: string)
    ensures TodoIds(RemoveById(todos, id)) == RemoveAll(TodoIds(todos), id)
    ensures |RemoveById(todos, id)| == |todos| - multiset(TodoIds(todos))[id]
  {
    if todos != [] {
      RemoveByIdIds(todos[1..], id);
      var ids := TodoIds(todos);
      assert ids == [todos[0].id] + TodoIds(todos[1..]);
      assert ids[1..] == TodoIds(todos[1..]);
      if todos[0].id != id {
        var r := [todos[0]] + RemoveById(todos[1..], id);
        assert TodoIds(r) == [todos[0].id] + TodoIds(RemoveById(todos[1..], id));
      }
    }
  }

  /** Deleting a todo that was just prepended gives back the list before it. */
  lemma {:induction false} PrependThenRemove(todos: seq<Todo>, t: Todo)
    requires t.id !in TodoIds(todos)
    ensures RemoveById([t] + todos, t.id) == todos
  {
    assert ([t] + todos)[1..] == todos;
    RemoveByIdAbsent(todos, t.id);
  }

  /** Removing an id no todo has changes nothing. */
  lemma {:induction false} RemoveByIdAbsent(todos: seq<Todo>, id: string)
    requires id !in TodoIds(todos)
    ensures RemoveById(todos, id) == todos
  {
    if todos != [] {
      assert TodoIds(todos) == [todos[0].id] + TodoIds(todos[1..]);
      RemoveByIdAbsent(todos[1..], id);
    }
  }

  /** Replacing an id no todo has changes nothing. */
  lemma ReplaceByIdAbsent(todos: seq<Todo>, id: string, updated: Todo)
    requires id !in TodoIds(todos)
    ensures ReplaceById(todos, id, updated) == todos
  {
    assert forall i :: 0 <= i < |todos| ==> todos[i].id == TodoIds(todos)[i];
  }

  /** After a file delete no todo holds the file. */
  lemma RemoveFileGone(todos: seq<Todo>, fileId: string)
    ensures forall i :: 0 <= i < |todos| ==> !HasFile(RemoveFile(todos, fileId)[i], fileId)
  {
  }

  /** Removing a file id no file has changes nothing. */
  lemma {:induction false} WithoutFileAbsent(files: seq<TodoFile>, fileId: string)
    requires fileId !in FileIds(files)
    ensures WithoutFile(files, fileId) == files
  {
    if files != [] {
      assert FileIds(files) == [files[0].id] + FileIds(files[1..]);
      WithoutFileAbsent(files[1..], fileId);
    }
  }

  /** `filter` by id drops exactly the files carrying the id, each other file keeping its multiplicity. */
  lemma {:induction false} WithoutFileIds(files: seq<TodoFile>, fileId: string)
    ensures FileIds(WithoutFile(files, fileId)) == RemoveAll(FileIds(files), fileId)
    ensures |WithoutFile(files, fileId)| == |files| - multiset(FileIds(files))[fileId]
  {
    if files != [] {
      WithoutFileIds(files[1..], fileId);
      var ids := FileIds(files);
      assert ids == [files[0].id] + FileIds(files[1..]);
      assert ids[1..] == FileIds(files[1..]);
      if files[0].id != fileId {
        var r := [files[0]] + WithoutFile(files[1..], fileId);
        assert FileIds(r) == [files[0].id] + FileIds(WithoutFile(files[1..], fileId));
      }
    }
  }

  lemma {:induction false} WithoutFileAppended(files: seq<TodoFile>, file: TodoFile)
    requires file.id !in FileIds(files)
    ensures WithoutFile(files + [file], file.id) == files
  {
    if files == [] {
      assert files + [file] == [file];
    } else {
      assert FileIds(files) == [files[0].id] + FileIds(files[1..]);
      assert (files + [file])[1..] == files[1..] + [file];
      WithoutFileAppended(files[1..], file);
    }
  }

  /**
   * Deleting a file that was just attached gives back the list, when the
   * file id was new and the todos that received it had a files list.
   */
  lemma AddThenRemoveFile(todos: seq<Todo>, todoId: string, file: TodoFile)
    requires forall i :: 0 <= i < |todos| ==> !HasFile(todos[i], file.id)
    requires forall i :: 0 <= i < |todos| && todos[i].id == todoId ==> todos[i].files.Some?
    ensures RemoveFile(AddFile(todos, todoId, file), file.id) == todos
  {
    var added := AddFile(todos, todoId, file);
    var r := RemoveFile(added, file.id);
    forall i | 0 <= i < |todos| ensures r[i] == todos[i] {
      if todos[i].id == todoId {
        var fs := todos[i].files.value;
        assert FileIds(fs + [file])[|fs|] == file.id;
        assert HasFile(added[i], file.id);
        WithoutFileAppended(fs, file);
      } else {
        assert added[i] == todos[i];
      }
    }
  }

  // ---- the page state ----

  class HomeState {
    var todos: seq<Todo>
    var error: Option<string>
    var selectedTodo: Option<Todo>

    constructor()
      ensures todos == [] && error == None && selectedTodo == None
    {
      todos, error, selectedTodo := [], None, None;
    }

    /** `selectedTodo && selectedTodo.id === id`. */
    predicate IsSelected(id: string)
      reads this
    {
      selectedTodo.Some? && selectedTodo.value.id == id
    }

    /** `handleAddTodo`: POST the new todo; on success prepend the server's todo. */
    method HandleAddTodo(title: string, description: Option<string>, tags: Option<seq<string>>, response: Call<Todo>)
      returns (request: CreateTodoInput)
      modifies this
      ensures request == CreateTodoInput(Some(title), description, tags)
      ensures selectedTodo == old(selectedTodo)
      ensures response.Succeeded? ==> todos == [response.value] + old(todos) && error == old(error)
      ensures response.Failed? ==> todos == old(todos) && error == Some("Failed to add todo. Please try again.")
    {
      request := CreateTodoInput(Some(title), description, tags);
      if response.Failed? {
        error := Some("Failed to add todo. Please try again.");
        return;
      }
      todos := [response.value] + todos;
    }

    /**
     * `handleToggleTodo`: nothing when no todo has the id; otherwise PUT the
     * negated `completed` and put the server's todo in place of that id.
     */
    method HandleToggleTodo(id: string, response: Call<Todo>) returns (request: Option<UpdateTodoInput>)
      modifies this
      ensures FindById(old(todos), id).None? ==> request.None? && unchanged(this)
      ensures FindById(old(todos), id).Some? ==>
        request == Some(UpdateTodoInput(None, None, Some(!FindById(old(todos), id).value.completed), None))
      ensures FindById(old(todos), id).Some? && response.Succeeded? ==>
        && todos == ReplaceById(old(todos), id, response.value)
        && selectedTodo == (if old(IsSelected(id)) then Some(response.value) else old(selectedTodo))
        && error == old(error)
      ensures FindById(old(todos), id).Some? && response.Failed? ==>
        todos == old(todos) && selectedTodo == old(selectedTodo) && error == Some("Failed to update todo. Please try again.")
    {
      var todoToUpdate := FindById(todos, id);
      if todoToUpdate.None? {
        return None;
      }
      request := Some(UpdateTodoInput(None, None, Some(!todoToUpdate.value.completed), None));
      if response.Failed? {
        error := Some("Failed to update todo. Please try again.");
        return;
      }
      todos := ReplaceById(todos, id, response.value);
      if IsSelected(id) {
        selectedTodo := Some(response.value);
      }
    }

    /** `handleEditTodo`: PUT title, description and tags; on success replace that id. */
    method HandleEditTodo(id: string, newTitle: string, newDescription: Option<string>, newTags: Option<seq<string>>,
                          response: Call<Todo>)
      returns (request: UpdateTodoInput)
      modifies this
      ensures request == UpdateTodoInput(Some(newTitle), newDescription, None, newTags)
      ensures response.Succeeded? ==>
        && todos == ReplaceById(old(todos), id, response.value)
        && selectedTodo == (if old(IsSelected(id)) then Some(response.value) else old(selectedTodo))
        && error == old(error)
      ensures response.Failed? ==>
        todos == old(todos) && selectedTodo == old(selectedTodo) && error == Some("Failed to update todo. Please try again.")
    {
      request := UpdateTodoInput(Some(newTitle), newDescription, None, newTags);
      if response.Failed? {
        error := Some("Failed to update todo. Please try again.");
        return;
      }
      todos := ReplaceById(todos, id, response.value);
      if IsSelected(id) {
        selectedTodo := Some(response.value);
      }
    }

    /** `handleDeleteTodo`: on success drop that id and close its details. */
    method HandleDeleteTodo(id: string, succeeded: bool)
      modifies this
      ensures succeeded ==>
        && todos == RemoveById(old(todos), id)
        && selectedTodo == (if old(IsSelected(id)) then None else old(selectedTodo))
        && error == old(error)
      ensures !succeeded ==>
        todos == old(todos) && selectedTodo == old(selectedTodo) && error == Some("Failed to delete todo. Please try again.")
    {
      if !succeeded {
        error := Some("Failed to delete todo. Please try again.");
        return;
      }
      todos := RemoveById(todos, id);
      if IsSelected(id) {
        selectedTodo := None;
      }
    }

    /**
     * `handleUploadFile`: POST the data URL of the file; on success append
     * the uploaded file to the todo `todoId`. A failed read of the file is a
     * failed call too.
     */
    method HandleUploadFile(todoId: string, fileName: string, fileType: string, dataUrl: string, response: Call<TodoFile>)
      returns (request: FilesRoute.UploadBody, result: Option<TodoFile>)
      modifies this
      ensures request == FilesRoute.UploadBody(Some(todoId), Some(dataUrl), Some(fileName), Some(fileType))
      ensures response.Succeeded? ==>
        && result == Some(response.value)
        && todos == AddFile(old(todos), todoId, response.value)
        && selectedTodo == (if old(IsSelected(todoId)) && FindById(todos, todoId).Some?
                            then FindById(todos, todoId) else old(selectedTodo))
        && error == old(error)
      ensures response.Failed? ==>
        && result.None? && todos == old(todos) && selectedTodo == old(selectedTodo)
        && error == Some("Failed to upload file. Please try again.")
    {
      request := FilesRoute.UploadBody(Some(todoId), Some(dataUrl), Some(fileName), Some(fileType));
      if response.Failed? {
        error := Some("Failed to upload file. Please try again.");
        return request, None;
      }
      var updatedTodos := AddFile(todos, todoId, response.value);
      todos := updatedTodos;
      if IsSelected(todoId) {
        var updatedTodo := FindById(updatedTodos, todoId);
        if updatedTodo.Some? {
          selectedTodo := updatedTodo;
        }
      }
      result := Some(response.value);
    }

    /** `handleDeleteFile`: on success drop the file from every todo holding it. */
    method HandleDeleteFile(fileId: string, succeeded: bool) returns (ok: bool)
      modifies this
      ensures ok == succeeded
      ensures succeeded ==>
        && todos == RemoveFile(old(todos), fileId)
        && selectedTodo == (if old(selectedTodo).Some? && HasFile(old(selectedTodo).value, fileId)
                               && FindById(todos, old(selectedTodo).value.id).Some?
                            then FindById(todos, old(selectedTodo).value.id) else old(selectedTodo))
        && error == old(error)
      ensures !succeeded ==>
        todos == old(todos) && selectedTodo == old(selectedTodo) && error == Some("Failed to delete file. Please try again.")
    {
      if !succeeded {
        error := Some("Failed to delete file. Please try again.");
        return false;
      }
      var updatedTodos := RemoveFile(todos, fileId);
      todos := updatedTodos;
      if selectedTodo.Some? && HasFile(selectedTodo.value, fileId) {
        var updatedTodo := FindById(updatedTodos, selectedTodo.value.id);
        if updatedTodo.Some? {
          selectedTodo := updatedTodo;
        }
      }
      return true;
    }
  }
}
