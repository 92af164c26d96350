/**
 * Records shared by the server handlers and the client components: the
 * `Todo`, `TodoFile` and `Tag` shapes, the inputs of the create/update calls,
 * and the wrappers used for optional values, HTTP replies and oracle calls.
 * Timestamps are abstract natural numbers.
 */
module Types {

  datatype Option<T> = None | Some(value: T) {
    function GetOr(default: T): T {
      match this
      case Some(v) => v
      case None => default
    }
  }

  /** A value, or the error a function throws instead. */
  datatype Result<T, E> = Ok(value: T) | Err(error: E)

  /** A `Tag`: a shared label; `name` is compared case-sensitively. */
  datatype Tag = Tag(id: string, name: string, createdAt: nat, updatedAt: nat)

  /** A `TodoFile`: one attachment owned by the todo `todoId`. */
  datatype TodoFile = TodoFile(
    id: string,
    filename: string,
    path: string,
    mimetype: string,
    size: nat,
    todoId: string,
    createdAt: nat,
    updatedAt: nat)

  /** A `Todo`; `files` and `tags` are optional properties of the record. */
  datatype Todo = Todo(
    id: string,
    title: string,
    description: Option<string>,
    completed: bool,
    createdAt: nat,
    updatedAt: nat,
    files: Option<seq<TodoFile>>,
    tags: Option<seq<Tag>>)

  /** The JSON body of `POST /api/todos`; a missing title is `None`. */
  datatype CreateTodoInput = CreateTodoInput(
    title: Option<string>,
    description: Option<string>,
    tags: Option<seq<string>>)

  /** The JSON body of `PUT /api/todos/{id}`; absent fields are `None`. */
  datatype UpdateTodoInput = UpdateTodoInput(
    title: Option<string>,
    description: Option<string>,
    completed: Option<bool>,
    tags: Option<seq<string>>)

  /** An HTTP reply: a JSON value with its status, or `{error}` with its status. */
  datatype Reply<T> = Json(status: nat, value: T) | ErrorJson(status: nat, error: string)

  /** The outcome of a call whose work happens elsewhere (a fetch, a prop callback). */
  datatype Call<T> = Succeeded(value: T) | Failed

  /** The names of a list of tags, in order. */
  function TagNames(tags: seq<Tag>): (names: seq<string>)
    ensures |names| == |tags|
    ensures forall i :: 0 <= i < |tags| ==> names[i] == tags[i].name
  {
    if tags == [] then [] else [tags[0].name] + TagNames(tags[1..])
  }
}
