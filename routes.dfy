/**
 * The REST handlers of server/src/routes/todos.ts, mounted at /api/todos.
 * Each handler turns a request (path parameter, JSON body) into a status
 * code and a JSON payload, calling the store only once the request has
 * passed validation. An exception raised inside the store is the `fault`
 * parameter: the handler's catch block answers 500 with its own message.
 */
module Routes {
  import opened Wrappers
  import opened JsString
  import opened Store

  /**
   * One property of the parsed JSON body, as far as the handlers tell
   * values apart: missing (`undefined`), `null`, a string, a boolean, or
   * anything else (a number, an array, an object).
   */
  datatype Field = Absent | Null | Str(s: string) | Bool(b: bool) | Other

  /** The properties of `req.body` the handlers destructure. */
  datatype RequestBody = RequestBody(title: Field, description: Field, completed: Field)

  datatype Payload =
    | NoContent
    | OneTodo(todo: Todo)
    | TodoList(todos: seq<Todo>)
    | ErrorMessage(error: string)

  datatype Response = Response(status: int, payload: Payload)

  const InvalidId := "Invalid todo ID"
  const NotFound := "Todo not found"
  const TitleRequired := "Title is required"
  const TitleNotEmpty := "Title must be a non-empty string"
  const CompletedNotBoolean := "Completed must be a boolean"
  const FetchAllFailed := "Failed to fetch todos"
  const FetchOneFailed := "Failed to fetch todo"
  const CreateFailed := "Failed to create todo"
  const UpdateFailed := "Failed to update todo"
  const ToggleFailed := "Failed to toggle todo"
  const DeleteFailed := "Failed to delete todo"

  function Error(status: int, message: string): Response {
    Response(status, ErrorMessage(message))
  }

  /** A string whose trimmed form is not empty: the only title either handler accepts. */
  predicate UsableTitle(f: Field) {
    f.Str? && Trim(f.s) != []
  }

  // ---------------------------------------------------------------------------
  // Validation of the JSON bodies

  /** How POST's validation ends: 400, a TypeError from `description?.trim()`, or the input for createTodo. */
  datatype CreateCheck = MissingTitle | DescriptionThrows | CreateOk(input: CreateInput)

  /**
   * POST's validation: the title must be a string with something besides
   * whitespace; the description, when it is a string, is trimmed and an
   * empty result is dropped; `null` and a missing description give none;
   * any other description makes `?.trim()` throw.
   */
  function CheckCreate(body: RequestBody): (r: CreateCheck)
    ensures r.MissingTitle? <==> !UsableTitle(body.title)
    ensures r.DescriptionThrows? <==> UsableTitle(body.title) && (body.description.Bool? || body.description.Other?)
    ensures r.CreateOk? ==> r.input.title == Trim(body.title.s) && r.input.title != []
    ensures r.CreateOk? ==>
      (r.input.description.Some? <==> body.description.Str? && !AllWhitespace(body.description.s))
    ensures r.CreateOk? && r.input.description.Some? ==>
      r.input.description.value == Trim(body.description.s) && r.input.description.value != []
  {
    if !UsableTitle(body.title) then MissingTitle
    else
      var title := Trim(body.title.s);
      match body.description
      case Absent => CreateOk(CreateInput(title, None))
      case Null => CreateOk(CreateInput(title, None))
      case Str(d) =>
        TrimEmptyIff(d);
        var t := Trim(d);
        CreateOk(CreateInput(title, if t == [] then None else Some(t)))
      case Bool(_) => DescriptionThrows
      case Other => DescriptionThrows
  }

  /** How PUT's body validation ends: one of two 400s, or the sparse input for updateTodo. */
  datatype UpdateCheck = BadTitle | BadCompleted | UpdateOk(input: UpdateInput)

  /**
   * PUT's validation, in the handler's order: a present title (`null`
   * included) must be a usable string and is trimmed; a present
   * description is trimmed when it is a string and otherwise dropped; a
   * present `completed` must be a boolean. The title is checked first.
   */
  function UpdateRequest(body: RequestBody): (r: UpdateCheck)
    ensures r.BadTitle? <==> !body.title.Absent? && !UsableTitle(body.title)
    ensures r.BadCompleted? <==>
      (body.title.Absent? || UsableTitle(body.title)) && !body.completed.Absent? && !body.completed.Bool?
    ensures r.UpdateOk? ==>
      && (r.input.title.Some? <==> !body.title.Absent?)
      && (r.input.title.Some? ==> r.input.title.value == Trim(body.title.s) && r.input.title.value != [])
      && (r.input.description.Some? <==> body.description.Str?)
      && (r.input.description.Some? ==> r.input.description.value == Trim(body.description.s))
      && (r.input.completed.Some? <==> !body.completed.Absent?)
      && (r.input.completed.Some? ==> body.completed == Bool(r.input.completed.value))
  {
    if !body.title.Absent? && !UsableTitle(body.title) then BadTitle
    else if !body.completed.Absent? && !body.completed.Bool? then BadCompleted
    else
      UpdateOk(UpdateInput(
        if body.title.Absent? then None else Some(Trim(body.title.s)),
        if body.description.Str? then Some(Trim(body.description.s)) else None,
        if body.completed.Absent? then None else Some(body.completed.b)))
  }

  /**
   * The PUT handler's assembly of `input`, one property at a time, leaving
   * at the first invalid one: it agrees with UpdateRequest.
   */
  method BuildUpdateInput(body: RequestBody) returns (r: UpdateCheck)
    ensures r == UpdateRequest(body)
  {
    var input := UpdateInput(None, None, None);
    if !body.title.Absent? {
      if !body.title.Str? || Trim(body.title.s) == [] {
        return BadTitle;
      }
      input := input.(title := Some(Trim(body.title.s)));
    }
    if !body.description.Absent? {
      input := input.(description := if body.description.Str? then Some(Trim(body.description.s)) else None);
    }
    if !body.completed.Absent? {
      if !body.completed.Bool? {
        return BadCompleted;
      }
      input := input.(completed := Some(body.completed.b));
    }
    r := UpdateOk(input);
  }

  // ---------------------------------------------------------------------------
  // Properties of the validation

  /**
   * Whatever POST accepts reaches createTodo with a trimmed, non-empty title
   * and never with an empty description, so createTodo's `|| null` never
   * fires on this route.
   */
  lemma CreateInputIsClean(body: RequestBody)
    requires CheckCreate(body).CreateOk?
    ensures var input := CheckCreate(body).input;
      && input.title != [] && Trim(input.title) == input.title
      && input.description != Some("")
      && (input.description.Some? ==> Trim(input.description.value) == input.description.value)
  {
    TrimIdempotent(body.title.s);
    if body.description.Str? {
      TrimIdempotent(body.description.s);
    }
  }

  /** Whatever PUT accepts carries trimmed strings only. */
  lemma UpdateInputIsTrimmed(body: RequestBody)
    requires UpdateRequest(body).UpdateOk?
    ensures var input := UpdateRequest(body).input;
      && (input.title.Some? ==> Trim(input.title.value) == input.title.value)
      && (input.description.Some? ==> Trim(input.description.value) == input.description.value)
  {
    if body.title.Str? {
      TrimIdempotent(body.title.s);
    }
    if body.description.Str? {
      TrimIdempotent(body.description.s);
    }
  }

  /**
   * The two routes treat a blank description differently: POST stores no
   * description, while PUT passes the empty string on, so the row keeps ""
   * rather than null.
   */
  lemma DescriptionAsymmetry(title: string, d: string)
    requires Trim(title) != [] && AllWhitespace(d)
    ensures CheckCreate(RequestBody(Str(title), Str(d), Absent)) == CreateOk(CreateInput(Trim(title), None))
    ensures UpdateRequest(RequestBody(Absent, Str(d), Absent)) == UpdateOk(UpdateInput(None, Some(""), None))
  {
    TrimEmptyIff(d);
  }

  /**
   * PUT with a present description and nothing else is a real update: a
   * non-string description is dropped, so the same body with `null` is not.
   */
  lemma DescriptionOnlyUpdate(d: Field)
    requires !d.Absent?
    ensures UpdateRequest(RequestBody(Absent, d, Absent)).UpdateOk?
    ensures !NoFields(UpdateRequest(RequestBody(Absent, d, Absent)).input) <==> d.Str?
  {
  }

  /**
   * Every stored title has something besides white space. The store accepts
   * any title; it is the handlers' validation that keeps this true.
   */
  predicate TitlesUsable(todos: map<int, Todo>) {
    forall id :: id in todos ==> Trim(todos[id].title) != []
  }

  /** A row created from input POST accepted keeps every stored title usable. */
  lemma CreateKeepsTitlesUsable(todos: map<int, Todo>, body: RequestBody, t: Todo)
    requires TitlesUsable(todos)
    requires CheckCreate(body).CreateOk? && t.title == CheckCreate(body).input.title
    ensures TitlesUsable(todos[t.id := t])
  {
    TrimIdempotent(body.title.s);
  }

  /** Writing input PUT accepted into a stored row keeps every stored title usable. */
  lemma UpdateKeepsTitlesUsable(todos: map<int, Todo>, id: int, body: RequestBody, now: nat)
    requires TitlesUsable(todos) && id in todos
    requires UpdateRequest(body).UpdateOk?
    ensures TitlesUsable(todos[id := Patched(todos[id], UpdateRequest(body).input, now)])
  {
    if body.title.Str? {
      TrimIdempotent(body.title.s);
    }
  }

  // ---------------------------------------------------------------------------
  // The handlers

  /** GET /api/todos: the whole listing with 200, or 500 if the store throws. */
  method ListTodos(store: TodoStore, fault: bool) returns (resp: Response)
    requires store.Valid()
    ensures fault ==> resp == Error(500, FetchAllFailed)
    ensures !fault ==> resp == Response(200, TodoList(store.GetAllTodos()))
    ensures !fault ==> NewestFirst(resp.payload.todos) && |resp.payload.todos| == |store.todos|
  {
    if fault {
      return Error(500, FetchAllFailed);
    }
    var todos := store.GetAllTodos();
    resp := Response(200, TodoList(todos));
  }

  /** GET /api/todos/:id: 400 for an id parseInt rejects, 404 for a missing row, else the row. */
  method GetTodo(store: TodoStore, idParam: string, fault: bool) returns (resp: Response)
    requires store.Valid()
    ensures ParseInt(idParam).None? ==> resp == Error(400, InvalidId)
    ensures ParseInt(idParam).Some? && fault ==> resp == Error(500, FetchOneFailed)
    ensures ParseInt(idParam).Some? && !fault ==>
      var id := ParseInt(idParam).value;
      && (id !in store.todos ==> resp == Error(404, NotFound))
      && (id in store.todos ==> resp == Response(200, OneTodo(store.todos[id])))
  {
    var id := ParseInt(idParam);
    if id.None? {
      return Error(400, InvalidId);
    }
    if fault {
      return Error(500, FetchOneFailed);
    }
    var todo := store.GetTodoById(id.value);
    if todo.None? {
      return Error(404, NotFound);
    }
    resp := Response(200, OneTodo(todo.value));
  }

  /**
   * POST /api/todos: 400 without a usable title, 500 if the description
   * throws or the store does, else 201 with the new row. Only the last case
   * touches the store.
   */
  method PostTodo(store: TodoStore, body: RequestBody, fault: bool, elapsed: nat) returns (resp: Response)
    requires store.Valid()
    modifies store
    ensures store.Valid()
    ensures CheckCreate(body).MissingTitle? ==> resp == Error(400, TitleRequired) && unchanged(store)
    ensures CheckCreate(body).DescriptionThrows? ==> resp == Error(500, CreateFailed) && unchanged(store)
    ensures CheckCreate(body).CreateOk? && fault ==> resp == Error(500, CreateFailed) && unchanged(store)
    ensures CheckCreate(body).CreateOk? && !fault ==>
      var input := CheckCreate(body).input;
      && resp.status == 201 && resp.payload.OneTodo?
      && resp.payload.todo.id !in old(store.todos)
      && (forall k :: k in old(store.todos) ==> k < resp.payload.todo.id)
      && store.todos == old(store.todos)[resp.payload.todo.id := resp.payload.todo]
      && resp.payload.todo.title == input.title
      && resp.payload.todo.description == input.description
      && resp.payload.todo.description != Some("")
      && !resp.payload.todo.completed
      && store.clock == old(store.clock) + elapsed
      && resp.payload.todo.createdAt == store.clock && resp.payload.todo.updatedAt == store.clock
      && store.log == old(store.log) + [Created(input)]
    ensures TitlesUsable(old(store.todos)) ==> TitlesUsable(store.todos)
  {
    var check := CheckCreate(body);
    match check
    case MissingTitle =>
      return Error(400, TitleRequired);
    case DescriptionThrows =>
      return Error(500, CreateFailed);
    case CreateOk(input) =>
      if fault {
        return Error(500, CreateFailed);
      }
      var todo := store.CreateTodo(input, elapsed);
      if TitlesUsable(old(store.todos)) {
        CreateKeepsTitlesUsable(old(store.todos), body, todo);
      }
      resp := Response(201, OneTodo(todo));
  }

  /**
   * PUT /api/todos/:id: 400 for a bad id, then for a bad title, then for a
   * bad `completed`; 404 when the row is missing; else 200 with the row as
   * updateTodo leaves it. Nothing invalid reaches the store.
   */
  method PutTodo(store: TodoStore, idParam: string, body: RequestBody, fault: bool, elapsed: nat)
    returns (resp: Response)
    requires store.Valid()
    modifies store
    ensures store.Valid()
    ensures ParseInt(idParam).None? ==> resp == Error(400, InvalidId) && unchanged(store)
    ensures ParseInt(idParam).Some? && UpdateRequest(body).BadTitle? ==>
      resp == Error(400, TitleNotEmpty) && unchanged(store)
    ensures ParseInt(idParam).Some? && UpdateRequest(body).BadCompleted? ==>
      resp == Error(400, CompletedNotBoolean) && unchanged(store)
    ensures ParseInt(idParam).Some? && UpdateRequest(body).UpdateOk? && fault ==>
      resp == Error(500, UpdateFailed) && unchanged(store)
    ensures ParseInt(idParam).Some? && UpdateRequest(body).UpdateOk? && !fault ==>
      var id, input := ParseInt(idParam).value, UpdateRequest(body).input;
      && store.log == old(store.log) + [Updated(id, input)]
      && (id !in old(store.todos) ==>
            resp == Error(404, NotFound) && store.todos == old(store.todos) && store.clock == old(store.clock))
      && (id in old(store.todos) && NoFields(input) ==>
            && resp == Response(200, OneTodo(old(store.todos)[id]))
            && store.todos == old(store.todos) && store.clock == old(store.clock))
      && (id in old(store.todos) && !NoFields(input) ==>
            && store.clock == old(store.clock) + elapsed
            && resp == Response(200, OneTodo(Patched(old(store.todos)[id], input, store.clock)))
            && store.todos == old(store.todos)[id := resp.payload.todo])
    ensures TitlesUsable(old(store.todos)) ==> TitlesUsable(store.todos)
  {
    var id := ParseInt(idParam);
    if id.None? {
      return Error(400, InvalidId);
    }
    var check := BuildUpdateInput(body);
    match check
    case BadTitle =>
      return Error(400, TitleNotEmpty);
    case BadCompleted =>
      return Error(400, CompletedNotBoolean);
    case UpdateOk(input) =>
      if fault {
        return Error(500, UpdateFailed);
      }
      ghost var before := store.todos;
      var updated := store.UpdateTodo(id.value, input, elapsed);
      if TitlesUsable(before) && id.value in before {
        UpdateKeepsTitlesUsable(before, id.value, body, store.clock);
      }
      if updated.None? {
        return Error(404, NotFound);
      }
      resp := Response(200, OneTodo(updated.value));
  }

  /** PATCH /api/todos/:id/toggle: 400 for a bad id, 404 for a missing row, else 200 with the flipped row. */
  method ToggleRoute(store: TodoStore, idParam: string, fault: bool, elapsed: nat) returns (resp: Response)
    requires store.Valid()
    modifies store
    ensures store.Valid()
    ensures ParseInt(idParam).None? ==> resp == Error(400, InvalidId) && unchanged(store)
    ensures ParseInt(idParam).Some? && fault ==> resp == Error(500, ToggleFailed) && unchanged(store)
    ensures ParseInt(idParam).Some? && !fault ==>
      var id := ParseInt(idParam).value;
      && (id !in old(store.todos) ==>
            && resp == Error(404, NotFound) && store.todos == old(store.todos) && store.clock == old(store.clock)
            && store.log == old(store.log) + [Toggled(id)])
      && (id in old(store.todos) ==>
            var before := old(store.todos)[id];
            && store.log == old(store.log) + [Toggled(id), Updated(id, ToggleInput(before))]
            && store.clock == old(store.clock) + elapsed
            && resp == Response(200, OneTodo(before.(completed := !before.completed, updatedAt := store.clock)))
            && store.todos == old(store.todos)[id := resp.payload.todo])
    ensures TitlesUsable(old(store.todos)) ==> TitlesUsable(store.todos)
  {
    var id := ParseInt(idParam);
    if id.None? {
      return Error(400, InvalidId);
    }
    if fault {
      return Error(500, ToggleFailed);
    }
    var updated := store.ToggleTodo(id.value, elapsed);
    if updated.None? {
      return Error(404, NotFound);
    }
    resp := Response(200, OneTodo(updated.value));
  }

  /** DELETE /api/todos/:id: 400 for a bad id, 404 if no row went, else 204 with no body. */
  method DeleteRoute(store: TodoStore, idParam: string, fault: bool) returns (resp: Response)
    requires store.Valid()
    modifies store
    ensures store.Valid()
    ensures ParseInt(idParam).None? ==> resp == Error(400, InvalidId) && unchanged(store)
    ensures ParseInt(idParam).Some? && fault ==> resp == Error(500, DeleteFailed) && unchanged(store)
    ensures TitlesUsable(old(store.todos)) ==> TitlesUsable(store.todos)
    ensures ParseInt(idParam).Some? && !fault ==>
      var id := ParseInt(idParam).value;
      && store.todos == old(store.todos) - {id} && store.clock == old(store.clock)
      && store.log == old(store.log) + [Deleted(id)]
      && (id !in old(store.todos) ==> resp == Error(404, NotFound))
      && (id in old(store.todos) ==> resp == Response(204, NoContent))
  {
    var id := ParseInt(idParam);
    if id.None? {
      return Error(400, InvalidId);
    }
    if fault {
      return Error(500, DeleteFailed);
    }
    var deleted := store.DeleteTodo(id.value);
    if !deleted {
      return Error(404, NotFound);
    }
    resp := Response(204, NoContent);
  }
}
