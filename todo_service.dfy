/**
 * `TodoService`: input validation, not-found translation and text search
 * on top of the repository. Each thrown `Error` of the source is a
 * `Failure` here, and the storage is the `InMemoryRepository` given to the
 * constructor.
 */
module Service {
  import opened Wrappers
  import opened Js
  import opened OrderedMaps
  import opened TodoModel
  import opened Repository

  /**
   * What the service throws: a missing required input, an id that is not
   * stored, or the `TypeError` the search predicate raises when it calls
   * `includes` on a property that is not a string.
   */
  datatype Error =
    | ValidationError(message: string)
    | NotFoundError(id: Value)
    | TypeError

  const TitleRequired: string := "Title is required"
  const IdRequired: string := "ID is required"

  /** The object literal `{ success: true }` that `deleteTodo` returns. */
  function Deleted(): (r: Record)
    ensures r.Keys == {"success"} && Get(r, "success") == Bool(true)
  {
    map["success" := Bool(true)]
  }

  /** A record whose `title` is a string and whose `description` is a string or falsy. */
  predicate Searchable(todo: Record) {
    && Get(todo, "title").Str?
    && (!Truthy(Get(todo, "description")) || Get(todo, "description").Str?)
  }

  /** Every stored record is searchable. */
  ghost predicate AllSearchable(t: OrderedMap<Value, Record>) {
    forall k :: k in t.entries ==> Searchable(t.entries[k])
  }

  /** An update after which a searchable record stays searchable. */
  predicate KeepsSearchable(updates: Record) {
    && ("title" in updates ==> updates["title"].Str?)
    && ("description" in updates ==> !Truthy(updates["description"]) || updates["description"].Str?)
  }

  /** `s` occurs in the record's string `title`, or in its truthy string `description`. */
  predicate TextMatch(todo: Record, s: string) {
    || (Get(todo, "title").Str? && Includes(Get(todo, "title").s, s))
    || (Truthy(Get(todo, "description")) && Get(todo, "description").Str? && Includes(Get(todo, "description").s, s))
  }

  /**
   * The `filter` callback of `listTodos` on one record: the title contains
   * `s`, or else the description is truthy and contains `s`. The
   * description is only looked at when the title does not match, and
   * calling `includes` on a value that is not a string throws.
   */
  function Matches(todo: Record, s: string): (r: Result<bool, Error>)
    ensures r.Success? ==> r.value == TextMatch(todo, s)
    ensures r.Failure? ==> r.error == TypeError && !Searchable(todo)
    ensures Searchable(todo) ==> r.Success?
    ensures !Get(todo, "title").Str? ==> r.Failure?
    ensures Get(todo, "title").Str? && Includes(Get(todo, "title").s, s) ==> r == Success(true)
  {
    var title := Get(todo, "title");
    if !title.Str? then
      Failure(TypeError)
    else if Includes(title.s, s) then
      Success(true)
    else
      var description := Get(todo, "description");
      if !Truthy(description) then
        Success(false)
      else if !description.Str? then
        Failure(TypeError)
      else
        Success(Includes(description.s, s))
  }

  /** `todos.filter(...)`: the records the callback keeps, in order; the first throw aborts it. */
  function Filter(todos: seq<Record>, s: string): (r: Result<seq<Record>, Error>)
    ensures r.Failure? ==> r.error == TypeError
    ensures r.Success? ==> |r.value| <= |todos| && forall i :: 0 <= i < |r.value| ==> TextMatch(r.value[i], s)
  {
    if todos == [] then
      Success([])
    else
      var head := Matches(todos[0], s);
      var rest := Filter(todos[1..], s);
      if head.Failure? then
        Failure(head.error)
      else if rest.Failure? then
        rest
      else
        Success(if head.value then [todos[0]] + rest.value else rest.value)
  }

  /** Filtering two runs of records one after the other: the first failure wins, otherwise the results concatenate. */
  function Join(a: Result<seq<Record>, Error>, b: Result<seq<Record>, Error>): Result<seq<Record>, Error> {
    if a.Failure? then a else if b.Failure? then b else Success(a.value + b.value)
  }

  /** The filter works record by record: filtering `a + b` is filtering `a`, then `b`. */
  lemma {:induction false} FilterAppend(a: seq<Record>, b: seq<Record>, s: string)
    ensures Filter(a + b, s) == Join(Filter(a, s), Filter(b, s))
  {
    if a == [] {
      assert a + b == b;
      if Filter(b, s).Success? {
        assert [] + Filter(b, s).value == Filter(b, s).value;
      }
    } else {
      assert (a + b)[0] == a[0];
      assert (a + b)[1..] == a[1..] + b;
      FilterAppend(a[1..], b, s);
      var fa, fb := Filter(a[1..], s), Filter(b, s);
      if Matches(a[0], s).Success? && fa.Success? && fb.Success? {
        assert [a[0]] + (fa.value + fb.value) == ([a[0]] + fa.value) + fb.value;
      }
    }
  }

  /** The filter throws exactly when the callback throws on some record, and then with a `TypeError`. */
  lemma {:induction false} FilterFails(todos: seq<Record>, s: string)
    ensures Filter(todos, s).Failure? <==> exists i :: 0 <= i < |todos| && Matches(todos[i], s).Failure?
    ensures Filter(todos, s).Failure? ==> Filter(todos, s).error == TypeError
  {
    if todos != [] {
      FilterFails(todos[1..], s);
      if Matches(todos[0], s).Success? && Filter(todos, s).Failure? {
        var i :| 0 <= i < |todos[1..]| && Matches(todos[1..][i], s).Failure?;
        assert Matches(todos[i + 1], s).Failure?;
      }
      if Filter(todos, s).Success? {
        forall i | 0 < i < |todos| ensures Matches(todos[i], s).Success? {
          assert todos[i] == todos[1..][i - 1];
        }
      }
    }
  }

  /**
   * A successful filter returns a subset of its input, at most as long,
   * holding exactly the input records that match.
   */
  lemma {:induction false} FilterMembers(todos: seq<Record>, s: string)
    requires Filter(todos, s).Success?
    ensures |Filter(todos, s).value| <= |todos|
    ensures forall t :: t in Filter(todos, s).value <==> t in todos && TextMatch(t, s)
  {
    if todos != [] {
      FilterMembers(todos[1..], s);
      assert forall t :: t in todos <==> t == todos[0] || t in todos[1..];
      forall t | t in todos[1..] ensures Matches(t, s).Success? {
        var i :| 0 <= i < |todos[1..]| && todos[1..][i] == t;
        FilterFails(todos[1..], s);
      }
    }
  }

  /** Filtering a filter's own result again keeps every record. */
  lemma {:induction false} FilterIdempotent(todos: seq<Record>, s: string)
    requires Filter(todos, s).Success?
    ensures Filter(Filter(todos, s).value, s) == Filter(todos, s)
  {
    if todos != [] {
      FilterIdempotent(todos[1..], s);
      var rest := Filter(todos[1..], s).value;
      if Matches(todos[0], s).value {
        assert ([todos[0]] + rest)[0] == todos[0];
        assert ([todos[0]] + rest)[1..] == rest;
      }
    }
  }

  /** When every record is searchable the filter does not throw. */
  lemma FilterSearchable(todos: seq<Record>, s: string)
    requires forall i :: 0 <= i < |todos| ==> Searchable(todos[i])
    ensures Filter(todos, s).Success?
  {
    FilterFails(todos, s);
  }

  /** The records of a table whose records are all searchable are all searchable. */
  lemma StoredSearchable(t: OrderedMap<Value, Record>)
    requires t.Valid()
    ensures AllSearchable(t) ==> forall i :: 0 <= i < |t.Values()| ==> Searchable(t.Values()[i])
  {
  }

  /** The shallow merge of a searchable-keeping update over a searchable record is searchable. */
  lemma MergeSearchable(item: Record, updates: Record)
    requires Searchable(item) && KeepsSearchable(updates)
    ensures Searchable(Merge(item, updates))
  {
  }

  /** The default `textSearch = ''` of `listTodos`. */
  function SearchText(textSearch: Option<string>): (s: string)
    ensures textSearch.Some? ==> s == textSearch.value
    ensures textSearch.None? ==> s == "" && forall hay :: Includes(hay, s)
  {
    match textSearch
    case None => ""
    case Some(s) => s
  }

  /**
   * `ToDo.generate({ title, description })`, the record `createTodo`
   * builds: a fresh id, the given title, the description or `''`, not
   * completed, stamped with the clock.
   */
  function NewTodo(title: Value, description: Value, randomId: string, now: int): (todo: Record)
    ensures todo.Keys == TodoFields
    ensures KeyOf(todo) == todo["id"] == Str(randomId)
    ensures todo["title"] == title
    ensures todo["description"] == (if description == Undefined then Str("") else description)
    ensures todo["completed"] == Bool(false)
    ensures todo["createdAt"] == Date(now)
    ensures title.Str? && (description.Str? || description == Undefined) ==> Searchable(todo)
  {
    var fields: Record := map["title" := title, "description" := description];
    assert Get(fields, "id") == Undefined && Get(fields, "completed") == Undefined;
    Generate(fields, randomId, now)
  }

  class TodoService {
    /** `this.storage`. */
    const storage: InMemoryRepository

    constructor(storage: InMemoryRepository)
      ensures this.storage == storage
    {
      this.storage := storage;
    }

    /**
     * `createTodo({ title, description })`: a falsy title is rejected before
     * storage is touched; otherwise the generated record is stored under
     * its fresh id (replacing whatever was there) and returned.
     */
    method CreateTodo(title: Value, description: Value, randomId: string, now: int) returns (r: Result<Record, Error>)
      requires storage.Valid()
      modifies storage
      ensures storage.Valid()
      ensures !Truthy(title) ==> r == Failure(ValidationError(TitleRequired)) && storage.data == old(storage.data)
      ensures Truthy(title) ==>
        && r == Success(NewTodo(title, description, randomId, now))
        && storage.data == old(storage.data).Set(Str(randomId), r.value)
        && storage.Read(Str(randomId)) == Some(r.value)
      ensures Truthy(title) && !old(storage.data).Has(Str(randomId)) ==>
        storage.ReadAll() == old(storage.ReadAll()) + [r.value]
      ensures KeyConsistent(old(storage.data)) ==> KeyConsistent(storage.data)
      ensures AllSearchable(old(storage.data)) && title.Str? && (description.Str? || description == Undefined) ==>
        AllSearchable(storage.data)
    {
      if !Truthy(title) {
        return Failure(ValidationError(TitleRequired));
      }
      var todo := NewTodo(title, description, randomId, now);
      var stored := storage.Create(todo);
      r := Success(stored);
    }

    /** `getTodoById({ id })`: the stored record, or the validation or not-found error. */
    function GetTodoById(id: Value): (r: Result<Record, Error>)
      reads storage
      ensures !Truthy(id) ==> r == Failure(ValidationError(IdRequired))
      ensures Truthy(id) && !storage.data.Has(id) ==> r == Failure(NotFoundError(id))
      ensures Truthy(id) && storage.data.Has(id) ==> r == Success(storage.data.entries[id])
    {
      if !Truthy(id) then
        Failure(ValidationError(IdRequired))
      else
        match storage.Read(id)
        case None => Failure(NotFoundError(id))
        case Some(todo) => Success(todo)
    }

    /**
     * `listTodos({ textSearch })`: with no or an empty search text every
     * stored record in `readAll()` order; otherwise the filtered list.
     */
    function ListTodos(textSearch: Option<string>): (r: Result<seq<Record>, Error>)
      reads storage
      requires storage.Valid()
      ensures SearchText(textSearch) == "" ==> r == Success(storage.ReadAll())
      ensures SearchText(textSearch) != "" ==> r == Filter(storage.ReadAll(), SearchText(textSearch))
      ensures r.Success? ==> forall t :: t in r.value <==>
        t in storage.data.entries.Values && (SearchText(textSearch) == "" || TextMatch(t, SearchText(textSearch)))
      ensures r.Failure? ==> r.error == TypeError
      ensures AllSearchable(storage.data) ==> r.Success?
    {
      var todos := storage.ReadAll();
      var s := SearchText(textSearch);
      if s != "" then
        var r := Filter(todos, s);
        StoredSearchable(storage.data);
        FilterFails(todos, s);
        if r.Success? then
          FilterMembers(todos, s);
          r
        else
          r
      else
        Success(todos)
    }

    /**
     * `updateTodo({ id, updates })`: validation and a not-found check by
     * `read` come first and leave storage unchanged; otherwise the merged
     * record `storage.update` stores is returned.
     */
    method UpdateTodo(id: Value, updates: Record) returns (r: Result<Record, Error>)
      requires storage.Valid()
      modifies storage
      ensures storage.Valid()
      ensures !Truthy(id) ==> r == Failure(ValidationError(IdRequired))
      ensures Truthy(id) && !old(storage.data).Has(id) ==> r == Failure(NotFoundError(id))
      ensures r.Failure? ==> storage.data == old(storage.data)
      ensures Truthy(id) && old(storage.data).Has(id) ==>
        && r == Success(Merge(old(storage.data).entries[id], updates))
        && storage.data == old(storage.data).Set(id, r.value)
        && storage.Read(id) == Some(r.value)
      ensures AllSearchable(old(storage.data)) && KeepsSearchable(updates) ==> AllSearchable(storage.data)
    {
      if !Truthy(id) {
        return Failure(ValidationError(IdRequired));
      }
      var todo := storage.Read(id);
      if todo.None? {
        return Failure(NotFoundError(id));
      }
      var updated := storage.Update(id, updates);
      r := Success(updated.value);
      if AllSearchable(old(storage.data)) && KeepsSearchable(updates) {
        MergeSearchable(old(storage.data).entries[id], updates);
      }
    }

    /**
     * `deleteTodo({ id })`: validation first; then `storage.delete`, whose
     * `false` becomes the not-found error and whose `true` becomes
     * `{ success: true }`.
     */
    method DeleteTodo(id: Value) returns (r: Result<Record, Error>)
      requires storage.Valid()
      modifies storage
      ensures storage.Valid()
      ensures !Truthy(id) ==> r == Failure(ValidationError(IdRequired))
      ensures Truthy(id) ==> (r.Success? <==> old(storage.data).Has(id))
      ensures Truthy(id) && !old(storage.data).Has(id) ==> r == Failure(NotFoundError(id))
      ensures r.Failure? ==> storage.data == old(storage.data)
      ensures r.Success? ==> r.value == Deleted() && storage.data == old(storage.data).Delete(id)
      ensures storage.Read(id) == None || !Truthy(id)
      ensures AllSearchable(old(storage.data)) ==> AllSearchable(storage.data)
    {
      if !Truthy(id) {
        return Failure(ValidationError(IdRequired));
      }
      var success := storage.Delete(id);
      if !success {
        return Failure(NotFoundError(id));
      }
      r := Success(Deleted());
    }
  }
}
