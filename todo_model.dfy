/**
 * The todo record factory: `ToDo.generate` builds a fresh five-field record
 * from an argument object, applying the default parameters `id`,
 * `description` and `completed`. The random identifier and the clock
 * reading are taken as inputs.
 */
module TodoModel {
  import opened Js

  /** The properties every generated todo has, and no others. */
  const TodoFields: set<string> := {"id", "title", "description", "completed", "createdAt"}

  /**
   * `ToDo.generate(fields)`, where `randomId` is what `ToDo.generateRandomId()`
   * would return and `now` is the time value `new Date()` would read. A
   * default parameter applies only when the argument is undefined (absent or
   * explicitly undefined); `null` and other falsy values are kept.
   * `title` is copied through without any check.
   */
  function Generate(fields: Record, randomId: string, now: int): (todo: Record)
    ensures todo.Keys == TodoFields
    ensures Get(fields, "id") != Undefined ==> todo["id"] == Get(fields, "id")
    ensures Get(fields, "id") == Undefined ==> todo["id"] == Str(randomId)
    ensures todo["title"] == Get(fields, "title")
    ensures Get(fields, "description") != Undefined ==> todo["description"] == Get(fields, "description")
    ensures Get(fields, "description") == Undefined ==> todo["description"] == Str("")
    ensures Get(fields, "completed") != Undefined ==> todo["completed"] == Get(fields, "completed")
    ensures Get(fields, "completed") == Undefined ==> todo["completed"] == Bool(false)
    ensures todo["createdAt"] == Date(now)
  {
    var id := Get(fields, "id");
    var description := Get(fields, "description");
    var completed := Get(fields, "completed");
    map[
      "id" := if id == Undefined then Str(randomId) else id,
      "title" := Get(fields, "title"),
      "description" := if description == Undefined then Str("") else description,
      "completed" := if completed == Undefined then Bool(false) else completed,
      "createdAt" := Date(now)
    ]
  }
}
