/**
 * A task as the React frontend holds it: the JSON object the backend sent, whose fields
 * may each be missing (`undefined` or `null`). Enum values arrive as their names, dates
 * as ISO strings.
 */
module ClientTasks {
  import opened Options
  import opened Text

  datatype ClientTask = ClientTask(
    id: Option<int>,
    title: Option<string>,
    description: Option<string>,
    dueDate: Option<string>,
    priority: Option<string>,
    category: Option<string>,
    status: Option<string>,
    parentTaskId: Option<int>)

  /** JavaScript truthiness of a numeric field: present and not `0`. */
  predicate TruthyId(v: Option<int>)
  {
    v.Some? && v.value != 0
  }

  /** JavaScript truthiness of a string field: present and not `""`. */
  predicate TruthyString(v: Option<string>)
  {
    v.Some? && v.value != ""
  }

  /**
   * `field?.toLowerCase().includes(termLower)`: a missing field yields `undefined`,
   * which counts as no match.
   */
  predicate IncludesLower(field: Option<string>, termLower: string)
  {
    field.Some? && Contains(ToLower(field.value), termLower)
  }

  /** `value?.toLowerCase() || fallback`: the lower-cased value, or the fallback when it is missing or empty. */
  function LowerOr(value: Option<string>, fallback: string): (r: string)
    ensures TruthyString(value) ==> r == ToLower(value.value) && |r| > 0
    ensures !TruthyString(value) ==> r == fallback
  {
    if value.Some? && ToLower(value.value) != "" then ToLower(value.value) else fallback
  }

  /** The status names the backend sends. */
  const PendingName: string := "PENDING"
  const InProgressName: string := "IN_PROGRESS"
  const CompletedName: string := "COMPLETED"
}
