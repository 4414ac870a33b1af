/** The `Task` record of the application. */
module Tasks {

  datatype Option<T> = None | Some(value: T)

  /** One to-do item. `id` is `None` until the store has saved the task;
      `dueDate` is the "yyyy-MM-dd" text the date widget produces, kept opaque;
      `priority` is free text ("Low", "Medium" or "High" when it comes from the
      dialog's drop-down, anything at all when it comes from a CSV file). */
  datatype Task = Task(
    id: Option<int>,
    title: string,
    description: string,
    dueDate: string,
    priority: string,
    completed: bool,
    category: string)

  /** `a` is `b` with some elements left out, the rest in their order. */
  predicate IsSubsequence<T(==)>(a: seq<T>, b: seq<T>)
    decreases |b|
  {
    a == [] || (b != [] && ((a[0] == b[0] && IsSubsequence(a[1..], b[1..])) || IsSubsequence(a, b[1..])))
  }

  /** Concatenation is associative. */
  lemma ConcatAssoc<T>(a: seq<T>, b: seq<T>, c: seq<T>)
    ensures a + (b + c) == (a + b) + c
  {
  }
}
