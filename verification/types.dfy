/**
 * The records the application passes around: an expense as the store and
 * the screens see it, and the request status both store slices keep.
 */
module Types {
  import opened Wrappers

  /** `ExpenseItem`. The amount stays text, as the form and the import
      produce it; `id` is the database key, absent before the first save. */
  datatype Expense = Expense(
    id: Option<string>,
    amount: string,
    category: string,
    description: string,
    date: string)

  /** `'idle' | 'loading' | 'succeeded' | 'failed'`. */
  datatype Status = Idle | Loading | Succeeded | Failed
}
