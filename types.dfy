/**
 * The record shapes of lib/types.ts.
 */
module Types {

  /** A value that may be absent: `undefined`/`null` in the source. */
  datatype Option<+T> = None | Some(value: T)

  /** SQLite has no boolean: the `completed` column holds 0 or 1. */
  type Bit = b: int | 0 <= b <= 1

  /**
   * A point in time. The store writes `created_at`/`updated_at` as
   * "YYYY-MM-DD HH:MM:SS" text, whose text order is time order; only the
   * order is kept here.
   */
  type Timestamp = nat

  /** One row of the `tasks` table, as the handlers return it. */
  datatype Task = Task(
    id: int,
    title: string,
    description: Option<string>,   // nullable
    completed: Bit,
    createdAt: Timestamp,
    updatedAt: Timestamp)

  /** A create request that passed validation: the title is always there, the description is optional. */
  datatype CreateTaskInput = CreateTaskInput(title: string, description: Option<string>)

  /** A partial update: every field optional, and `completed` a real boolean rather than 0/1. */
  datatype UpdateTaskInput = UpdateTaskInput(
    title: Option<string>,
    description: Option<string>,
    completed: Option<bool>)
}
