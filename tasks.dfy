/** The task record of the service and its emotion tags. */
module Tasks {
  import opened Wrappers

  /** The three emotion tags the ranking knows; any other string may appear. */
  const PLEASANT: string := "PLEASANT"
  const NEUTRAL: string := "NEUTRAL"
  const AVERSIVE: string := "AVERSIVE"

  /** One unit of work. `dueAt` is the raw deadline text (RFC 3339, or
      absent); `importance` is nominally 1..5 but is never validated. */
  datatype Task = Task(
    id: string,
    title: string,
    emotion: string,
    minutesNeeded: int,
    importance: int,
    dueAt: Option<string>)
}
