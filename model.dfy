/** Entities shared by the server modules: timers, change-queue entries and the
    rule that tells a locally created timer from one the calendar already knows. */
module Model {

  datatype Option<T> = None | Some(value: T) {
    /** `x || default` style fallback. */
    function GetOr(default: T): T {
      match this
      case Some(v) => v
      case None => default
    }
  }

  /** Length of the ids that nanoid generates on the server. A timer whose id
      has this length has never been pushed to the calendar, since calendar
      event ids have other lengths. */
  const LOCAL_ID_LENGTH: nat := 21

  predicate IsLocal(id: string) {
    |id| == LOCAL_ID_LENGTH
  }

  /** A timer's `end`: an instant in milliseconds, `null` (what the client
      sends for a running timer), or absent (a timer the server has just
      created). */
  datatype End = At(time: int) | Null | Undefined

  /** A timer as the archive stores it. `start` is an instant in milliseconds.
      An absent `title` or `description` is written "", which the source's
      `||` fallbacks treat exactly like undefined. */
  datatype Timer = Timer(id: string, start: int, end: End, title: string, description: string)

  function TimerId(t: Timer): string { t.id }

  /** `timer.end == null`, which holds for a null and for an absent end. */
  predicate IsRunning(t: Timer) { !t.end.At? }

  /** The three change tags a queue entry can carry. */
  datatype Change = New | Update | Delete

  /** One queue entry `{[change]: timer}`. `timer` is None when the entry's value
      is falsy, as in an entry the store holds as `{new: null}`. */
  datatype Entry = Entry(change: Change, timer: Option<Timer>)

  /** The entry has a timer, and that timer has the given id. */
  predicate IsFor(e: Entry, id: string) {
    e.timer.Some? && e.timer.value.id == id
  }
}
