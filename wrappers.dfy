/** Optional values: a Java reference that may be null, a lookup that may find nothing. */
module Wrappers {
  datatype Option<+T> = None | Some(value: T)
}

/** Calendar dates as day numbers. */
module Calendar {
  /** A `LocalDate` as the number of days since a fixed epoch: a later date is a larger number,
      `plusDays(n)` is `+ n` and `ChronoUnit.DAYS.between(a, b)` is `b - a`. The tables store a
      date as its `toString()` text, and SQLite compares those texts; comparing day numbers
      instead agrees with that only for years 0000 to 9999 (`+10000-01-01` sorts before
      `2024-01-01` as text). */
  type Date = int
}
