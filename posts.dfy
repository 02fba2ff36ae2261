/**
 * An entry as the dashboard and the archive see it. Timestamps are abstract
 * numbers; the calendar year and the month name of a timestamp are given as
 * functions by the caller.
 */
module Posts {
  import opened Wrappers

  datatype Post = Post(
    id: string, title: string, mood: string, isPublished: bool, media: string,
    date: Option<int>, createdAt: int)

  /** `post.date || post.createdAt`: the moment an entry is filed under. */
  function When(p: Post): int {
    if p.date.Some? then p.date.value else p.createdAt
  }
}
