/** The records the wiki client hands to the two statistics passes.

    The client itself (site lookup, `allusers()`, `contributions()`,
    `oldest_revision`, `getOldVersion()`) is not modelled: its answers are
    taken as plain values, already bounded by the requested time window. */
module Records {

  datatype Option<T> = None | Some(value: T)

  /** One entry of the user listing: the account name and its lifetime edit count. */
  datatype User = User(name: string, editcount: int)

  /** One contribution of a user: the edited page's full title, the revision
      id of the edit, the id and wikitext of the page's oldest revision, and
      the calendar year, month and ISO-8601 week number of the edit's
      timestamp. */
  datatype Contribution = Contribution(
    title: string,
    revid: int,
    oldestRevid: int,
    oldestText: string,
    year: nat,
    month: nat,
    isoWeek: nat)
}
