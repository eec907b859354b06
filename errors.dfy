/** The error classes of utils/errors.js, as one error-kind value.
    `ChangelogMissingError` and `GitPullError` are declared but never thrown
    by the modelled code. `SlackConnection` stands for the rejection of a
    failed upload: the release-note creator imports `SlackConnectionError`,
    which utils/errors.js does not export, so the rejection it raises there
    is a `TypeError`. */
module Errors {

  datatype ErrorKind =
    | SlackTokenMissing
    | ProjectIconMissing
    | WronglyFormattedChangelog
    | ChangelogMissing
    | GitPull
    | SlackConnection
}
