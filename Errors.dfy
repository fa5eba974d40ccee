/** The ways the modelled helpers of util.py can fail, each named after what
    goes wrong; the comment gives the Python exception that is raised. */
module Errors {

  datatype UtilError =
      // remove_parents: `ValueError`, the count is not below the part count
    | TooManyParents(toRemove: int, partCount: nat)
      // where_git: `GitException`, git is not on the PATH and the default
      // install directory does not exist
    | GitNotFound
      // git_version: `AttributeError`, the regex search found no `[0-9.]` run
    | NoVersionNumber
      // git_version: `IndexError`, the run has no `.`, so there is no minor part
    | MissingMinor
      // git_version: `ValueError` from `int("")`, a component of the run is empty
    | EmptyComponent
}
