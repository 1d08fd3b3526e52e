/**
 * What filepath.Walk hands to a walk callback for one visited entry: its path,
 * its base name, whether it is a directory, and whether visiting it failed.
 * The traversal itself is not modelled; a walk is the sequence of these entries
 * in the order filepath.Walk visits them.
 */
module FileWalk {

  datatype WalkEntry = WalkEntry(path: string, name: string, isDir: bool, failed: bool)
}
