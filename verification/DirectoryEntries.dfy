/** The two directory entries that every reader of a directory passes over. */
module DirectoryEntries {

  predicate IsDots(name: string) {
    name == "." || name == ".."
  }
}
