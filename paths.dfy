/** Joining a directory and a file name, as `os.path.join(root, name)` does
    with the POSIX rules and '/' as the separator. */
module Paths {

  const Sep: char := '/'

  /** A name that starts with the separator is absolute. */
  predicate IsAbsolute(name: string) {
    |name| > 0 && name[0] == Sep
  }

  /** An absolute `name` replaces `root`; otherwise one separator goes
      between them, unless `root` is empty or already ends with one. */
  function Join(root: string, name: string): (p: string)
    ensures |name| <= |p| && p[|p| - |name|..] == name
    ensures !IsAbsolute(name) ==> root <= p
    ensures !IsAbsolute(name) ==> |p| <= |root| + 1 + |name|
    ensures !IsAbsolute(name) && root != [] && name != [] ==> |p| > |name| && p[|p| - |name| - 1] == Sep
    ensures IsAbsolute(name) ==> p == name
  {
    if IsAbsolute(name) then name
    else if root == [] || root[|root| - 1] == Sep then root + name
    else root + [Sep] + name
  }
}
