/** The two functions of Python's `os.path` (POSIX flavour) the server code
    uses to build storage and archive paths. */
module PosixPath {

  const Sep: char := '/'

  /** `os.path.join(a, b)`: an absolute `b` replaces what came before; an
      empty `a` or one ending in `/` takes `b` as is; otherwise one `/` goes
      between them. */
  function Join(a: string, b: string): (r: string)
    ensures |b| > 0 && b[0] == Sep ==> r == b
    ensures !(|b| > 0 && b[0] == Sep) && (|a| == 0 || a[|a| - 1] == Sep) ==> r == a + b
    ensures !(|b| > 0 && b[0] == Sep) && |a| > 0 && a[|a| - 1] != Sep ==> r == a + [Sep] + b
  {
    if |b| > 0 && b[0] == Sep then b
    else if |a| == 0 || a[|a| - 1] == Sep then a + b
    else a + [Sep] + b
  }

  /** `os.path.join(a, b, c)`: joins left to right. */
  function Join3(a: string, b: string, c: string): string
  {
    Join(Join(a, b), c)
  }

  /** `os.path.basename(p)`: everything after the last `/`. */
  function Basename(p: string): (r: string)
    ensures Sep !in r
    ensures |r| <= |p| && r == p[|p| - |r|..]
  {
    if |p| == 0 || p[|p| - 1] == Sep then ""
    else Basename(p[..|p| - 1]) + [p[|p| - 1]]
  }

  /** A name without `/` is its own basename. */
  lemma {:induction false} BasenameOfName(name: string)
    requires Sep !in name
    ensures Basename(name) == name
  {
    if |name| > 0 {
      var init := name[..|name| - 1];
      assert name[|name| - 1] != Sep;
      assert forall k :: 0 <= k < |init| ==> init[k] == name[k];
      BasenameOfName(init);
      assert init + [name[|name| - 1]] == name;
    }
  }

  /** The basename of `dir/name` is `name` when `name` has no `/`. */
  lemma {:induction false} BasenameAfterSep(dir: string, name: string)
    requires Sep !in name
    ensures Basename(dir + [Sep] + name) == name
  {
    var p := dir + [Sep] + name;
    if |name| == 0 {
      assert p[|p| - 1] == Sep;
    } else {
      assert p[..|p| - 1] == dir + [Sep] + name[..|name| - 1];
      BasenameAfterSep(dir, name[..|name| - 1]);
      assert name[..|name| - 1] + [name[|name| - 1]] == name;
    }
  }
}
