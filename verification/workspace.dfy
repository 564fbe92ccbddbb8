/** The project directory as the Dockerfile generator sees it: top-level
    entries from the directory listing and, below each directory, what a
    recursive file-system walk finds. */
module Workspace {

  /** Outcome of a step that can fail with a file-system error. */
  datatype Result<T> = Ok(value: T) | Err(reason: string)

  /** What a walk finds at one path: a non-directory with its byte size, a
      directory with its children in lexical (name-sorted) order, or a path whose metadata
      or listing cannot be read (the walk reports `reason`). */
  datatype Tree = File(size: nat) | Dir(children: seq<Tree>) | Unreadable(reason: string)

  /** A top-level entry of the project directory: a non-directory with the
      size the listing reports, or a directory with what a walk rooted at it
      finds. */
  datatype Entry = FileEntry(name: string, size: nat) | DirEntry(name: string, tree: Tree)

  /** Adds `n` bytes to a walk outcome; an error stays an error. */
  function AddSize(n: nat, r: Result<nat>): Result<nat>
  {
    match r
    case Ok(m) => Ok(n + m)
    case Err(why) => Err(why)
  }

  /** Walk outcome of a sequence of trees: the first error met in walk order
      (depth first, children in lexical, name-sorted order), otherwise the total size of
      the non-directories; directories themselves add nothing. */
  function ForestSize(ts: seq<Tree>): Result<nat>
    decreases ts
  {
    if ts == [] then Ok(0)
    else
      match ts[0]
      case File(s) => AddSize(s, ForestSize(ts[1..]))
      case Unreadable(why) => Err(why)
      case Dir(cs) =>
        match ForestSize(cs)
        case Err(why) => Err(why)
        case Ok(m) => AddSize(m, ForestSize(ts[1..]))
  }

  /** Walk outcome of the tree rooted at one path. */
  function TreeSize(t: Tree): Result<nat>
  {
    ForestSize([t])
  }

  /** Number of nodes a walk visits. */
  function Count(ts: seq<Tree>): nat
    decreases ts
  {
    if ts == [] then 0
    else
      match ts[0]
      case Dir(cs) => 1 + Count(cs) + Count(ts[1..])
      case _ => 1 + Count(ts[1..])
  }

  /** Sizes of every non-directory in walk order. */
  function FileSizes(ts: seq<Tree>): seq<nat>
    decreases ts
  {
    if ts == [] then []
    else
      match ts[0]
      case File(s) => [s] + FileSizes(ts[1..])
      case Unreadable(_) => FileSizes(ts[1..])
      case Dir(cs) => FileSizes(cs) + FileSizes(ts[1..])
  }

  /** Reasons of every unreadable path in walk order. */
  function Failures(ts: seq<Tree>): seq<string>
    decreases ts
  {
    if ts == [] then []
    else
      match ts[0]
      case File(_) => Failures(ts[1..])
      case Unreadable(why) => [why] + Failures(ts[1..])
      case Dir(cs) => Failures(cs) + Failures(ts[1..])
  }

  function Sum(xs: seq<nat>): nat
  {
    if xs == [] then 0 else xs[0] + Sum(xs[1..])
  }

  lemma {:induction false} SumAppend(a: seq<nat>, b: seq<nat>)
    ensures Sum(a + b) == Sum(a) + Sum(b)
  {
    if a != [] {
      assert (a + b)[1..] == a[1..] + b;
      SumAppend(a[1..], b);
    } else {
      assert a + b == b;
    }
  }

  /** Walking two sequences of trees one after the other: the first error of
      the first, else its size added to the outcome of the second. */
  lemma {:induction false} ForestSizeAppend(a: seq<Tree>, b: seq<Tree>)
    ensures ForestSize(a + b) ==
            match ForestSize(a)
            case Err(why) => Err(why)
            case Ok(m) => AddSize(m, ForestSize(b))
    decreases a
  {
    if a != [] {
      assert (a + b)[0] == a[0];
      assert (a + b)[1..] == a[1..] + b;
      ForestSizeAppend(a[1..], b);
    } else {
      assert a + b == b;
    }
  }

  lemma {:induction false} CountAppend(a: seq<Tree>, b: seq<Tree>)
    ensures Count(a + b) == Count(a) + Count(b)
    decreases a
  {
    if a != [] {
      assert (a + b)[0] == a[0];
      assert (a + b)[1..] == a[1..] + b;
      CountAppend(a[1..], b);
    } else {
      assert a + b == b;
    }
  }

  /** The walk outcome, stated without the walk: it fails exactly when some
      path is unreadable, with the first such path's reason, and otherwise it
      is the sum of the sizes of all non-directory descendants. */
  lemma {:induction false} ForestSizeIsSumOfFiles(ts: seq<Tree>)
    ensures ForestSize(ts) ==
            if Failures(ts) == [] then Ok(Sum(FileSizes(ts))) else Err(Failures(ts)[0])
    decreases ts
  {
    if ts != [] {
      ForestSizeIsSumOfFiles(ts[1..]);
      match ts[0]
      case File(s) =>
      case Unreadable(_) =>
      case Dir(cs) =>
        ForestSizeIsSumOfFiles(cs);
        SumAppend(FileSizes(cs), FileSizes(ts[1..]));
    }
  }

  /** The size of a directory: a walk rooted at it that adds the size of
      every non-directory it visits and stops at the first path it cannot
      read. */
  method DirSize(root: Tree) returns (r: Result<nat>)
    ensures r == TreeSize(root)
    ensures r == if Failures([root]) == [] then Ok(Sum(FileSizes([root])))
                 else Err(Failures([root])[0])
  {
    var size: nat := 0;
    var pending := [root];
    while pending != []
      invariant AddSize(size, ForestSize(pending)) == TreeSize(root)
      decreases Count(pending)
    {
      var rest := pending[1..];
      match pending[0]
      case File(s) =>
        size := size + s;
        pending := rest;
      case Dir(cs) =>
        ForestSizeAppend(cs, rest);
        CountAppend(cs, rest);
        pending := cs + rest;
      case Unreadable(why) =>
        ForestSizeIsSumOfFiles([root]);
        return Err(why);
    }
    ForestSizeIsSumOfFiles([root]);
    return Ok(size);
  }
}
