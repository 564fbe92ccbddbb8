/** Size classification of the top-level entries: each entry goes into
    exactly one of four buckets, small or large files and small or large
    folders, where small means a size at most the threshold. */
module Classify {
  import opened Workspace

  datatype Kind = SmallFile | LargeFile | SmallFolder | LargeFolder

  /** The four buckets, each holding entry names in listing order. */
  datatype Buckets = Buckets(
    smalls: seq<string>,
    larges: seq<string>,
    smallFolders: seq<string>,
    largeFolders: seq<string>)

  /** The size an entry is classified by: the listed size of a
      non-directory, the walked size of a directory. */
  function EntrySize(e: Entry): Result<nat>
  {
    match e
    case FileEntry(_, s) => Ok(s)
    case DirEntry(_, t) => TreeSize(t)
  }

  /** No walk over any directory entry fails. */
  predicate Measurable(es: seq<Entry>)
  {
    forall i :: 0 <= i < |es| ==> EntrySize(es[i]).Ok?
  }

  /** `reason` is the error of the first entry whose walk fails. */
  predicate FirstFailure(es: seq<Entry>, reason: string)
  {
    exists i :: 0 <= i < |es| && EntrySize(es[i]) == Err(reason) &&
      forall j :: 0 <= j < i ==> EntrySize(es[j]).Ok?
  }

  function KindOf(threshold: int, e: Entry): Kind
    requires EntrySize(e).Ok?
  {
    var small := EntrySize(e).value <= threshold;
    if e.DirEntry? then (if small then SmallFolder else LargeFolder)
    else (if small then SmallFile else LargeFile)
  }

  function Names(es: seq<Entry>): seq<string>
  {
    if es == [] then [] else Names(es[..|es| - 1]) + [es[|es| - 1].name]
  }

  /** The names of the entries of kind `k`, in listing order. */
  function Bucket(threshold: int, es: seq<Entry>, k: Kind): seq<string>
    requires Measurable(es)
    decreases |es|
  {
    if es == [] then []
    else
      var last := es[|es| - 1];
      PrefixMeasurable(es, |es| - 1);
      Bucket(threshold, es[..|es| - 1], k) + (if KindOf(threshold, last) == k then [last.name] else [])
  }

  function Divided(threshold: int, es: seq<Entry>): Buckets
    requires Measurable(es)
  {
    Buckets(Bucket(threshold, es, SmallFile), Bucket(threshold, es, LargeFile),
            Bucket(threshold, es, SmallFolder), Bucket(threshold, es, LargeFolder))
  }

  predicate DistinctNames(es: seq<Entry>)
  {
    forall i, j :: 0 <= i < j < |es| ==> es[i].name != es[j].name
  }

  lemma PrefixMeasurable(es: seq<Entry>, n: nat)
    requires Measurable(es) && n <= |es|
    ensures Measurable(es[..n])
  {
    forall i | 0 <= i < n ensures EntrySize(es[..n][i]).Ok? {
      assert es[..n][i] == es[i];
    }
  }

  lemma ExtendMeasurable(es: seq<Entry>, n: nat)
    requires n < |es| && Measurable(es[..n]) && EntrySize(es[n]).Ok?
    ensures Measurable(es[..n + 1])
  {
    var longer := es[..n + 1];
    forall j | 0 <= j < |longer| ensures EntrySize(longer[j]).Ok? {
      if j < n { assert longer[j] == es[..n][j]; }
    }
  }

  /** Splits the listing into the four buckets, walking each directory to
      find its size; the first walk that fails aborts the whole split and
      only its error is returned. */
  method DivFilesBySize(threshold: int, es: seq<Entry>) returns (r: Result<Buckets>)
    ensures r.Ok? <==> Measurable(es)
    ensures r.Ok? ==> r.value == Divided(threshold, es)
    ensures r.Err? ==> FirstFailure(es, r.reason)
  {
    var smalls, larges, smallFolders, largeFolders := [], [], [], [];
    for i := 0 to |es|
      invariant Measurable(es[..i])
      invariant smalls == Bucket(threshold, es[..i], SmallFile)
      invariant larges == Bucket(threshold, es[..i], LargeFile)
      invariant smallFolders == Bucket(threshold, es[..i], SmallFolder)
      invariant largeFolders == Bucket(threshold, es[..i], LargeFolder)
    {
      var e := es[i];
      assert es[..i + 1][..i] == es[..i];
      if e.DirEntry? {
        var walked := DirSize(e.tree);
        if walked.Err? {
          assert forall j :: 0 <= j < i ==> EntrySize(es[j]).Ok? by {
            forall j | 0 <= j < i ensures EntrySize(es[j]).Ok? {
              assert es[..i][j] == es[j];
            }
          }
          return Err(walked.reason);
        }
        ExtendMeasurable(es, i);
        if walked.value <= threshold {
          smallFolders := smallFolders + [e.name];
        } else {
          largeFolders := largeFolders + [e.name];
        }
      } else {
        ExtendMeasurable(es, i);
        if e.size <= threshold {
          smalls := smalls + [e.name];
        } else {
          larges := larges + [e.name];
        }
      }
    }
    assert es[..|es|] == es;
    return Ok(Buckets(smalls, larges, smallFolders, largeFolders));
  }

  /** The buckets together hold every listed name exactly as often as the
      listing does: nothing is lost, nothing is duplicated. */
  lemma {:induction false} Partition(threshold: int, es: seq<Entry>)
    requires Measurable(es)
    ensures var b := Divided(threshold, es);
            multiset(b.smalls + b.larges + b.smallFolders + b.largeFolders) == multiset(Names(es))
    ensures var b := Divided(threshold, es);
            |b.smalls| + |b.larges| + |b.smallFolders| + |b.largeFolders| == |es|
    decreases |es|
  {
    var b := Divided(threshold, es);
    if es != [] {
      var init := es[..|es| - 1];
      PrefixMeasurable(es, |es| - 1);
      Partition(threshold, init);
      var a := Divided(threshold, init);
      var last := es[|es| - 1];
      assert multiset(b.smalls + b.larges + b.smallFolders + b.largeFolders)
          == multiset(a.smalls + a.larges + a.smallFolders + a.largeFolders) + multiset([last.name]);
    }
    assert |multiset(b.smalls + b.larges + b.smallFolders + b.largeFolders)| == |multiset(Names(es))|;
    NamesLength(es);
  }

  lemma {:induction false} NamesLength(es: seq<Entry>)
    ensures |Names(es)| == |es|
    decreases |es|
  {
    if es != [] { NamesLength(es[..|es| - 1]); }
  }

  /** A name is in bucket `k` exactly when some entry of that name has kind
      `k`. */
  lemma {:induction false} InBucket(threshold: int, es: seq<Entry>, k: Kind, x: string)
    requires Measurable(es)
    ensures x in Bucket(threshold, es, k) <==>
            exists i :: 0 <= i < |es| && es[i].name == x && KindOf(threshold, es[i]) == k
    decreases |es|
  {
    if es != [] {
      var n := |es| - 1;
      PrefixMeasurable(es, n);
      InBucket(threshold, es[..n], k, x);
      if x in Bucket(threshold, es, k) && x !in Bucket(threshold, es[..n], k) {
        assert es[n].name == x && KindOf(threshold, es[n]) == k;
      }
      if exists i :: 0 <= i < |es| && es[i].name == x && KindOf(threshold, es[i]) == k {
        var i :| 0 <= i < |es| && es[i].name == x && KindOf(threshold, es[i]) == k;
        if i < n {
          assert es[..n][i] == es[i];
        }
      }
    }
  }

  /** With the distinct names a directory listing has, every entry is in
      exactly one bucket: the one of its kind. */
  lemma ExactlyOneBucket(threshold: int, es: seq<Entry>, i: nat, k: Kind)
    requires Measurable(es) && DistinctNames(es) && i < |es|
    ensures es[i].name in Bucket(threshold, es, k) <==> k == KindOf(threshold, es[i])
  {
    InBucket(threshold, es, k, es[i].name);
  }

  /** Buckets keep listing order: splitting a listing in two splits every
      bucket at the same point. */
  lemma {:induction false} BucketAppend(threshold: int, a: seq<Entry>, b: seq<Entry>, k: Kind)
    requires Measurable(a + b)
    ensures Measurable(a) && Measurable(b)
    ensures Bucket(threshold, a + b, k) == Bucket(threshold, a, k) + Bucket(threshold, b, k)
    decreases |b|
  {
    assert Measurable(a) by {
      forall i | 0 <= i < |a| ensures EntrySize(a[i]).Ok? { assert (a + b)[i] == a[i]; }
    }
    assert Measurable(b) by {
      forall i | 0 <= i < |b| ensures EntrySize(b[i]).Ok? { assert (a + b)[|a| + i] == b[i]; }
    }
    if b == [] {
      assert a + b == a;
    } else {
      var n := |b| - 1;
      assert (a + b)[..|a + b| - 1] == a + b[..n];
      BucketAppend(threshold, a, b[..n], k);
    }
  }

  /** An entry whose size equals the threshold is small. */
  lemma AtThresholdIsSmall(threshold: int, es: seq<Entry>, i: nat)
    requires Measurable(es) && i < |es| && EntrySize(es[i]) == Ok(threshold)
    ensures es[i].FileEntry? ==> es[i].name in Bucket(threshold, es, SmallFile)
    ensures es[i].DirEntry? ==> es[i].name in Bucket(threshold, es, SmallFolder)
  {
    InBucket(threshold, es, KindOf(threshold, es[i]), es[i].name);
  }

  /** A folder's size counts every file below it, so a folder of small
      files can be large: files of 50 and 60 bytes make a 110-byte folder,
      large against a 100-byte threshold. */
  lemma LargeFolderOfSmallFiles()
    ensures var es := [DirEntry("data", Dir([File(50), File(60)]))];
            Measurable(es) &&
            Divided(100, es) == Buckets([], [], [], ["data"])
  {
    var es := [DirEntry("data", Dir([File(50), File(60)]))];
    assert TreeSize(es[0].tree) == Ok(110);
    assert es[..0] == [];
  }
}
