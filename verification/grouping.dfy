/** Group planning: how the classified entries become the groups behind the
    Dockerfile's COPY instructions. File groups become one COPY each; every
    entry of a folder group gets its own COPY. */
module Grouping {
  import opened Workspace
  import opened Classify

  datatype Plan = Plan(fileGroups: seq<seq<string>>, folderGroups: seq<seq<string>>)

  /** All names of a list of groups, group after group. */
  function Flatten(gs: seq<seq<string>>): seq<string>
  {
    if gs == [] then [] else Flatten(gs[..|gs| - 1]) + gs[|gs| - 1]
  }

  /** One group holding all of `names`, or no group when there are none. */
  function WholeGroup(names: seq<string>): seq<seq<string>>
  {
    if |names| > 0 then [names] else []
  }

  /** Every name in a group of its own, in order. */
  function Singletons(names: seq<string>): seq<seq<string>>
  {
    seq(|names|, i requires 0 <= i < |names| => [names[i]])
  }

  lemma SliceBounds(q: nat, n: nat, k: nat)
    requires q < n
    ensures (q + 1) * k == q * k + k
    ensures (q + 1) * k <= n * k
  {
    assert (q + 1) * k == q * k + k;
    var d := n - (q + 1);
    assert n * k == (q + 1) * k + d * k;
  }

  lemma DivBounds(m: nat, n: int)
    requires n >= 1
    ensures 0 <= n * (m / n) <= m
    ensures m - n * (m / n) == m % n
  {
  }

  /** `n` consecutive slices of `k` names each, from the start of `names`. */
  function Slices(names: seq<string>, n: nat, k: nat): seq<seq<string>>
    requires n * k <= |names|
  {
    seq(n, q requires 0 <= q < n => SliceBounds(q, n, k); names[q * k .. (q + 1) * k])
  }

  lemma SlicesSnoc(names: seq<string>, q: nat, k: nat)
    requires (q + 1) * k <= |names|
    ensures q * k <= (q + 1) * k
    ensures Slices(names, q + 1, k) == Slices(names, q, k) + [names[q * k .. (q + 1) * k]]
  {
    SliceBounds(q, q + 1, k);
  }

  /** The slices the small files are cut into when there are more of them
      than groups: `numGroups` slices of `|smalls| / numGroups` files. */
  function EvenSlices(smalls: seq<string>, numGroups: int): seq<seq<string>>
    requires numGroups >= 1
  {
    DivBounds(|smalls|, numGroups);
    Slices(smalls, numGroups, |smalls| / numGroups)
  }

  /** The small files left over after those slices. */
  function Leftover(smalls: seq<string>, numGroups: int): seq<string>
    requires numGroups >= 1
  {
    DivBounds(|smalls|, numGroups);
    smalls[numGroups * (|smalls| / numGroups)..]
  }

  /** The slices have `|smalls| / numGroups` files each, the leftover has
      `|smalls| % numGroups`, and slices then leftover give back the small
      files in order. */
  lemma EvenSlicesCover(smalls: seq<string>, numGroups: int)
    requires numGroups >= 1
    ensures |EvenSlices(smalls, numGroups)| == numGroups
    ensures forall q :: 0 <= q < numGroups ==> |EvenSlices(smalls, numGroups)[q]| == |smalls| / numGroups
    ensures |Leftover(smalls, numGroups)| == |smalls| % numGroups
    ensures Flatten(EvenSlices(smalls, numGroups)) + Leftover(smalls, numGroups) == smalls
  {
    var k := |smalls| / numGroups;
    DivBounds(|smalls|, numGroups);
    forall q | 0 <= q < numGroups ensures |EvenSlices(smalls, numGroups)[q]| == k {
      SliceBounds(q, numGroups, k);
    }
    FlattenSlices(smalls, numGroups, k);
    assert smalls[..numGroups * k] + smalls[numGroups * k..] == smalls;
  }

  /** The file groups as generator.go builds them: the large files in one
      group, then the small files, each alone when there are at most
      `numGroups` of them, otherwise in `numGroups` slices of
      `|smalls| / numGroups` files with the rest appended to the group at
      position `numGroups - 1` of the whole list, which counts the
      large-file group too. */
  function FileGroupsAsWritten(numGroups: int, larges: seq<string>, smalls: seq<string>): seq<seq<string>>
    requires numGroups >= 1
  {
    if |smalls| <= numGroups then WholeGroup(larges) + Singletons(smalls)
    else SpreadAsWritten(WholeGroup(larges), smalls, numGroups)
  }

  /** The even split of generator.go: the even slices appended to the
      groups `ret` already holds, then the leftover appended to the group at
      position `numGroups - 1` of the whole list. */
  function SpreadAsWritten(ret: seq<seq<string>>, smalls: seq<string>, numGroups: int): seq<seq<string>>
    requires numGroups >= 1
  {
    var grouped := ret + EvenSlices(smalls, numGroups);
    var rest := Leftover(smalls, numGroups);
    if rest != [] then grouped[numGroups - 1 := grouped[numGroups - 1] + rest] else grouped
  }

  /** The folder groups as the program builds them in generator.go: each
      non-empty folder bucket is appended to the FILE group list, not to the
      folder list, so the result starts with the large-file group and a
      small-folder group replaces a large-folder group. */
  function FolderGroupsAsWritten(larges: seq<string>, smallFolders: seq<string>, largeFolders: seq<string>): seq<seq<string>>
  {
    if |smallFolders| > 0 then WholeGroup(larges) + [smallFolders]
    else if |largeFolders| > 0 then WholeGroup(larges) + [largeFolders]
    else []
  }

  function PlanAsWritten(numGroups: int, threshold: int, es: seq<Entry>): Plan
    requires numGroups >= 1 && Measurable(es)
  {
    var b := Divided(threshold, es);
    Plan(FileGroupsAsWritten(numGroups, b.larges, b.smalls),
         FolderGroupsAsWritten(b.larges, b.smallFolders, b.largeFolders))
  }

  /** Classifies the listing and plans its groups; a failed directory walk
      aborts the plan with that walk's error. */
  method GroupFiles(numGroups: int, threshold: int, es: seq<Entry>) returns (r: Result<Plan>)
    requires numGroups >= 1
    ensures r.Ok? <==> Measurable(es)
    ensures r.Ok? ==> r.value == PlanAsWritten(numGroups, threshold, es)
    ensures r.Err? ==> FirstFailure(es, r.reason)
  {
    var divided := DivFilesBySize(threshold, es);
    if divided.Err? {
      return Err(divided.reason);
    }
    var smalls, larges := divided.value.smalls, divided.value.larges;
    var smallFolders, largeFolders := divided.value.smallFolders, divided.value.largeFolders;
    var ret: seq<seq<string>> := [];
    var retFolder: seq<seq<string>> := [];

    if |larges| > 0 {
      ret := ret + [larges];
    }
    if |largeFolders| > 0 {
      retFolder := ret + [largeFolders];
    }
    if |smallFolders| > 0 {
      retFolder := ret + [smallFolders];
    }

    var numSmalls := |smalls|;
    if numSmalls <= numGroups {
      for n := 0 to numSmalls
        invariant ret == WholeGroup(larges) + Singletons(smalls[..n])
      {
        assert Singletons(smalls[..n + 1]) == Singletons(smalls[..n]) + [[smalls[n]]];
        ret := ret + [[smalls[n]]];
      }
      assert smalls[..numSmalls] == smalls;
      return Ok(Plan(ret, retFolder));
    }

    ret := SpreadSmalls(ret, smalls, numGroups);
    return Ok(Plan(ret, retFolder));
  }

  /** Cuts the small files into `numGroups` slices of `|smalls| / numGroups`
      files with one cursor shared by both loops, and appends the leftover
      files to the group at position `numGroups - 1`. */
  method SpreadSmalls(ret: seq<seq<string>>, smalls: seq<string>, numGroups: int) returns (groups: seq<seq<string>>)
    requires numGroups >= 1
    ensures groups == SpreadAsWritten(ret, smalls, numGroups)
  {
    groups := ret;
    var numSmalls := |smalls|;
    var filePerGroup, i := numSmalls / numGroups, 0;
    DivBounds(numSmalls, numGroups);
    for q := 0 to numGroups
      invariant q * filePerGroup <= numSmalls
      invariant i == q * filePerGroup
      invariant groups == ret + Slices(smalls, q, filePerGroup)
    {
      SliceBounds(q, numGroups, filePerGroup);
      var curGrp: seq<string> := [];
      for j := 0 to filePerGroup
        invariant i == q * filePerGroup + j
        invariant curGrp == smalls[q * filePerGroup .. i]
      {
        curGrp := curGrp + [smalls[i]];
        i := i + 1;
      }
      groups := groups + [curGrp];
      SlicesSnoc(smalls, q, filePerGroup);
    }
    assert smalls[i..] == Leftover(smalls, numGroups);
    if i < numSmalls {
      groups := groups[numGroups - 1 := groups[numGroups - 1] + smalls[i..]];
    }
  }

  // ----- Flatten -----

  lemma {:induction false} FlattenAppend(a: seq<seq<string>>, b: seq<seq<string>>)
    ensures Flatten(a + b) == Flatten(a) + Flatten(b)
    decreases |b|
  {
    if b == [] {
      assert a + b == a;
    } else {
      var n := |b| - 1;
      assert (a + b)[..|a + b| - 1] == a + b[..n];
      FlattenAppend(a, b[..n]);
    }
  }

  lemma FlattenWholeGroup(names: seq<string>)
    ensures Flatten(WholeGroup(names)) == names
  {
    if |names| > 0 {
      assert WholeGroup(names)[..0] == [];
    }
  }

  lemma {:induction false} FlattenSingletons(names: seq<string>)
    ensures Flatten(Singletons(names)) == names
    decreases |names|
  {
    if names != [] {
      var n := |names| - 1;
      assert Singletons(names)[..n] == Singletons(names[..n]);
      FlattenSingletons(names[..n]);
      assert names == names[..n] + [names[n]];
    }
  }

  lemma {:induction false} FlattenSlices(names: seq<string>, n: nat, k: nat)
    requires n * k <= |names|
    ensures Flatten(Slices(names, n, k)) == names[..n * k]
    decreases n
  {
    if n > 0 {
      SlicesSnoc(names, n - 1, k);
      assert Slices(names, n, k)[..n - 1] == Slices(names, n - 1, k);
      FlattenSlices(names, n - 1, k);
      assert names[..n * k] == names[..(n - 1) * k] + names[(n - 1) * k .. n * k];
    }
  }

  /** Appending names to one group adds exactly those names. */
  lemma {:induction false} FlattenGrow(gs: seq<seq<string>>, i: nat, t: seq<string>)
    requires i < |gs|
    ensures Flatten(gs[i := gs[i] + t]) ==
            Flatten(gs[..i]) + gs[i] + t + Flatten(gs[i + 1..])
  {
    var before, after := gs[..i], gs[i + 1..];
    assert gs[i := gs[i] + t] == before + [gs[i] + t] + after;
    FlattenThree(before, gs[i] + t, after);
  }

  lemma FlattenSplitAt(gs: seq<seq<string>>, i: nat)
    requires i < |gs|
    ensures Flatten(gs) == Flatten(gs[..i]) + gs[i] + Flatten(gs[i + 1..])
  {
    var before, after := gs[..i], gs[i + 1..];
    assert before + [gs[i]] + after == gs;
    FlattenThree(before, gs[i], after);
  }

  lemma FlattenThree(before: seq<seq<string>>, g: seq<string>, after: seq<seq<string>>)
    ensures Flatten(before + [g] + after) == Flatten(before) + g + Flatten(after)
  {
    FlattenAppend(before + [g], after);
    FlattenAppend(before, [g]);
    assert Flatten([g]) == g by {
      assert [g][..0] == [];
    }
  }

  // ----- Properties of the file groups as written -----

  /** The file groups begin with the large-file group exactly when there is
      a large file. */
  lemma LargeFilesFirst(numGroups: int, larges: seq<string>, smalls: seq<string>)
    requires numGroups >= 1
    ensures var fg := FileGroupsAsWritten(numGroups, larges, smalls);
            |larges| > 0 <==> |fg| > 0 && fg[0] == larges
  {
  }

  /** With at most `numGroups` small files, each is a group of its own, in
      listing order, after the optional large-file group, and no empty group
      pads the list. */
  lemma FewSmallFiles(numGroups: int, larges: seq<string>, smalls: seq<string>)
    requires numGroups >= 1 && |smalls| <= numGroups
    ensures var fg := FileGroupsAsWritten(numGroups, larges, smalls);
            var p := |WholeGroup(larges)|;
            |fg| == p + |smalls| &&
            (forall q :: p <= q < |fg| ==> |fg[q]| == 1) &&
            Flatten(fg) == larges + smalls
  {
    var fg := FileGroupsAsWritten(numGroups, larges, smalls);
    FlattenAppend(WholeGroup(larges), Singletons(smalls));
    FlattenWholeGroup(larges);
    FlattenSingletons(smalls);
  }

  /** Whatever the counts, the file groups hold the large and the small
      files, each exactly once. */
  lemma FileGroupsPermutation(numGroups: int, larges: seq<string>, smalls: seq<string>)
    requires numGroups >= 1
    ensures multiset(Flatten(FileGroupsAsWritten(numGroups, larges, smalls))) == multiset(larges + smalls)
  {
    if |smalls| <= numGroups {
      FewSmallFiles(numGroups, larges, smalls);
    } else {
      SpreadPermutation(WholeGroup(larges), smalls, numGroups);
      FlattenWholeGroup(larges);
    }
  }

  /** However the leftover is placed, spreading adds the small files, each
      once, to the groups already there. */
  lemma SpreadPermutation(ret: seq<seq<string>>, smalls: seq<string>, numGroups: int)
    requires numGroups >= 1
    ensures multiset(Flatten(SpreadAsWritten(ret, smalls, numGroups))) == multiset(Flatten(ret) + smalls)
  {
    var split, rest := EvenSlices(smalls, numGroups), Leftover(smalls, numGroups);
    EvenSlicesCover(smalls, numGroups);
    var grouped := ret + split;
    assert Flatten(grouped) + rest == Flatten(ret) + smalls by {
      FlattenAppend(ret, split);
    }
    if rest != [] {
      var n := numGroups - 1;
      assert Flatten(grouped[n := grouped[n] + rest]) ==
             Flatten(grouped[..n]) + grouped[n] + rest + Flatten(grouped[n + 1..]) by {
        FlattenGrow(grouped, n, rest);
      }
      assert Flatten(grouped) == Flatten(grouped[..n]) + grouped[n] + Flatten(grouped[n + 1..]) by {
        FlattenSplitAt(grouped, n);
      }
    }
  }

  /** As written, the file groups equal the intended ones when there is no
      large file or the small files divide evenly; with the shipped group
      count of one the latter always holds. */
  lemma AsWrittenMatchesIntended(numGroups: int, larges: seq<string>, smalls: seq<string>)
    requires numGroups >= 1
    requires |larges| == 0 || |smalls| % numGroups == 0
    ensures FileGroupsAsWritten(numGroups, larges, smalls) == FileGroupsIntended(numGroups, larges, smalls)
  {
    if |smalls| > numGroups {
      var split, rest := EvenSlices(smalls, numGroups), Leftover(smalls, numGroups);
      EvenSlicesCover(smalls, numGroups);
      var n := numGroups - 1;
      if rest == [] {
        assert split[n] + rest == split[n];
        assert split[n := split[n] + rest] == split;
      } else {
        assert WholeGroup(larges) == [];
        assert WholeGroup(larges) + split == split;
      }
    }
  }

  /** Ten small files in three groups, with one large file present: the
      remainder joins the middle small group, and the small groups no longer
      read in listing order. */
  lemma RemainderMisplacedWithLargeFiles()
    ensures var smalls := ["a", "b", "c", "d", "e", "f", "g", "h", "i", "j"];
            var fg := FileGroupsAsWritten(3, ["model.bin"], smalls);
            fg == [["model.bin"], ["a", "b", "c"], ["d", "e", "f", "j"], ["g", "h", "i"]] &&
            Flatten(fg[1..]) != smalls
  {
    var smalls := ["a", "b", "c", "d", "e", "f", "g", "h", "i", "j"];
    var fg := FileGroupsAsWritten(3, ["model.bin"], smalls);
    assert |smalls| / 3 == 3;
    var s := EvenSlices(smalls, 3);
    assert s == Slices(smalls, 3, 3);
    assert s[0] == ["a", "b", "c"];
    assert s[1] == ["d", "e", "f"];
    assert s[2] == ["g", "h", "i"];
    assert Leftover(smalls, 3) == ["j"];
    assert s == [s[0], s[1], s[2]];
    var grouped := [["model.bin"]] + s;
    assert grouped == [["model.bin"], ["a", "b", "c"], ["d", "e", "f"], ["g", "h", "i"]];
    assert fg == grouped[2 := grouped[2] + ["j"]];
    assert grouped[2] + ["j"] == ["d", "e", "f", "j"];
    assert fg == [["model.bin"], ["a", "b", "c"], ["d", "e", "f", "j"], ["g", "h", "i"]];
    var tail := fg[1..];
    FlattenSplitAt(tail, 1);
    assert Flatten(tail[..1]) == ["a", "b", "c"] by {
      assert tail[..1][..0] == [];
    }
    assert Flatten(tail)[6] == "j";
  }

  // ----- Properties of the folder groups as written -----

  /** What the folder groups hold as written: the large files followed by
      the small folders if there are any, else by the large folders. */
  lemma FolderOutputAsWritten(larges: seq<string>, smallFolders: seq<string>, largeFolders: seq<string>)
    ensures Flatten(FolderGroupsAsWritten(larges, smallFolders, largeFolders)) ==
            if |smallFolders| > 0 then larges + smallFolders
            else if |largeFolders| > 0 then larges + largeFolders
            else []
  {
    FlattenWholeGroup(larges);
    if |smallFolders| > 0 {
      FlattenAppend(WholeGroup(larges), [smallFolders]);
      assert [smallFolders][..0] == [];
    } else if |largeFolders| > 0 {
      FlattenAppend(WholeGroup(larges), [largeFolders]);
      assert [largeFolders][..0] == [];
    }
  }

  /** A listing with a large file, a large folder and a small folder,
      against a 100-byte threshold. */
  const MixedListing: seq<Entry> :=
    [FileEntry("model.bin", 300), DirEntry("data", Dir([File(500)])), DirEntry("src", Dir([File(10)]))]

  lemma MixedListingBuckets()
    ensures Measurable(MixedListing)
    ensures Divided(100, MixedListing) == Buckets([], ["model.bin"], ["src"], ["data"])
  {
    var es := MixedListing;
    assert TreeSize(es[1].tree) == Ok(500);
    assert TreeSize(es[2].tree) == Ok(10);
    assert KindOf(100, es[0]) == LargeFile;
    assert KindOf(100, es[1]) == LargeFolder;
    assert KindOf(100, es[2]) == SmallFolder;
    assert es[..2][..1] == es[..1] && es[..1][..0] == [];
    forall k: Kind ensures Bucket(100, es, k) ==
        (if k == LargeFile then ["model.bin"] else []) +
        (if k == LargeFolder then ["data"] else []) +
        (if k == SmallFolder then ["src"] else [])
    {
      assert Bucket(100, es[..1], k) == if k == LargeFile then ["model.bin"] else [];
    }
  }

  /** On that listing the plan copies the large file in both channels and
      the large folder in neither. */
  lemma LargeFolderLost()
    ensures Measurable(MixedListing)
    ensures var plan := PlanAsWritten(1, 100, MixedListing);
            plan.fileGroups == [["model.bin"]] &&
            plan.folderGroups == [["model.bin"], ["src"]] &&
            "data" !in Flatten(plan.fileGroups) + Flatten(plan.folderGroups)
  {
    MixedListingBuckets();
    var b := Divided(100, MixedListing);
    FolderOutputAsWritten(b.larges, b.smallFolders, b.largeFolders);
    FewSmallFiles(1, b.larges, b.smalls);
  }

  // ----- The plan the comments describe -----

  /** File groups with the remainder appended to the LAST small group. */
  function FileGroupsIntended(numGroups: int, larges: seq<string>, smalls: seq<string>): seq<seq<string>>
    requires numGroups >= 1
  {
    if |smalls| <= numGroups then WholeGroup(larges) + Singletons(smalls)
    else
      var split := EvenSlices(smalls, numGroups);
      WholeGroup(larges) + split[numGroups - 1 := split[numGroups - 1] + Leftover(smalls, numGroups)]
  }

  /** Folder groups with the large folders, then the small folders, each in
      a group of its own. */
  function FolderGroupsIntended(smallFolders: seq<string>, largeFolders: seq<string>): seq<seq<string>>
  {
    WholeGroup(largeFolders) + WholeGroup(smallFolders)
  }

  function PlanIntended(numGroups: int, threshold: int, es: seq<Entry>): Plan
    requires numGroups >= 1 && Measurable(es)
  {
    var b := Divided(threshold, es);
    Plan(FileGroupsIntended(numGroups, b.larges, b.smalls),
         FolderGroupsIntended(b.smallFolders, b.largeFolders))
  }

  /** The intended even split: above `numGroups` small files there are
      exactly `numGroups` small groups, all of `|smalls| / numGroups` files
      but the last, which also takes the remainder, and together they are
      the small files in listing order. */
  lemma IntendedEvenSplit(numGroups: int, larges: seq<string>, smalls: seq<string>)
    requires numGroups >= 1 && |smalls| > numGroups
    ensures var fg := FileGroupsIntended(numGroups, larges, smalls);
            var p := |WholeGroup(larges)|;
            var k := |smalls| / numGroups;
            |fg| == p + numGroups &&
            (forall q :: p <= q < p + numGroups - 1 ==> |fg[q]| == k) &&
            |fg[p + numGroups - 1]| == k + |smalls| % numGroups &&
            Flatten(fg[p..]) == smalls
  {
    var fg := FileGroupsIntended(numGroups, larges, smalls);
    var p := |WholeGroup(larges)|;
    var split, rest := EvenSlices(smalls, numGroups), Leftover(smalls, numGroups);
    EvenSlicesCover(smalls, numGroups);
    var n := numGroups - 1;
    var grown := split[n := split[n] + rest];
    assert fg[p..] == grown;
    forall q | p <= q < p + n ensures |fg[q]| == |smalls| / numGroups {
      assert fg[q] == split[q - p];
    }
    assert Flatten(grown) == Flatten(split) + rest by {
      FlattenGrow(split, n, rest);
      FlattenSplitAt(split, n);
      assert split[n + 1..] == [];
    }
  }

  /** The intended file groups are the large files, then the small files,
      in listing order. */
  lemma IntendedFileGroupsInOrder(numGroups: int, larges: seq<string>, smalls: seq<string>)
    requires numGroups >= 1
    ensures Flatten(FileGroupsIntended(numGroups, larges, smalls)) == larges + smalls
  {
    var fg := FileGroupsIntended(numGroups, larges, smalls);
    var p := |WholeGroup(larges)|;
    FlattenWholeGroup(larges);
    if |smalls| <= numGroups {
      FewSmallFiles(numGroups, larges, smalls);
    } else {
      IntendedEvenSplit(numGroups, larges, smalls);
      assert fg == WholeGroup(larges) + fg[p..];
      FlattenAppend(WholeGroup(larges), fg[p..]);
    }
  }

  /** Every listed entry appears in exactly one group of the intended plan. */
  lemma IntendedPlanCoversEveryEntry(numGroups: int, threshold: int, es: seq<Entry>)
    requires numGroups >= 1 && Measurable(es)
    ensures var plan := PlanIntended(numGroups, threshold, es);
            multiset(Flatten(plan.fileGroups) + Flatten(plan.folderGroups)) == multiset(Names(es))
  {
    var b := Divided(threshold, es);
    IntendedFileGroupsInOrder(numGroups, b.larges, b.smalls);
    FlattenAppend(WholeGroup(b.largeFolders), WholeGroup(b.smallFolders));
    FlattenWholeGroup(b.largeFolders);
    FlattenWholeGroup(b.smallFolders);
    Partition(threshold, es);
    assert multiset(b.larges + b.smalls + (b.largeFolders + b.smallFolders))
        == multiset(b.smalls + b.larges + b.smallFolders + b.largeFolders);
  }
}
