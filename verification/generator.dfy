/** The text the generator writes for the workspace: the COPY instructions
    rendered from the group plan, and the filter that drops empty parts
    before the Dockerfile's pieces are joined. */
module Generator {
  import opened Workspace
  import opened Classify
  import opened Grouping

  /** Number of small-file groups, so also the number of image layers the
      workspace adds besides the base layers. */
  const MaxNumFileGroups: int := 1

  /** Size threshold in bytes: 200,000,000 (the comment beside the constant
      says 100 MB; the value is what counts). */
  const FileSizeThreshold: int := 200 * 1000 * 1000

  // ----- Text made of terminated pieces -----

  /** Every piece followed by `sep`. */
  function Terminated(parts: seq<string>, sep: char): string
  {
    if parts == [] then [] else parts[0] + [sep] + Terminated(parts[1..], sep)
  }

  /** The text before the first `sep`, or all of `s` when it has none. */
  function UpTo(s: string, sep: char): (r: string)
    ensures |r| <= |s| && r == s[..|r|]
    ensures sep !in r
    ensures |r| < |s| ==> s[|r|] == sep
  {
    if s == [] || s[0] == sep then [] else [s[0]] + UpTo(s[1..], sep)
  }

  /** The pieces of `s`, each ended by `sep`; text after the last `sep` is
      a last piece of its own. */
  function SplitTerminated(s: string, sep: char): seq<string>
    decreases |s|
  {
    if s == [] then []
    else
      var head := UpTo(s, sep);
      if |head| == |s| then [s] else [head] + SplitTerminated(s[|head| + 1..], sep)
  }

  lemma {:induction false} TerminatedAppend(a: seq<string>, b: seq<string>, sep: char)
    ensures Terminated(a + b, sep) == Terminated(a, sep) + Terminated(b, sep)
    decreases |a|
  {
    if a == [] {
      assert a + b == b;
    } else {
      assert (a + b)[0] == a[0];
      assert (a + b)[1..] == a[1..] + b;
      TerminatedAppend(a[1..], b, sep);
    }
  }

  lemma TerminatedSnoc(parts: seq<string>, p: string, sep: char)
    ensures Terminated(parts + [p], sep) == Terminated(parts, sep) + p + [sep]
  {
    TerminatedAppend(parts, [p], sep);
    assert [p][1..] == [];
  }

  lemma {:induction false} NotInTerminated(parts: seq<string>, sep: char, c: char)
    requires c != sep
    requires forall i :: 0 <= i < |parts| ==> c !in parts[i]
    ensures c !in Terminated(parts, sep)
    decreases |parts|
  {
    if parts != [] {
      NotInTerminated(parts[1..], sep, c);
    }
  }

  /** Splitting undoes terminating, as long as no piece holds the
      separator: the text has exactly one piece per part, in order. */
  lemma {:induction false} SplitTerminatedInverts(parts: seq<string>, sep: char)
    requires forall i :: 0 <= i < |parts| ==> sep !in parts[i]
    ensures SplitTerminated(Terminated(parts, sep), sep) == parts
    decreases |parts|
  {
    if parts != [] {
      var p, rest := parts[0], Terminated(parts[1..], sep);
      var s := p + [sep] + rest;
      var head := UpTo(s, sep);
      assert head == p by {
        assert s[..|p|] == p;
        assert s[|p|] == sep;
      }
      assert s[|head| + 1..] == rest;
      SplitTerminatedInverts(parts[1..], sep);
    }
  }

  // ----- The COPY instructions -----

  /** One COPY of a whole file group: each name followed by a space, then
      the destination. */
  function FileLine(group: seq<string>): string
  {
    "COPY " + Terminated(group, ' ') + "/src"
  }

  /** One COPY per folder-group entry, to the same name below /src. */
  function FolderLine(name: string): string
  {
    "COPY " + name + " /src/" + name
  }

  function FileLines(groups: seq<seq<string>>): seq<string>
  {
    seq(|groups|, i requires 0 <= i < |groups| => FileLine(groups[i]))
  }

  function FolderLines(names: seq<string>): seq<string>
  {
    seq(|names|, i requires 0 <= i < |names| => FolderLine(names[i]))
  }

  /** The lines of the rendered plan: one per file group, then one per
      entry of the folder groups. */
  function CommandLines(plan: Plan): seq<string>
  {
    FileLines(plan.fileGroups) + FolderLines(Flatten(plan.folderGroups))
  }

  /** Renders the plan line by line, each line ended by a newline. */
  method RenderGroups(plan: Plan) returns (ret: string)
    ensures ret == Terminated(CommandLines(plan), '\n')
  {
    var groups, folderGroups := plan.fileGroups, plan.folderGroups;
    ret := "";
    for g := 0 to |groups|
      invariant ret == Terminated(FileLines(groups[..g]), '\n')
    {
      var group := groups[g];
      var copyCmd := "COPY ";
      for f := 0 to |group|
        invariant copyCmd == "COPY " + Terminated(group[..f], ' ')
      {
        TerminatedSnoc(group[..f], group[f], ' ');
        assert group[..f + 1] == group[..f] + [group[f]];
        copyCmd := copyCmd + group[f] + " ";
      }
      assert group[..|group|] == group;
      copyCmd := copyCmd + "/src" + "\n";
      TerminatedSnoc(FileLines(groups[..g]), FileLine(group), '\n');
      assert FileLines(groups[..g + 1]) == FileLines(groups[..g]) + [FileLine(group)];
      ret := ret + copyCmd;
    }
    assert groups[..|groups|] == groups;
    ghost var fileText := ret;
    for g := 0 to |folderGroups|
      invariant ret == fileText + Terminated(FolderLines(Flatten(folderGroups[..g])), '\n')
    {
      var group := folderGroups[g];
      ghost var done := Flatten(folderGroups[..g]);
      assert done + group[..0] == done;
      for f := 0 to |group|
        invariant ret == fileText + Terminated(FolderLines(done + group[..f]), '\n')
      {
        var sigCmd := "COPY " + group[f] + " /src/" + group[f] + "\n";
        TerminatedSnoc(FolderLines(done + group[..f]), FolderLine(group[f]), '\n');
        assert done + group[..f + 1] == (done + group[..f]) + [group[f]];
        assert FolderLines(done + group[..f + 1]) == FolderLines(done + group[..f]) + [FolderLine(group[f])];
        ret := ret + sigCmd;
      }
      assert folderGroups[..g + 1][..g] == folderGroups[..g];
      assert group[..|group|] == group;
    }
    assert folderGroups[..|folderGroups|] == folderGroups;
    TerminatedAppend(FileLines(groups), FolderLines(Flatten(folderGroups)), '\n');
  }

  /** The COPY instructions for the workspace. With grouping off, one COPY
      of everything; otherwise the listing is planned with the shipped
      group count and threshold and the plan is rendered. A failed listing
      or directory walk yields its error. */
  method CopyWorkspace(groupFile: bool, listing: Result<seq<Entry>>) returns (r: Result<string>)
    ensures !groupFile ==> r == Ok("COPY . /src")
    ensures groupFile && listing.Err? ==> r == Err(listing.reason)
    ensures groupFile && listing.Ok? ==> (r.Ok? <==> Measurable(listing.value))
    ensures groupFile && listing.Ok? && r.Err? ==> FirstFailure(listing.value, r.reason)
    ensures groupFile && r.Ok? ==>
              listing.Ok? && Measurable(listing.value) &&
              r.value == Terminated(CommandLines(PlanAsWritten(MaxNumFileGroups, FileSizeThreshold, listing.value)), '\n')
  {
    if !groupFile {
      return Ok("COPY . /src");
    }
    if listing.Err? {
      return Err(listing.reason);
    }
    var planned := GroupFiles(MaxNumFileGroups, FileSizeThreshold, listing.value);
    if planned.Err? {
      return Err(planned.reason);
    }
    var ret := RenderGroups(planned.value);
    return Ok(ret);
  }

  /** When no name holds a newline, the rendered text has exactly one line
      per file group and one per folder-group entry, each the COPY that
      group or entry calls for. */
  lemma RenderedLines(plan: Plan)
    requires forall g :: g in plan.fileGroups ==> forall name :: name in g ==> '\n' !in name
    requires forall name :: name in Flatten(plan.folderGroups) ==> '\n' !in name
    ensures SplitTerminated(Terminated(CommandLines(plan), '\n'), '\n') == CommandLines(plan)
    ensures |CommandLines(plan)| == |plan.fileGroups| + |Flatten(plan.folderGroups)|
  {
    var lines := CommandLines(plan);
    var fileCount := |plan.fileGroups|;
    forall i | 0 <= i < |lines| ensures '\n' !in lines[i] {
      if i < fileCount {
        var g := plan.fileGroups[i];
        assert g in plan.fileGroups;
        forall j | 0 <= j < |g| ensures '\n' !in g[j] {
          assert g[j] in g;
        }
        NotInTerminated(g, ' ', '\n');
      } else {
        var folders := Flatten(plan.folderGroups);
        assert folders[i - fileCount] in folders;
      }
    }
    SplitTerminatedInverts(lines, '\n');
  }

  /** With the shipped single group, the file groups as written list the
      large files and then the small files in listing order, so the
      misplaced leftover of the even split cannot occur. */
  lemma ShippedFileGroupsInOrder(threshold: int, es: seq<Entry>)
    requires Measurable(es)
    ensures var b := Divided(threshold, es);
            Flatten(PlanAsWritten(MaxNumFileGroups, threshold, es).fileGroups) == b.larges + b.smalls
  {
    var b := Divided(threshold, es);
    AsWrittenMatchesIntended(MaxNumFileGroups, b.larges, b.smalls);
    IntendedFileGroupsInOrder(MaxNumFileGroups, b.larges, b.smalls);
  }

  // ----- Dropping empty parts -----

  /** `list` without its empty strings, in order. */
  function NonEmpty(list: seq<string>): seq<string>
  {
    if list == [] then []
    else NonEmpty(list[..|list| - 1]) + (if list[|list| - 1] != "" then [list[|list| - 1]] else [])
  }

  /** Copies every non-empty string of `list`, in order. */
  method FilterEmpty(list: seq<string>) returns (filtered: seq<string>)
    ensures filtered == NonEmpty(list)
    ensures "" !in filtered
    ensures multiset(filtered) == multiset(list)["" := 0]
  {
    filtered := [];
    for i := 0 to |list|
      invariant filtered == NonEmpty(list[..i])
    {
      assert list[..i + 1][..i] == list[..i];
      if list[i] != "" {
        filtered := filtered + [list[i]];
      }
    }
    assert list[..|list|] == list;
    NonEmptyContents(list);
  }

  /** The filter removes exactly the empty strings: none is left, and every
      other string is kept as often as it occurs. */
  lemma {:induction false} NonEmptyContents(list: seq<string>)
    ensures "" !in NonEmpty(list)
    ensures multiset(NonEmpty(list)) == multiset(list)["" := 0]
    decreases |list|
  {
    if list != [] {
      var init, last := list[..|list| - 1], list[|list| - 1];
      NonEmptyContents(init);
      assert list == init + [last];
    }
  }

  /** The filter keeps order: filtering two lists one after the other is
      filtering their concatenation. */
  lemma {:induction false} NonEmptyAppend(a: seq<string>, b: seq<string>)
    ensures NonEmpty(a + b) == NonEmpty(a) + NonEmpty(b)
    decreases |b|
  {
    if b == [] {
      assert a + b == a;
    } else {
      var n := |b| - 1;
      assert (a + b)[..|a + b| - 1] == a + b[..n];
      NonEmptyAppend(a, b[..n]);
    }
  }
}
