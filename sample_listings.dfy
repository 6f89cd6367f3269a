/** The listings the source's tests expect of their sample tree, each proved
    from the model. Every lemma here is a chain of small steps: one fact about
    the sample per helper. */
module SampleListings {
  import opened Wrappers
  import opened Text
  import opened Tree
  import opened Permissions
  import opened Size
  import opened Stages
  import opened Lister
  import opened ListingFacts

  function File(name: string, size: int, time: int, perms: string): Node
  {
    Node(name, size, time, perms, None)
  }

  /** The tree the tests list: a hidden file, two files, and the directory
      `ast` holding two files. The stored type flags do not match their `contents`. */
  function Sample(): Node
  {
    Node("interpreter", 4096, 1699957865, "-rw-r--r--", Some(Root()))
  }

  function Root(): seq<Node>
  {
    [File(".gitignore", 8911, 1699941437, "drwxr-xr-x"),
     File("LICENSE", 1071, 1699941437, "drwxr-xr-x"),
     File("README.md", 83, 1699941437, "drwxr-xr-x"),
     Ast()]
  }

  function Ast(): Node
  {
    Node("ast", 4096, 1699957739, "-rw-r--r--", Some(AstEntries()))
  }

  function AstEntries(): seq<Node>
  {
    [File("go.mod", 225, 1699957780, "-rw-r--r--"),
     File("ast.go", 837, 1699957719, "drwxr-xr-x")]
  }

  // ---------------------------------------------------------- small steps

  lemma LinesOfTwo(a: Node, b: Node, opts: Options, fmtTime: int -> string)
    ensures Lines([a, b], opts, fmtTime) == [Line(a, opts, fmtTime), Line(b, opts, fmtTime)]
  {
    assert [a, b][..1] == [a];
  }

  lemma LinesOfThree(a: Node, b: Node, c: Node, opts: Options, fmtTime: int -> string)
    ensures Lines([a, b, c], opts, fmtTime) ==
      [Line(a, opts, fmtTime), Line(b, opts, fmtTime), Line(c, opts, fmtTime)]
  {
    assert [a, b, c][..2] == [a, b];
    LinesOfTwo(a, b, opts, fmtTime);
  }

  /** The root listed with options that neither filter nor reorder. */
  lemma RootAsDeclared(opts: Options, fmtTime: int -> string)
    requires opts.filter == NoFilter && !opts.sortByTime && !opts.reverse
    ensures var out := Listing(Sample(), "", opts, fmtTime);
      out.tree == Sample() && out.lines == Lines(Visible(Root(), false, opts.showAll), opts, fmtTime)
  {
    ListingOfDirectory(Sample(), "", opts, fmtTime);
    ArrangeOrder(Root(), opts);
    ApplyNoFilter(Root());
  }

  /** Without `-A` only `.gitignore` is dropped. */
  lemma RootVisible()
    ensures Visible(Root(), false, false) == Root()[1..]
  {
    var cs := Root();
    assert cs == [cs[0]] + cs[1..];
    VisibleCons(cs[0], cs[1..], false, false);
    VisibleUnhidden(cs[1..], false, false);
  }

  lemma RootShortLines(opts: Options, fmtTime: int -> string)
    requires !opts.longFormat
    ensures Lines(Root()[1..], opts, fmtTime) == ["LICENSE", "README.md", "ast"]
  {
    var cs := Root();
    assert cs[1..] == [cs[1], cs[2], cs[3]];
    LinesOfThree(cs[1], cs[2], cs[3], opts, fmtTime);
  }

  // ------------------------------------------------------------- the tests

  lemma SampleDefault(fmtTime: int -> string)
    ensures Listing(Sample(), "", Defaults, fmtTime) == Outcome(["LICENSE", "README.md", "ast"], Sample())
  {
    RootAsDeclared(Defaults, fmtTime);
    RootVisible();
    RootShortLines(Defaults, fmtTime);
  }

  lemma RootAllShortLines(opts: Options, fmtTime: int -> string)
    requires !opts.longFormat
    ensures Lines(Root(), opts, fmtTime) == [".gitignore", "LICENSE", "README.md", "ast"]
  {
    var cs := Root();
    assert cs[..3] == [cs[0], cs[1], cs[2]];
    LinesOfThree(cs[0], cs[1], cs[2], opts, fmtTime);
  }

  lemma SampleShowAll(fmtTime: int -> string)
    ensures Listing(Sample(), "", Defaults.(showAll := true), fmtTime).lines ==
      [".gitignore", "LICENSE", "README.md", "ast"]
  {
    var opts := Defaults.(showAll := true);
    RootAsDeclared(opts, fmtTime);
    VisibleUnhidden(Root(), false, true);
    RootAllShortLines(opts, fmtTime);
  }

  /** `-r` on the root: the entries back to front, `.gitignore` still hidden. */
  lemma RootReversed()
    ensures var cs := Root();
      Visible(Reverse(cs), false, false) == [cs[3], cs[2], cs[1]]
  {
    var cs := Root();
    var front := [cs[3], cs[2], cs[1]];
    assert Reverse(cs) == front + [cs[0]];
    VisibleUnhidden(front, false, false);
    assert (front + [cs[0]])[..3] == front;
  }

  lemma SampleReverse(fmtTime: int -> string)
    ensures Listing(Sample(), "", Defaults.(reverse := true), fmtTime).lines == ["ast", "README.md", "LICENSE"]
  {
    var opts := Defaults.(reverse := true);
    var cs := Root();
    ListingOfDirectory(Sample(), "", opts, fmtTime);
    ArrangeOrder(cs, opts);
    ApplyNoFilter(cs);
    RootReversed();
    LinesOfThree(cs[3], cs[2], cs[1], opts, fmtTime);
  }

  /** The root's entries are already in time order. */
  lemma RootSorted()
    ensures SortByTime(Root()) == Root()
  {
    assert SortedByTime(Root());
    SortByTimeSorted(Root());
  }

  /** Writing the root's own list back leaves the tree as it was. */
  lemma RootWriteBack()
    ensures Update(Sample(), [], Sample().(contents := Some(Root()))) == Sample()
  {
  }

  /** `-t` prints the root's entries as declared and writes the same list
      back into the tree. */
  lemma SampleSortByTime(fmtTime: int -> string)
    ensures Listing(Sample(), "", Defaults.(sortByTime := true), fmtTime) ==
      Outcome(["LICENSE", "README.md", "ast"], Sample())
  {
    var opts := Defaults.(sortByTime := true);
    ListingOfDirectory(Sample(), "", opts, fmtTime);
    RootSorted();
    RootWriteBack();
    RootVisible();
    RootShortLines(opts, fmtTime);
  }

  lemma RootFileFilter()
    ensures var cs := Root(); ApplyFilter(cs, FileOnly) == [cs[0], cs[1], cs[2]]
  {
    var cs := Root();
    assert ApplyFilter(cs[3..], FileOnly) == [];
    assert ApplyFilter(cs[2..], FileOnly) == [cs[2]];
    assert ApplyFilter(cs[1..], FileOnly) == [cs[1], cs[2]];
  }

  lemma RootFilesVisible()
    ensures var cs := Root(); Visible([cs[0], cs[1], cs[2]], false, false) == [cs[1], cs[2]]
  {
    var cs := Root();
    assert [cs[0], cs[1], cs[2]] == [cs[0]] + [cs[1], cs[2]];
    VisibleCons(cs[0], [cs[1], cs[2]], false, false);
    VisibleUnhidden([cs[1], cs[2]], false, false);
  }

  lemma SampleFileFilter(fmtTime: int -> string)
    ensures Listing(Sample(), "", Defaults.(filter := FileOnly), fmtTime).lines == ["LICENSE", "README.md"]
  {
    var opts := Defaults.(filter := FileOnly);
    var cs := Root();
    ListingOfDirectory(Sample(), "", opts, fmtTime);
    RootFileFilter();
    RootFilesVisible();
    LinesOfTwo(cs[1], cs[2], opts, fmtTime);
  }

  lemma RootDirFilter()
    ensures var cs := Root(); ApplyFilter(cs, DirOnly) == [cs[3]]
  {
    var cs := Root();
    assert ApplyFilter(cs[3..], DirOnly) == [cs[3]];
    assert ApplyFilter(cs[2..], DirOnly) == [cs[3]];
    assert ApplyFilter(cs[1..], DirOnly) == [cs[3]];
  }

  lemma SampleDirFilter(fmtTime: int -> string)
    ensures Listing(Sample(), "", Defaults.(filter := DirOnly), fmtTime).lines == ["ast"]
  {
    var opts := Defaults.(filter := DirOnly);
    var cs := Root();
    ListingOfDirectory(Sample(), "", opts, fmtTime);
    RootDirFilter();
    VisibleUnhidden([cs[3]], false, false);
    assert [cs[3]][..0] == [];
  }

  /** Listing `ast` descends into the root's fourth entry. */
  lemma DescendAst()
    ensures Split("ast", '/') == ["ast"]
    ensures Descend(Sample(), ["ast"]) == Descent([3], true)
  {
    SplitNoSep("ast", '/');
    var cs := Root();
    assert cs[0].name != "ast" && cs[1].name != "ast" && cs[2].name != "ast";
    assert FirstMatch(cs, "ast") == Some(3);
    DescendStep(Sample(), ["ast"], 3);
  }

  /** The directory `ast` listed with options that neither filter nor reorder. */
  lemma AstAsDeclared(opts: Options, fmtTime: int -> string)
    requires opts.filter == NoFilter && !opts.sortByTime && !opts.reverse
    ensures Listing(Sample(), "ast", opts, fmtTime).lines == Lines(Visible(AstEntries(), false, opts.showAll), opts, fmtTime)
  {
    DescendAst();
    ListingOfDirectory(Sample(), "ast", opts, fmtTime);
    ArrangeOrder(AstEntries(), opts);
    ApplyNoFilter(AstEntries());
  }

  lemma AstShortLines(opts: Options, fmtTime: int -> string)
    requires !opts.longFormat
    ensures Lines(Visible(AstEntries(), false, false), opts, fmtTime) == ["go.mod", "ast.go"]
  {
    var es := AstEntries();
    VisibleUnhidden(es, false, false);
    LinesOfTwo(es[0], es[1], opts, fmtTime);
  }

  lemma SamplePath(fmtTime: int -> string)
    ensures Listing(Sample(), "ast", Defaults, fmtTime).lines == ["go.mod", "ast.go"]
  {
    AstAsDeclared(Defaults, fmtTime);
    AstShortLines(Defaults, fmtTime);
  }

  /** `ast.go` is older than `go.mod`. */
  lemma AstSorted()
    ensures var es := AstEntries(); SortByTime(es) == [es[1], es[0]]
  {
    var es := AstEntries();
    assert SortByTime(es[1..]) == [es[1]];
  }

  lemma AstSortedShortLines(opts: Options, fmtTime: int -> string)
    requires !opts.longFormat
    ensures var es := AstEntries();
      Lines(Visible([es[1], es[0]], false, false), opts, fmtTime) == ["ast.go", "go.mod"]
  {
    var es := AstEntries();
    VisibleUnhidden([es[1], es[0]], false, false);
    LinesOfTwo(es[1], es[0], opts, fmtTime);
  }

  /** `-t` on `ast` puts `ast.go` first and leaves that order in the caller's
      tree, since no filter copied the list. */
  lemma SamplePathSortedInPlace(fmtTime: int -> string)
    ensures var es := AstEntries();
      var sorted := Update(Sample(), [3], Ast().(contents := Some([es[1], es[0]])));
      var out := Listing(Sample(), "ast", Defaults.(sortByTime := true), fmtTime);
      out.tree == sorted && out.lines == ["ast.go", "go.mod"]
  {
    var opts := Defaults.(sortByTime := true);
    var es := AstEntries();
    DescendAst();
    ListingOfDirectory(Sample(), "ast", opts, fmtTime);
    AstSorted();
    AstSortedShortLines(opts, fmtTime);
  }

  /** No entry of the root is called `non_existent_path`. */
  lemma DescendMissing()
    ensures Split("non_existent_path", '/') == ["non_existent_path"]
    ensures Descend(Sample(), ["non_existent_path"]) == Descent([], false)
  {
    SplitMissing();
    MissingNotInRoot();
  }

  lemma SplitMissing()
    ensures Split("non_existent_path", '/') == ["non_existent_path"]
  {
    SplitNoSep("non_existent_path", '/');
  }

  lemma MissingNotInRoot()
    ensures FirstMatch(Root(), "non_existent_path") == None
  {
  }

  /** The root is a directory, so the walk never renames it. */
  lemma RootNotRenamed(name: string)
    ensures RenameIfFile(Sample(), [], name) == Sample()
  {
  }

  lemma MissingLine()
    ensures "error: cannot access '" + "non_existent_path" + "': No such file or directory" ==
      "error: cannot access 'non_existent_path': No such file or directory"
  {
    var prefix, quoted := "error: cannot access '", "non_existent_path";
    assert prefix + quoted == "error: cannot access 'non_existent_path";
  }

  lemma SampleMissingPath(fmtTime: int -> string)
    ensures Listing(Sample(), "non_existent_path", Defaults, fmtTime) ==
      Outcome(["error: cannot access 'non_existent_path': No such file or directory"], Sample())
  {
    DescendMissing();
    NotFoundPrintsOneLine(Sample(), "non_existent_path", Defaults, fmtTime);
    RootNotRenamed("./non_existent_path");
    MissingLine();
  }

  lemma SplitGoMod()
    ensures Split("ast/go.mod", '/') == ["ast", "go.mod"]
  {
    assert "ast/go.mod" == "ast" + ['/'] + "go.mod";
    SplitConcat("ast", "go.mod", '/');
    SplitNoSep("ast", '/');
    SplitNoSep("go.mod", '/');
  }

  /** `ast/go.mod` ends at the first entry of `ast`, a file. */
  lemma DescendGoMod()
    ensures Descend(Sample(), ["ast", "go.mod"]) == Descent([3, 0], true)
  {
    DescendAst();
    assert FirstMatch(AstEntries(), "go.mod") == Some(0);
    DescendStep(Ast(), ["go.mod"], 0);
    DescendStepConcat(Sample(), ["ast"], ["go.mod"], 3);
    assert ["ast"] + ["go.mod"] == ["ast", "go.mod"];
    assert [3] + [0] == [3, 0];
  }

  lemma AtGoMod()
    ensures ValidPos(Sample(), [3, 0]) && At(Sample(), [3, 0]) == AstEntries()[0]
  {
    AtCons(Ast(), 0, []);
    AtCons(Sample(), 3, [0]);
  }

  lemma GoModListed(fmtTime: int -> string)
    ensures AstEntries()[0].(name := "./" + "ast/go.mod") == File("./ast/go.mod", 225, 1699957780, "-rw-r--r--")
    ensures Line(File("./ast/go.mod", 225, 1699957780, "-rw-r--r--"), Defaults, fmtTime) == "./ast/go.mod"
  {
  }

  /** A path ending at a file lists it under `./<path>` and renames it in the
      caller's tree. */
  lemma SamplePathToFile(fmtTime: int -> string)
    ensures var renamed := Update(Sample(), [3, 0], File("./ast/go.mod", 225, 1699957780, "-rw-r--r--"));
      var out := Listing(Sample(), "ast/go.mod", Defaults, fmtTime);
      out.tree == renamed && out.lines == ["./ast/go.mod"]
  {
    SplitGoMod();
    DescendGoMod();
    AtGoMod();
    ListingLandsOnFile(Sample(), "ast/go.mod", Defaults, fmtTime);
    GoModListed(fmtTime);
  }

  lemma LongLicense(opts: Options, fmtTime: int -> string)
    requires opts.longFormat && !opts.humanReadable
    ensures Line(Root()[1], opts, fmtTime) == "-rwxr-xr-x 1071 " + fmtTime(1699941437) + " LICENSE"
  {
    LicenseSize();
    LicenseMode();
  }

  lemma LicenseSize()
    ensures IntToString(1071) == "1071"
  {
    assert NatToString(10) == "10";
    assert NatToString(107) == "107";
  }

  lemma LicenseMode()
    ensures Mode(Root()[1]) == "-rwxr-xr-x"
  {
  }

  lemma LongReadme(opts: Options, fmtTime: int -> string)
    requires opts.longFormat && !opts.humanReadable
    ensures Line(Root()[2], opts, fmtTime) == "-rwxr-xr-x 83 " + fmtTime(1699941437) + " README.md"
  {
    assert IntToString(83) == "83";
  }

  lemma LongAst(opts: Options, fmtTime: int -> string)
    requires opts.longFormat && !opts.humanReadable
    ensures Line(Root()[3], opts, fmtTime) == "drw-r--r-- 4096 " + fmtTime(1699957739) + " ast"
  {
    assert IntToString(4096) == "4096";
  }

  lemma SampleLong(fmtTime: int -> string)
    ensures Listing(Sample(), "", Defaults.(longFormat := true), fmtTime).lines == [
      "-rwxr-xr-x 1071 " + fmtTime(1699941437) + " LICENSE",
      "-rwxr-xr-x 83 " + fmtTime(1699941437) + " README.md",
      "drw-r--r-- 4096 " + fmtTime(1699957739) + " ast"]
  {
    var opts := Defaults.(longFormat := true);
    var cs := Root();
    RootAsDeclared(opts, fmtTime);
    RootVisible();
    assert cs[1..] == [cs[1], cs[2], cs[3]];
    LinesOfThree(cs[1], cs[2], cs[3], opts, fmtTime);
    LongLicense(opts, fmtTime);
    LongReadme(opts, fmtTime);
    LongAst(opts, fmtTime);
  }

  lemma HumanLicense(opts: Options, fmtTime: int -> string)
    requires opts.longFormat && opts.humanReadable
    ensures Line(Root()[1], opts, fmtTime) == "-rwxr-xr-x 1.0 KB " + fmtTime(1699941437) + " LICENSE"
  {
    SizeTextExampleKilobytes();
    LicenseMode();
  }

  lemma HumanReadme(opts: Options, fmtTime: int -> string)
    requires opts.longFormat && opts.humanReadable
    ensures Line(Root()[2], opts, fmtTime) == "-rwxr-xr-x 83 B " + fmtTime(1699941437) + " README.md"
  {
    SizeTextExampleBytes();
  }

  lemma HumanAst(opts: Options, fmtTime: int -> string)
    requires opts.longFormat && opts.humanReadable
    ensures Line(Root()[3], opts, fmtTime) == "drw-r--r-- 4.0 KB " + fmtTime(1699957739) + " ast"
  {
    SizeTextExampleKilobytes();
  }

  lemma SampleLongHuman(fmtTime: int -> string)
    ensures Listing(Sample(), "", Defaults.(longFormat := true, humanReadable := true), fmtTime).lines == [
      "-rwxr-xr-x 1.0 KB " + fmtTime(1699941437) + " LICENSE",
      "-rwxr-xr-x 83 B " + fmtTime(1699941437) + " README.md",
      "drw-r--r-- 4.0 KB " + fmtTime(1699957739) + " ast"]
  {
    var opts := Defaults.(longFormat := true, humanReadable := true);
    var cs := Root();
    RootAsDeclared(opts, fmtTime);
    RootVisible();
    assert cs[1..] == [cs[1], cs[2], cs[3]];
    LinesOfThree(cs[1], cs[2], cs[3], opts, fmtTime);
    HumanLicense(opts, fmtTime);
    HumanReadme(opts, fmtTime);
    HumanAst(opts, fmtTime);
  }
}
