/** Properties of `ls` as a whole: where the walk ends, what is printed and
    what the call does to the caller's tree. */
module ListingFacts {
  import opened Wrappers
  import opened Text
  import opened Tree
  import opened Permissions
  import opened Size
  import opened Stages
  import opened Lister

  // ------------------------------------------------------------ closed form

  /** For a non-empty path the outcome is decided by the first-match descent
      on the tree as given: it stops at `d.pos`, where a file is renamed to
      `"./" + path` whether or not the walk then succeeds; a segment with no
      match gives the single not-found line. */
  lemma {:induction false} ListingClosedForm(tree: Node, path: string, opts: Options, fmtTime: int -> string)
    requires path != ""
    ensures var d := Descend(tree, Split(path, '/'));
      var renamed := RenameIfFile(tree, d.pos, "./" + path);
      Listing(tree, path, opts, fmtTime) ==
        if d.complete then Show(renamed, d.pos, !IsDir(At(tree, d.pos)), opts, fmtTime)
        else Outcome([NotFoundLine(path)], renamed)
  {
    var segs := Split(path, '/');
    WalkDescends(tree, [], segs, path, false);
    var d := Descend(tree, segs);
    assert [] + d.pos == d.pos;
  }

  /** A segment with no match, at any depth: exactly the one error line, and no
      entry is printed. */
  lemma NotFoundPrintsOneLine(tree: Node, path: string, opts: Options, fmtTime: int -> string)
    requires path != "" && !Descend(tree, Split(path, '/')).complete
    ensures var d := Descend(tree, Split(path, '/'));
      Listing(tree, path, opts, fmtTime) ==
        Outcome(["error: cannot access '" + path + "': No such file or directory"],
                RenameIfFile(tree, d.pos, "./" + path))
  {
    ListingClosedForm(tree, path, opts, fmtTime);
  }

  /** A leading `/` gives an empty first segment, which fails unless the root
      has a child whose name is the empty string. */
  lemma LeadingSlashNotFound(tree: Node, path: string, opts: Options, fmtTime: int -> string)
    requires |path| > 0 && path[0] == '/'
    requires forall c :: c in Children(tree) ==> c.name != ""
    ensures Listing(tree, path, opts, fmtTime).lines == [NotFoundLine(path)]
  {
    var segs := Split(path, '/');
    assert path == [] + ['/'] + path[1..];
    SplitConcat([], path[1..], '/');
    assert segs[0] == "";
    ListingClosedForm(tree, path, opts, fmtTime);
  }

  /** A character other than the separator joins the first part. */
  lemma SplitConsOther(c: char, s: string, sep: char)
    requires c != sep
    ensures var rest := Split(s, sep); Split([c] + s, sep) == [[c] + rest[0]] + rest[1..]
  {
    assert ([c] + s)[1..] == s;
  }

  /** A separator starts a new, empty first part. */
  lemma SplitConsSep(s: string, sep: char)
    ensures Split([sep] + s, sep) == [""] + Split(s, sep)
  {
    assert ([sep] + s)[1..] == s;
  }

  /** The inductive step of `SplitConcat` when `a` starts with the separator. */
  lemma SplitConcatSepHead(a: string, b: string, sep: char)
    requires a != [] && a[0] == sep
    requires Split(a[1..] + [sep] + b, sep) == Split(a[1..], sep) + Split(b, sep)
    ensures Split(a + [sep] + b, sep) == Split(a, sep) + Split(b, sep)
  {
    var tail := a[1..] + [sep] + b;
    assert a + [sep] + b == [sep] + tail;
    assert a == [sep] + a[1..];
    SplitConsSep(tail, sep);
    SplitConsSep(a[1..], sep);
    SeqAssoc([""], Split(a[1..], sep), Split(b, sep));
  }

  /** Extending the first part of `xs` distributes over appending `ys`. */
  lemma PrefixFirstPart(c: char, xs: seq<string>, ys: seq<string>)
    requires |xs| >= 1
    ensures [[c] + (xs + ys)[0]] + (xs + ys)[1..] == ([[c] + xs[0]] + xs[1..]) + ys
  {
    assert (xs + ys)[1..] == xs[1..] + ys;
  }

  /** The inductive step of `SplitConcat` when `a` starts with another character. */
  lemma SplitConcatOtherHead(a: string, b: string, sep: char)
    requires a != [] && a[0] != sep
    requires Split(a[1..] + [sep] + b, sep) == Split(a[1..], sep) + Split(b, sep)
    ensures Split(a + [sep] + b, sep) == Split(a, sep) + Split(b, sep)
  {
    var tail := a[1..] + [sep] + b;
    assert a + [sep] + b == [a[0]] + tail;
    assert a == [a[0]] + a[1..];
    SplitConsOther(a[0], tail, sep);
    SplitConsOther(a[0], a[1..], sep);
    PrefixFirstPart(a[0], Split(a[1..], sep), Split(b, sep));
  }

  /** Splitting at a separator splits each side. */
  lemma {:induction false} SplitConcat(a: string, b: string, sep: char)
    ensures Split(a + [sep] + b, sep) == Split(a, sep) + Split(b, sep)
    decreases |a|
  {
    if a == [] {
      assert a + [sep] + b == [sep] + b;
      SplitConsSep(b, sep);
    } else {
      SplitConcat(a[1..], b, sep);
      if a[0] == sep {
        SplitConcatSepHead(a, b, sep);
      } else {
        SplitConcatOtherHead(a, b, sep);
      }
    }
  }

  /** One step of the descent: a matching child `j`, then the rest below it. */
  lemma {:induction false} DescendStep(n: Node, segs: seq<string>, j: nat)
    requires |segs| >= 1 && FirstMatch(Children(n), segs[0]) == Some(j)
    ensures j < |Children(n)|
    ensures var d := Descend(Children(n)[j], segs[1..]);
      Descend(n, segs) == Descent([j] + d.pos, d.complete)
  {
  }

  /** The same step when more segments follow the first list. */
  lemma {:induction false} DescendStepConcat(n: Node, s1: seq<string>, s2: seq<string>, j: nat)
    requires |s1| >= 1 && FirstMatch(Children(n), s1[0]) == Some(j)
    ensures j < |Children(n)|
    ensures var d := Descend(Children(n)[j], s1[1..] + s2);
      Descend(n, s1 + s2) == Descent([j] + d.pos, d.complete)
  {
    var s := s1 + s2;
    assert s[0] == s1[0] && s[1..] == s1[1..] + s2;
    DescendStep(n, s, j);
  }

  /** The node at `[j] + p` is the node at `p` below child `j`. */
  lemma {:induction false} AtCons(n: Node, j: nat, p: seq<nat>)
    requires j < |Children(n)| && ValidPos(Children(n)[j], p)
    ensures ValidPos(n, [j] + p) && At(n, [j] + p) == At(Children(n)[j], p)
  {
    assert ([j] + p)[0] == j && ([j] + p)[1..] == p;
  }

  /** Once the descent has matched `s1`, a next segment that no child of the
      node reached matches ends it there, unfinished, whatever follows. */
  lemma {:induction false} DescendStopsAtMissing(n: Node, s1: seq<string>, s2: seq<string>)
    requires Descend(n, s1).complete && |s2| >= 1
    requires FirstMatch(Children(At(n, Descend(n, s1).pos)), s2[0]).None?
    ensures Descend(n, s1 + s2) == Descent(Descend(n, s1).pos, false)
    decreases |s1|
  {
    if s1 == [] {
      assert s1 + s2 == s2;
    } else {
      var j := FirstMatch(Children(n), s1[0]).value;
      var c := Children(n)[j];
      DescendStep(n, s1, j);
      AtCons(n, j, Descend(c, s1[1..]).pos);
      DescendStopsAtMissing(c, s1[1..], s2);
      DescendStepConcat(n, s1, s2, j);
    }
  }

  /** A path that reaches a file and then names anything below it (even the
      empty segment of a trailing `/`) fails with the not-found line; the file
      is renamed all the same. */
  lemma SegmentAfterFileNotFound(tree: Node, a: string, b: string, opts: Options, fmtTime: int -> string)
    requires var d := Descend(tree, Split(a, '/'));
      d.complete && !IsDir(At(tree, d.pos))
    ensures var path := a + "/" + b;
      var p := Descend(tree, Split(a, '/')).pos;
      var out := Listing(tree, path, opts, fmtTime);
      out.lines == [NotFoundLine(path)] &&
      out.tree == Update(tree, p, At(tree, p).(name := "./" + path))
  {
    var path := a + "/" + b;
    SplitConcat(a, b, '/');
    var s1, s2 := Split(a, '/'), Split(b, '/');
    DescendStopsAtMissing(tree, s1, s2);
    ListingClosedForm(tree, path, opts, fmtTime);
  }

  /** An empty segment, from a trailing `/` (`b` empty) or a doubled one (`b`
      starting with `/`), fails unless the node reached has a child whose name
      is the empty string. */
  lemma EmptySegmentNotFound(tree: Node, a: string, b: string, opts: Options, fmtTime: int -> string)
    requires b == "" || b[0] == '/'
    requires var d := Descend(tree, Split(a, '/'));
      d.complete && forall c :: c in Children(At(tree, d.pos)) ==> c.name != ""
    ensures Listing(tree, a + "/" + b, opts, fmtTime).lines == [NotFoundLine(a + "/" + b)]
  {
    var path := a + "/" + b;
    SplitConcat(a, b, '/');
    SplitStartsEmpty(b);
    DescendStopsAtMissing(tree, Split(a, '/'), Split(b, '/'));
    ListingClosedForm(tree, path, opts, fmtTime);
  }

  /** The first part of a string that is empty or starts with `/` is empty. */
  lemma SplitStartsEmpty(b: string)
    requires b == "" || b[0] == '/'
    ensures Split(b, '/')[0] == ""
  {
    if b != "" {
      assert b == ['/'] + b[1..];
      SplitConsSep(b[1..], '/');
    }
  }

  // ------------------------------------------------------ landing on a target

  /** The walk ends on a file: the caller's tree has that node renamed to
      `"./" + path`, and the listing is that one entry, printed under its new
      name even though it starts with `.` (only `--filter dir` drops it). */
  lemma ListingLandsOnFile(tree: Node, path: string, opts: Options, fmtTime: int -> string)
    requires path != ""
    requires var d := Descend(tree, Split(path, '/'));
      d.complete && !IsDir(At(tree, d.pos))
    ensures var p := Descend(tree, Split(path, '/')).pos;
      var file := At(tree, p).(name := "./" + path);
      var out := Listing(tree, path, opts, fmtTime);
      StartsWithDot(file.name) &&
      out.tree == Update(tree, p, file) &&
      out.lines == if opts.filter == DirOnly then [] else [Line(file, opts, fmtTime)]
  {
    ListingClosedForm(tree, path, opts, fmtTime);
    var p := Descend(tree, Split(path, '/')).pos;
    var file := At(tree, p).(name := "./" + path);
    var renamed := Update(tree, p, file);
    assert At(renamed, p) == file;
    ArrangeSingleFile(file, opts);
    VisibleUnhidden(Arrange([file], opts), true, opts.showAll);
  }

  /** The single entry of a file target goes through the stages unchanged,
      unless `--filter dir` removes it. */
  lemma ArrangeSingleFile(file: Node, opts: Options)
    requires !IsDir(file)
    ensures Arrange(Entries(file), opts) == if opts.filter == DirOnly then [] else [file]
  {
    var s := [file];
    assert Entries(file) == s;
    var filtered := if opts.filter == NoFilter then s else ApplyFilter(s, opts.filter);
    assert ApplyFilter(s, opts.filter) == (if Keeps(opts.filter, file) then [file] else []) + ApplyFilter(s[1..], opts.filter);
    assert s[1..] == [];
    assert filtered == if opts.filter == DirOnly then [] else s;
    assert SortByTime(filtered) == filtered by {
      if filtered != [] {
        assert filtered[1..] == [];
      }
    }
    assert Reverse(filtered) == filtered by {
      if filtered != [] {
        assert filtered[..0] == [];
      }
    }
  }

  /** The walk ends on a directory (or the path is empty): its own `contents`
      are listed, and the tree changes only when `-t` sorts that list in place,
      which it does when no filter made a copy. */
  lemma ListingOfDirectory(tree: Node, path: string, opts: Options, fmtTime: int -> string)
    requires path == "" || Descend(tree, Split(path, '/')).complete
    requires var p := if path == "" then [] else Descend(tree, Split(path, '/')).pos;
      IsDir(At(tree, p))
    ensures var p := if path == "" then [] else Descend(tree, Split(path, '/')).pos;
      var dir := At(tree, p);
      var out := Listing(tree, path, opts, fmtTime);
      out.lines == Lines(Visible(Arrange(dir.contents.value, opts), false, opts.showAll), opts, fmtTime) &&
      out.tree == if opts.sortByTime && opts.filter == NoFilter
        then Update(tree, p, dir.(contents := Some(SortByTime(dir.contents.value))))
        else tree
  {
    if path != "" {
      ListingClosedForm(tree, path, opts, fmtTime);
    }
  }

  /** An empty path lists the root; with no options that is the root's
      entries in declared order, hidden names left out, the tree untouched. */
  lemma ListingRootDefaults(tree: Node, fmtTime: int -> string)
    requires IsDir(tree)
    ensures var out := Listing(tree, "", Defaults, fmtTime);
      out.tree == tree &&
      out.lines == Lines(Visible(tree.contents.value, false, false), Defaults, fmtTime)
  {
  }

  // ------------------------------------------------------ the Show step

  /** Leaving out hidden entries never adds any. */
  lemma {:induction false} VisibleLength(s: seq<Node>, landed: bool, showAll: bool)
    ensures |Visible(s, landed, showAll)| <= |s|
  {
    if s != [] {
      VisibleLength(s[..|s| - 1], landed, showAll);
    }
  }

  /** The stages print at most the selected entries, and all of them when no
      filter is given: sorting and reversing only reorder. */
  lemma ArrangeLength(es: seq<Node>, opts: Options)
    ensures |Arrange(es, opts)| <= |es|
    ensures opts.filter == NoFilter ==> |Arrange(es, opts)| == |es|
  {
    FilterPartition(es);
    ApplyNoFilter(es);
    var filtered := if opts.filter == NoFilter then es else ApplyFilter(es, opts.filter);
    var sorted := if opts.sortByTime then SortByTime(filtered) else filtered;
    assert |sorted| == |multiset(sorted)| == |multiset(filtered)| == |filtered|;
  }

  /** What the step after the walk does: at most one line per selected entry,
      and the only write to the tree is the `-t` sort of the target's own list,
      which keeps the target's fields and the same entries. */
  lemma ShowEffect(t: Node, pos: seq<nat>, landed: bool, opts: Options, fmtTime: int -> string)
    requires ValidPos(t, pos)
    ensures var r := Show(t, pos, landed, opts, fmtTime);
      |r.lines| <= |Entries(At(t, pos))| &&
      ValidPos(r.tree, pos) &&
      multiset(Entries(At(r.tree, pos))) == multiset(Entries(At(t, pos))) &&
      SameFields(At(t, pos), At(r.tree, pos)) &&
      (!(opts.sortByTime && opts.filter == NoFilter && IsDir(At(t, pos))) ==> r.tree == t)
  {
    var es := Entries(At(t, pos));
    ArrangeLength(es, opts);
    VisibleLength(Arrange(es, opts), landed, opts.showAll);
  }

  /** Whatever the options, the step after the walk changes the caller's tree
      only inside the target's subtree. */
  lemma ShowFrame(t: Node, pos: seq<nat>, landed: bool, opts: Options, fmtTime: int -> string)
    requires ValidPos(t, pos)
    ensures ChangedOnlyBelow(t, Show(t, pos, landed, opts, fmtTime).tree, pos)
  {
    var target := At(t, pos);
    if opts.sortByTime && opts.filter == NoFilter && IsDir(target) {
      UpdateFrame(t, pos, target.(contents := Some(SortByTime(Children(target)))));
    } else {
      UpdateSame(t, pos);
      UpdateFrame(t, pos, target);
    }
  }

  /** A long line starts with the mode and a space and ends with the name;
      the size and time columns sit between them. */
  lemma LineShape(item: Node, opts: Options, fmtTime: int -> string)
    requires opts.longFormat
    ensures var l := Line(item, opts, fmtTime);
      |l| > |Mode(item)| + |item.name| + 1 &&
      l[..|Mode(item)| + 1] == Mode(item) + " " &&
      l[|l| - |item.name|..] == item.name
  {
    var head := Mode(item) + " ";
    var middle := SizeField(item.size, opts.humanReadable) + " " + fmtTime(item.timeModified) + " ";
    assert Line(item, opts, fmtTime) == head + middle + item.name;
    assert (head + middle + item.name)[..|head|] == head;
    assert (head + middle + item.name)[|head + middle|..] == item.name;
  }

  // ------------------------------------------------------- what is printed

  /** Without `-A`, a short listing prints no name that starts with `.`, apart
      from the renamed file the walk lands on. */
  lemma ShortListingHidesDotNames(tree: Node, path: string, opts: Options, fmtTime: int -> string)
    requires !opts.showAll && !opts.longFormat
    requires path != "" ==>
      var d := Descend(tree, Split(path, '/'));
      !(d.complete && !IsDir(At(tree, d.pos)))
    ensures forall l :: l in Listing(tree, path, opts, fmtTime).lines ==> !StartsWithDot(l)
  {
    var out := Listing(tree, path, opts, fmtTime);
    if path != "" {
      ListingClosedForm(tree, path, opts, fmtTime);
    }
    if path == "" || Descend(tree, Split(path, '/')).complete {
      var p := if path == "" then [] else Descend(tree, Split(path, '/')).pos;
      var t := if path == "" then tree else RenameIfFile(tree, p, "./" + path);
      var shown := Shown(t, p, false, opts);
      assert out.lines == Lines(shown, opts, fmtTime);
      forall l | l in out.lines ensures !StartsWithDot(l) {
        var i :| 0 <= i < |out.lines| && out.lines[i] == l;
        assert shown[i] in shown;
      }
    } else {
      assert out.lines == [NotFoundLine(path)];
    }
  }

  /** Entries none of which is hidden are all printed, in place. That is
      every entry under `-A`, and the renamed file the walk lands on. */
  lemma {:induction false} VisibleUnhidden(s: seq<Node>, landed: bool, showAll: bool)
    requires forall i :: 0 <= i < |s| ==> IsShown(s[i], landed, showAll)
    ensures Visible(s, landed, showAll) == s
  {
    if s != [] {
      VisibleUnhidden(s[..|s| - 1], landed, showAll);
      assert s == s[..|s| - 1] + [s[|s| - 1]];
    }
  }

  /** A hidden first entry is dropped and the rest is printed as before. */
  lemma {:induction false} VisibleCons(x: Node, s: seq<Node>, landed: bool, showAll: bool)
    ensures Visible([x] + s, landed, showAll) ==
      (if IsShown(x, landed, showAll) then [x] else []) + Visible(s, landed, showAll)
    decreases |s|
  {
    var xs := [x] + s;
    if s == [] {
      assert xs[..0] == [];
    } else {
      var init := s[..|s| - 1];
      assert xs[..|xs| - 1] == [x] + init;
      VisibleCons(x, init, landed, showAll);
    }
  }

  /** Under `-A` every entry the stages leave is printed, in their order. */
  lemma ShowAllListsEverything(t: Node, pos: seq<nat>, landed: bool, opts: Options)
    requires ValidPos(t, pos) && opts.showAll
    ensures Shown(t, pos, landed, opts) == Arrange(Entries(At(t, pos)), opts)
  {
    VisibleUnhidden(Arrange(Entries(At(t, pos)), opts), landed, true);
  }

  /** Dropping hidden entries keeps the order of the rest: what `-t` sorted
      stays sorted once hidden names are left out. */
  lemma {:induction false} VisibleSorted(s: seq<Node>, landed: bool, showAll: bool)
    requires SortedByTime(s)
    ensures SortedByTime(Visible(s, landed, showAll))
  {
    if s != [] {
      var init, last := s[..|s| - 1], s[|s| - 1];
      assert SortedByTime(init) by {
        forall i, j | 0 <= i < j < |init| ensures init[i].timeModified <= init[j].timeModified {
          assert init[i] == s[i] && init[j] == s[j];
        }
      }
      VisibleSorted(init, landed, showAll);
      var v := Visible(init, landed, showAll);
      if IsShown(last, landed, showAll) {
        var r := v + [last];
        forall i, j | 0 <= i < j < |r| ensures r[i].timeModified <= r[j].timeModified {
          if j == |v| {
            assert r[i] in init;
            var k :| 0 <= k < |init| && init[k] == r[i];
            assert s[k] == r[i];
          } else {
            assert r[i] == v[i] && r[j] == v[j];
          }
        }
      }
    }
  }

  /** The same for `-t -r`: newest first stays newest first. */
  lemma {:induction false} VisibleNewestFirst(s: seq<Node>, landed: bool, showAll: bool)
    requires NewestFirst(s)
    ensures NewestFirst(Visible(s, landed, showAll))
  {
    if s != [] {
      var init, last := s[..|s| - 1], s[|s| - 1];
      assert NewestFirst(init) by {
        forall i, j | 0 <= i < j < |init| ensures init[i].timeModified >= init[j].timeModified {
          assert init[i] == s[i] && init[j] == s[j];
        }
      }
      VisibleNewestFirst(init, landed, showAll);
      var v := Visible(init, landed, showAll);
      if IsShown(last, landed, showAll) {
        var r := v + [last];
        forall i, j | 0 <= i < j < |r| ensures r[i].timeModified >= r[j].timeModified {
          if j == |v| {
            assert r[i] in init;
            var k :| 0 <= k < |init| && init[k] == r[i];
            assert s[k] == r[i];
          } else {
            assert r[i] == v[i] && r[j] == v[j];
          }
        }
      }
    }
  }

  lemma {:induction false} ReverseMultiset(s: seq<Node>)
    ensures multiset(Reverse(s)) == multiset(s)
  {
    if s != [] {
      var init := s[..|s| - 1];
      ReverseMultiset(init);
      assert Reverse(s) == [s[|s| - 1]] + Reverse(init);
      assert s == init + [s[|s| - 1]];
    }
  }

  /** The entries the stages leave are the filtered ones, each passing the
      filter: sorting and reversing only reorder them. */
  lemma ArrangeKeeps(es: seq<Node>, opts: Options)
    ensures multiset(Arrange(es, opts)) == multiset(ApplyFilter(es, opts.filter))
    ensures forall x :: x in Arrange(es, opts) ==> Keeps(opts.filter, x)
  {
    ApplyNoFilter(es);
    var filtered := ApplyFilter(es, opts.filter);
    var sorted := if opts.sortByTime then SortByTime(filtered) else filtered;
    assert multiset(sorted) == multiset(filtered);
    ReverseMultiset(sorted);
    var r := Arrange(es, opts);
    assert multiset(r) == multiset(filtered);
    forall x | x in r ensures Keeps(opts.filter, x) {
      assert x in multiset(r);
      assert x in filtered;
    }
  }

  /** `-t` puts the entries in time order, oldest first; `-r` reverses what is
      there, so with `-t` it gives newest first and without `-t` it gives the
      filtered entries back to front. */
  lemma ArrangeOrder(es: seq<Node>, opts: Options)
    ensures opts.sortByTime && !opts.reverse ==> SortedByTime(Arrange(es, opts))
    ensures opts.sortByTime && opts.reverse ==> NewestFirst(Arrange(es, opts))
    ensures !opts.sortByTime && !opts.reverse ==> Arrange(es, opts) == ApplyFilter(es, opts.filter)
    ensures !opts.sortByTime && opts.reverse ==> Arrange(es, opts) == Reverse(ApplyFilter(es, opts.filter))
  {
    ApplyNoFilter(es);
    var filtered := ApplyFilter(es, opts.filter);
    if opts.sortByTime && opts.reverse {
      ReverseOfSorted(SortByTime(filtered));
    }
  }

  /** The entries printed for any target pass the filter and, under `-t`, come
      out oldest first, or newest first with `-r`. */
  lemma ShownOrder(t: Node, pos: seq<nat>, landed: bool, opts: Options)
    requires ValidPos(t, pos)
    ensures forall x :: x in Shown(t, pos, landed, opts) ==> Keeps(opts.filter, x)
    ensures opts.sortByTime && !opts.reverse ==> SortedByTime(Shown(t, pos, landed, opts))
    ensures opts.sortByTime && opts.reverse ==> NewestFirst(Shown(t, pos, landed, opts))
  {
    var arranged := Arrange(Entries(At(t, pos)), opts);
    ArrangeKeeps(Entries(At(t, pos)), opts);
    ArrangeOrder(Entries(At(t, pos)), opts);
    if opts.sortByTime && !opts.reverse {
      VisibleSorted(arranged, landed, opts.showAll);
    }
    if opts.sortByTime && opts.reverse {
      VisibleNewestFirst(arranged, landed, opts.showAll);
    }
  }
}
