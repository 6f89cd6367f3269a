/** `ls`: resolve a `/`-separated path in the snapshot, select the entries to
    list, filter, sort and reverse them, and print one line per entry that is
    not hidden. The source mutates the caller's tree (it renames a file the
    walk lands on, and `-t` without `--filter` sorts a directory's own list),
    so every result carries the tree as the call leaves it. */
module Lister {
  import opened Wrappers
  import opened Text
  import opened Tree
  import opened Permissions
  import opened Size
  import opened Stages

  /** The keyword arguments of `ls` (`-A`, `-l`, `-r`, `-t`, `--filter`, `-h`). */
  datatype Options = Options(
    showAll: bool,
    longFormat: bool,
    reverse: bool,
    sortByTime: bool,
    filter: FilterOption,
    humanReadable: bool)

  const Defaults := Options(false, false, false, false, NoFilter, false)

  /** What a call prints, one string per line, and the tree it leaves behind. */
  datatype Outcome = Outcome(lines: seq<string>, tree: Node)

  function NotFoundLine(path: string): string
  {
    "error: cannot access '" + path + "': No such file or directory"
  }

  // ---------------------------------------------------------------- path walk

  /** The index of the first child named `name`, in declared order. */
  function FirstMatch(cs: seq<Node>, name: string): (r: Option<nat>)
    ensures r.Some? ==> r.value < |cs| && cs[r.value].name == name
    ensures r.Some? ==> forall j :: 0 <= j < r.value ==> cs[j].name != name
    ensures r.None? ==> forall j :: 0 <= j < |cs| ==> cs[j].name != name
  {
    if cs == [] then None
    else if cs[0].name == name then Some(0)
    else match FirstMatch(cs[1..], name)
      case None => None
      case Some(i) => Some(i + 1)
  }

  /** The inner `for item in ...: if item['name'] == directory: ... break`. */
  method FindChild(cs: seq<Node>, name: string) returns (found: bool, k: nat)
    ensures found ==> k < |cs| && cs[k].name == name
    ensures found ==> forall j :: 0 <= j < k ==> cs[j].name != name
    ensures !found ==> forall j :: 0 <= j < |cs| ==> cs[j].name != name
  {
    found, k := false, 0;
    while k < |cs|
      invariant 0 <= k <= |cs|
      invariant forall j :: 0 <= j < k ==> cs[j].name != name
    {
      if cs[k].name == name {
        found := true;
        return;
      }
      k := k + 1;
    }
  }

  /** `current_directory['name'] = "./" + path` when the node at `pos` has no
      `contents` key; the tree is unchanged otherwise. */
  function RenameIfFile(t: Node, pos: seq<nat>, name: string): (r: Node)
    requires ValidPos(t, pos)
    ensures ValidPos(r, pos)
    ensures IsDir(At(t, pos)) ==> r == t
    ensures !IsDir(At(t, pos)) ==> At(r, pos) == At(t, pos).(name := name)
  {
    var n := At(t, pos);
    if IsDir(n) then t else Update(t, pos, n.(name := name))
  }

  /** Where the walk ends: the position reached with the tree as it is then and
      `modified_path`, or the not-found exit with the tree as it is then. */
  datatype Walked = Reached(tree: Node, pos: seq<nat>, landed: bool) | Missing(tree: Node)

  /** The segment loop, one segment per step, from the node at `pos`. */
  function Walk(t: Node, pos: seq<nat>, segs: seq<string>, path: string, landed: bool): (w: Walked)
    requires ValidPos(t, pos)
    ensures w.Reached? ==> ValidPos(w.tree, w.pos)
    decreases |segs|
  {
    if segs == [] then Reached(t, pos, landed)
    else
      var m := FirstMatch(Children(At(t, pos)), segs[0]);
      var next := if m.Some? then pos + [m.value] else pos;
      assert ValidPos(t, next) by {
        if m.Some? { AtChild(t, pos, m.value); }
      }
      var t' := RenameIfFile(t, next, "./" + path);
      var landed' := landed || !IsDir(At(t, next));
      if m.None? then Missing(t') else Walk(t', next, segs[1..], path, landed')
  }

  /** The same first-match descent on the tree as given, without renaming: the
      position it gets to and whether every segment matched. */
  datatype Descent = Descent(pos: seq<nat>, complete: bool)

  function Descend(n: Node, segs: seq<string>): (d: Descent)
    ensures ValidPos(n, d.pos)
    decreases |segs|
  {
    if segs == [] then Descent([], true)
    else match FirstMatch(Children(n), segs[0])
      case None => Descent([], false)
      case Some(j) =>
        var d := Descend(Children(n)[j], segs[1..]);
        assert ([j] + d.pos)[0] == j && ([j] + d.pos)[1..] == d.pos;
        Descent([j] + d.pos, d.complete)
  }

  /** How a walk ends once it stops at `q`: the node there is renamed if it is
      a file, and the walk succeeds when every segment matched. */
  function Finish(t: Node, q: seq<nat>, complete: bool, path: string, landed: bool): Walked
    requires ValidPos(t, q)
  {
    var t' := RenameIfFile(t, q, "./" + path);
    if complete then Reached(t', q, landed || !IsDir(At(t, q))) else Missing(t')
  }

  /** What the walk comes to, stated without stepping: the descent on the tree
      as given decides where it stops and whether it succeeds. */
  function WalkOutcome(t: Node, pos: seq<nat>, segs: seq<string>, path: string, landed: bool): Walked
    requires ValidPos(t, pos)
  {
    var d := Descend(At(t, pos), segs);
    AtConcat(t, pos, d.pos);
    Finish(t, pos + d.pos, d.complete, path, landed)
  }

  lemma WalkNoMatch(t: Node, pos: seq<nat>, segs: seq<string>, path: string, landed: bool)
    requires ValidPos(t, pos) && |segs| >= 1
    requires FirstMatch(Children(At(t, pos)), segs[0]).None?
    ensures Walk(t, pos, segs, path, landed) == WalkOutcome(t, pos, segs, path, landed)
  {
    assert pos + [] == pos;
  }

  lemma WalkLastSegment(t: Node, pos: seq<nat>, segs: seq<string>, path: string, landed: bool)
    requires ValidPos(t, pos) && |segs| == 1
    requires FirstMatch(Children(At(t, pos)), segs[0]).Some?
    ensures Walk(t, pos, segs, path, landed) == WalkOutcome(t, pos, segs, path, landed)
  {
    var n := At(t, pos);
    var j := FirstMatch(Children(n), segs[0]).value;
    AtChild(t, pos, j);
    assert Descend(Children(n)[j], segs[1..]) == Descent([], true);
    assert [j] + [] == [j];
  }

  /** A file part-way along the path: it is renamed, and the next segment fails. */
  lemma WalkIntoFile(t: Node, pos: seq<nat>, segs: seq<string>, path: string, landed: bool)
    requires ValidPos(t, pos) && |segs| >= 2
    requires FirstMatch(Children(At(t, pos)), segs[0]).Some?
    requires var j := FirstMatch(Children(At(t, pos)), segs[0]).value;
      !IsDir(Children(At(t, pos))[j])
    ensures Walk(t, pos, segs, path, landed) == WalkOutcome(t, pos, segs, path, landed)
  {
    var n := At(t, pos);
    var name := "./" + path;
    var j := FirstMatch(Children(n), segs[0]).value;
    var next := pos + [j];
    AtChild(t, pos, j);
    var c := At(t, next);
    var c' := c.(name := name);
    var t' := Update(t, next, c');
    assert RenameIfFile(t, next, name) == t';
    assert Walk(t, pos, segs, path, landed) == Walk(t', next, segs[1..], path, true);
    assert At(t', next) == c';
    assert FirstMatch(Children(c'), segs[1]).None?;
    WalkNoMatch(t', next, segs[1..], path, true);
    assert next + [] == next;
    UpdateUpdate(t, next, c', c');
    assert Walk(t, pos, segs, path, landed) == Missing(t');
    assert Descend(c, segs[1..]) == Descent([], false);
    assert Descend(n, segs) == Descent([j], false);
  }

  /** One step of the walk when the segment matches child `j`. */
  lemma WalkStep(t: Node, pos: seq<nat>, segs: seq<string>, path: string, landed: bool, j: nat)
    requires ValidPos(t, pos) && |segs| >= 1
    requires FirstMatch(Children(At(t, pos)), segs[0]) == Some(j)
    ensures ValidPos(t, pos + [j]) && At(t, pos + [j]) == Children(At(t, pos))[j]
    ensures Walk(t, pos, segs, path, landed) ==
      Walk(RenameIfFile(t, pos + [j], "./" + path), pos + [j], segs[1..], path,
           landed || !IsDir(At(t, pos + [j])))
  {
    AtChild(t, pos, j);
  }

  /** A directory part-way along the path is not renamed: the walk goes on
      from it with the tree unchanged. */
  lemma WalkThroughDir(t: Node, pos: seq<nat>, segs: seq<string>, path: string, landed: bool, j: nat)
    requires ValidPos(t, pos) && |segs| >= 1
    requires FirstMatch(Children(At(t, pos)), segs[0]) == Some(j)
    requires IsDir(Children(At(t, pos))[j])
    ensures ValidPos(t, pos + [j])
    ensures Walk(t, pos, segs, path, landed) == Walk(t, pos + [j], segs[1..], path, landed)
  {
    WalkStep(t, pos, segs, path, landed, j);
  }

  /** The closed form from a directory equals the closed form from its
      matching child. */
  lemma OutcomeThroughDir(t: Node, pos: seq<nat>, segs: seq<string>, path: string, landed: bool, j: nat)
    requires ValidPos(t, pos) && |segs| >= 1
    requires FirstMatch(Children(At(t, pos)), segs[0]) == Some(j)
    ensures ValidPos(t, pos + [j])
    ensures WalkOutcome(t, pos + [j], segs[1..], path, landed) == WalkOutcome(t, pos, segs, path, landed)
  {
    DescendIntoChild(t, pos, segs, j);
    var d' := Descend(At(t, pos + [j]), segs[1..]);
    var d := Descend(At(t, pos), segs);
    assert d.pos == [j] + d'.pos;
    SeqAssoc(pos, [j], d'.pos);
    assert pos + d.pos == (pos + [j]) + d'.pos;
    var q := (pos + [j]) + d'.pos;
    AtConcat(t, pos + [j], d'.pos);
    assert WalkOutcome(t, pos + [j], segs[1..], path, landed) == Finish(t, q, d'.complete, path, landed);
    AtConcat(t, pos, d.pos);
    assert WalkOutcome(t, pos, segs, path, landed) == Finish(t, q, d'.complete, path, landed);
  }

  lemma SeqAssoc<T>(a: seq<T>, b: seq<T>, c: seq<T>)
    ensures (a + b) + c == a + (b + c)
  {
  }

  /** The descent from the node at `pos` continues from its matching child. */
  lemma DescendIntoChild(t: Node, pos: seq<nat>, segs: seq<string>, j: nat)
    requires ValidPos(t, pos) && |segs| >= 1
    requires FirstMatch(Children(At(t, pos)), segs[0]) == Some(j)
    ensures ValidPos(t, pos + [j])
    ensures var d' := Descend(At(t, pos + [j]), segs[1..]);
      Descend(At(t, pos), segs) == Descent([j] + d'.pos, d'.complete)
  {
    AtChild(t, pos, j);
  }

  /** The walk, in closed form. */
  lemma {:induction false} WalkDescends(t: Node, pos: seq<nat>, segs: seq<string>, path: string, landed: bool)
    requires ValidPos(t, pos) && |segs| >= 1
    ensures Walk(t, pos, segs, path, landed) == WalkOutcome(t, pos, segs, path, landed)
    decreases |segs|
  {
    var n := At(t, pos);
    var m := FirstMatch(Children(n), segs[0]);
    if m.None? {
      WalkNoMatch(t, pos, segs, path, landed);
    } else if |segs| == 1 {
      WalkLastSegment(t, pos, segs, path, landed);
    } else if !IsDir(Children(n)[m.value]) {
      WalkIntoFile(t, pos, segs, path, landed);
    } else {
      WalkThroughDir(t, pos, segs, path, landed, m.value);
      WalkDescends(t, pos + [m.value], segs[1..], path, landed);
      OutcomeThroughDir(t, pos, segs, path, landed, m.value);
    }
  }

  // ------------------------------------------------- selection and ordering

  /** `current_directory['contents']` when the key is there, else the node alone. */
  function Entries(target: Node): (es: seq<Node>)
    ensures IsDir(target) ==> es == Children(target)
    ensures !IsDir(target) ==> es == [target]
  {
    if IsDir(target) then target.contents.value else [target]
  }

  /** Filter (only when an option is given), then `-t`, then `-r`. */
  function Arrange(entries: seq<Node>, opts: Options): seq<Node>
  {
    var filtered := if opts.filter == NoFilter then entries else ApplyFilter(entries, opts.filter);
    var sorted := if opts.sortByTime then SortByTime(filtered) else filtered;
    if opts.reverse then Reverse(sorted) else sorted
  }

  /** `show_all or not item['name'].startswith('.') or modified_path`. */
  predicate IsShown(item: Node, landed: bool, showAll: bool)
  {
    showAll || !StartsWithDot(item.name) || landed
  }

  /** The entries the final loop prints, in order. */
  function Visible(s: seq<Node>, landed: bool, showAll: bool): (r: seq<Node>)
    ensures forall x :: x in r ==> x in s && IsShown(x, landed, showAll)
    ensures forall x :: x in s && IsShown(x, landed, showAll) ==> x in r
  {
    if s == [] then []
    else
      var last := s[|s| - 1];
      assert s == s[..|s| - 1] + [last];
      Visible(s[..|s| - 1], landed, showAll) + (if IsShown(last, landed, showAll) then [last] else [])
  }

  // --------------------------------------------------------------- rendering

  /** The size column: `format_size(size)` under `-h`, else `str(size)`. */
  function SizeField(size: int, humanReadable: bool): string
  {
    if humanReadable then SizeText(size) else IntToString(size)
  }

  /** One printed line. `fmtTime` stands for the local-time `strftime('%b %d %H:%M')`. */
  function Line(item: Node, opts: Options, fmtTime: int -> string): string
  {
    if opts.longFormat then
      Mode(item) + " " + SizeField(item.size, opts.humanReadable) + " " + fmtTime(item.timeModified) + " " + item.name
    else item.name
  }

  function Lines(s: seq<Node>, opts: Options, fmtTime: int -> string): (r: seq<string>)
    ensures |r| == |s|
    ensures forall i :: 0 <= i < |s| ==> r[i] == Line(s[i], opts, fmtTime)
  {
    if s == [] then []
    else
      var init := s[..|s| - 1];
      var last := Line(s[|s| - 1], opts, fmtTime);
      assert forall i :: 0 <= i < |init| ==> init[i] == s[i];
      Lines(init, opts, fmtTime) + [last]
  }

  /** The entries printed for the node at `pos`. */
  function Shown(t: Node, pos: seq<nat>, landed: bool, opts: Options): seq<Node>
    requires ValidPos(t, pos)
  {
    Visible(Arrange(Entries(At(t, pos)), opts), landed, opts.showAll)
  }

  /** Everything after the walk: the lines printed, and the tree after `-t`
      has sorted the target's own `contents` list (only when no filter made a
      copy of it). */
  function Show(t: Node, pos: seq<nat>, landed: bool, opts: Options, fmtTime: int -> string): Outcome
    requires ValidPos(t, pos)
  {
    var target := At(t, pos);
    var t' :=
      if opts.sortByTime && opts.filter == NoFilter && IsDir(target)
      then Update(t, pos, target.(contents := Some(SortByTime(Children(target)))))
      else t;
    Outcome(Lines(Shown(t, pos, landed, opts), opts, fmtTime), t')
  }

  /** The whole of `ls`. */
  function Listing(tree: Node, path: string, opts: Options, fmtTime: int -> string): Outcome
  {
    if path == "" then Show(tree, [], false, opts, fmtTime)
    else match Walk(tree, [], Split(path, '/'), path, false)
      case Missing(t) => Outcome([NotFoundLine(path)], t)
      case Reached(t, pos, landed) => Show(t, pos, landed, opts, fmtTime)
  }

  /** The segment loop of `ls`, with its `found` flag and `break`: `ok` is false
      on the not-found exit; otherwise `current` is the node at `pos` in `t`. */
  method WalkPath(tree: Node, path: string)
    returns (ok: bool, t: Node, pos: seq<nat>, current: Node, landed: bool)
    requires path != ""
    ensures ok ==> ValidPos(t, pos) && current == At(t, pos)
    ensures Walk(tree, [], Split(path, '/'), path, false) ==
      if ok then Reached(t, pos, landed) else Missing(t)
  {
    landed := false;
    t := tree;
    pos := [];
    current := tree;
    var segments := Split(path, '/');
    var i := 0;
    while i < |segments|
      invariant 0 <= i <= |segments|
      invariant ValidPos(t, pos) && current == At(t, pos)
      invariant Walk(tree, [], segments, path, false) == Walk(t, pos, segments[i..], path, landed)
    {
      ghost var (t0, pos0, landed0) := (t, pos, landed);
      assert segments[i..][0] == segments[i] && segments[i..][1..] == segments[i + 1..];
      var cs := Children(current);
      var found, k := FindChild(cs, segments[i]);
      ghost var m := FirstMatch(cs, segments[i]);
      assert found == m.Some? && (found ==> k == m.value);
      if found {
        AtChild(t, pos, k);
        current := cs[k];
        pos := pos + [k];
      }
      assert t == t0 && pos == (if m.Some? then pos0 + [m.value] else pos0);
      if current.contents.None? {
        current := current.(name := "./" + path);
        t := Update(t, pos, current);
        landed := true;
      }
      assert t == RenameIfFile(t0, pos, "./" + path);
      assert landed == (landed0 || !IsDir(At(t0, pos)));
      if !found {
        ok := false;
        return;
      }
      i := i + 1;
    }
    ok := true;
  }

  /** One printed line: the `-l` columns joined by spaces, or the bare name. */
  method RenderLine(item: Node, opts: Options, fmtTime: int -> string) returns (line: string)
    ensures line == Line(item, opts, fmtTime)
  {
    if opts.longFormat {
      var mode := Mode(item);
      var size := IntToString(item.size);
      if opts.humanReadable {
        size := FormatSize(item.size);
      }
      line := mode + " " + size + " " + fmtTime(item.timeModified) + " " + item.name;
    } else {
      line := item.name;
    }
  }

  lemma VisibleSnoc(s: seq<Node>, x: Node, landed: bool, showAll: bool)
    ensures Visible(s + [x], landed, showAll) ==
      Visible(s, landed, showAll) + (if IsShown(x, landed, showAll) then [x] else [])
  {
    assert (s + [x])[..|s + [x]| - 1] == s;
  }

  lemma LinesSnoc(s: seq<Node>, x: Node, opts: Options, fmtTime: int -> string)
    ensures Lines(s + [x], opts, fmtTime) == Lines(s, opts, fmtTime) + [Line(x, opts, fmtTime)]
  {
    assert (s + [x])[..|s + [x]| - 1] == s;
  }

  /** The printing loop: one line per entry that is not hidden. */
  method Emit(contents: seq<Node>, landed: bool, opts: Options, fmtTime: int -> string)
    returns (out: seq<string>)
    ensures out == Lines(Visible(contents, landed, opts.showAll), opts, fmtTime)
  {
    out := [];
    for j := 0 to |contents|
      invariant out == Lines(Visible(contents[..j], landed, opts.showAll), opts, fmtTime)
    {
      var item := contents[j];
      assert contents[..j + 1] == contents[..j] + [item];
      VisibleSnoc(contents[..j], item, landed, opts.showAll);
      if opts.showAll || !StartsWithDot(item.name) || landed {
        var line := RenderLine(item, opts, fmtTime);
        LinesSnoc(Visible(contents[..j], landed, opts.showAll), item, opts, fmtTime);
        out := out + [line];
      }
    }
    assert contents[..|contents|] == contents;
  }

  /** `ls` as the source runs it: the walk, the selection, the stages (`-t`
      sorting the tree's own list when no filter copied it) and the printing. */
  method Ls(tree: Node, path: string, opts: Options, fmtTime: int -> string)
    returns (out: seq<string>, updated: Node)
    ensures Outcome(out, updated) == Listing(tree, path, opts, fmtTime)
  {
    var t, pos, current, landed := tree, [], tree, false;
    if path != "" {
      var ok;
      ok, t, pos, current, landed := WalkPath(tree, path);
      if !ok {
        out, updated := [NotFoundLine(path)], t;
        return;
      }
    }
    var contents: seq<Node>;
    if current.contents.Some? {
      contents := current.contents.value;
    } else {
      contents := [current];
    }
    if opts.filter != NoFilter {
      contents := ApplyFilter(contents, opts.filter);
    }
    if opts.sortByTime {
      contents := SortByTime(contents);
      if opts.filter == NoFilter && current.contents.Some? {
        // list.sort reordered the tree's own list
        t := Update(t, pos, current.(contents := Some(contents)));
      }
    }
    if opts.reverse {
      contents := Reverse(contents);
    }
    out := Emit(contents, landed, opts, fmtTime);
    updated := t;
  }
}
