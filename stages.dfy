/** The three stages between selecting the entries and printing them:
    `--filter`, `-t` (a stable sort by modification time) and `-r`. */
module Stages {
  import opened Tree

  datatype FilterOption = NoFilter | FileOnly | DirOnly

  /** Whether an entry survives the filter. `file` keeps `not item.get('contents')`,
      `dir` keeps `item.get('contents')`: both test for a non-empty list, so an
      empty directory counts as a file. */
  predicate Keeps(f: FilterOption, item: Node)
  {
    match f
    case NoFilter => true
    case FileOnly => !HasEntries(item)
    case DirOnly => HasEntries(item)
  }

  /** The list comprehension of the filter: the surviving entries, in order. */
  function ApplyFilter(s: seq<Node>, f: FilterOption): (r: seq<Node>)
    ensures forall x :: x in r ==> x in s && Keeps(f, x)
    ensures forall x :: x in s && Keeps(f, x) ==> x in r
  {
    if s == [] then []
    else
      var rest := ApplyFilter(s[1..], f);
      assert s == [s[0]] + s[1..];
      if Keeps(f, s[0]) then [s[0]] + rest else rest
  }

  /** The filter keeps order: filtering a concatenation filters each part. */
  lemma {:induction false} ApplyFilterConcat(a: seq<Node>, b: seq<Node>, f: FilterOption)
    ensures ApplyFilter(a + b, f) == ApplyFilter(a, f) + ApplyFilter(b, f)
  {
    if a != [] {
      assert (a + b)[0] == a[0] && (a + b)[1..] == a[1..] + b;
      ApplyFilterConcat(a[1..], b, f);
    } else {
      assert a + b == b;
    }
  }

  /** No filter is the identity. */
  lemma {:induction false} ApplyNoFilter(s: seq<Node>)
    ensures ApplyFilter(s, NoFilter) == s
  {
    if s != [] {
      ApplyNoFilter(s[1..]);
      assert s == [s[0]] + s[1..];
    }
  }

  /** `file` and `dir` split the entries between them: together they hold
      every entry exactly as often as the input does. */
  lemma {:induction false} FilterPartition(s: seq<Node>)
    ensures multiset(ApplyFilter(s, FileOnly)) + multiset(ApplyFilter(s, DirOnly)) == multiset(s)
    ensures |ApplyFilter(s, FileOnly)| + |ApplyFilter(s, DirOnly)| == |s|
  {
    if s != [] {
      FilterPartition(s[1..]);
      assert s == [s[0]] + s[1..];
    }
  }

  predicate SortedByTime(s: seq<Node>)
  {
    forall i, j :: 0 <= i < j < |s| ==> s[i].timeModified <= s[j].timeModified
  }

  /** `x` placed before the first entry whose time is not smaller than its own. */
  function Insert(x: Node, s: seq<Node>): (r: seq<Node>)
    ensures multiset(r) == multiset(s) + multiset{x}
  {
    if s == [] then [x]
    else if x.timeModified <= s[0].timeModified then [x] + s
    else
      assert s == [s[0]] + s[1..];
      [s[0]] + Insert(x, s[1..])
  }

  /** An entry no later than any of a sorted list's entries may go in front. */
  lemma ConsSorted(a: Node, s: seq<Node>)
    requires SortedByTime(s)
    requires forall k :: 0 <= k < |s| ==> a.timeModified <= s[k].timeModified
    ensures SortedByTime([a] + s)
  {
    var r := [a] + s;
    forall i, j | 0 <= i < j < |r| ensures r[i].timeModified <= r[j].timeModified {
      assert r[j] == s[j - 1];
      if i > 0 {
        assert r[i] == s[i - 1];
      }
    }
  }

  lemma {:induction false} InsertSorted(x: Node, s: seq<Node>)
    requires SortedByTime(s)
    ensures SortedByTime(Insert(x, s))
  {
    if s == [] {
    } else if x.timeModified <= s[0].timeModified {
      ConsSorted(x, s);
    } else {
      var rest := Insert(x, s[1..]);
      assert s == [s[0]] + s[1..];
      InsertSorted(x, s[1..]);
      forall k | 0 <= k < |rest| ensures s[0].timeModified <= rest[k].timeModified {
        assert rest[k] in multiset(rest);
        if rest[k] != x {
          assert rest[k] in multiset(s[1..]);
        }
      }
      ConsSorted(s[0], rest);
    }
  }

  /** `contents.sort(key=lambda x: x['time_modified'])`: Python's sort is stable,
      so this is an insertion sort that keeps equal times in input order. */
  function SortByTime(s: seq<Node>): (r: seq<Node>)
    ensures SortedByTime(r)
    ensures multiset(r) == multiset(s)
  {
    if s == [] then []
    else
      assert s == [s[0]] + s[1..];
      InsertSorted(s[0], SortByTime(s[1..]));
      Insert(s[0], SortByTime(s[1..]))
  }

  /** The entries with time `k`, in order. */
  function WithTime(s: seq<Node>, k: int): seq<Node>
  {
    if s == [] then []
    else (if s[0].timeModified == k then [s[0]] else []) + WithTime(s[1..], k)
  }

  lemma WithTimeCons(a: Node, t: seq<Node>, k: int)
    ensures WithTime([a] + t, k) == (if a.timeModified == k then [a] else []) + WithTime(t, k)
  {
    assert ([a] + t)[1..] == t;
  }

  lemma {:induction false} WithTimeInsert(x: Node, s: seq<Node>, k: int)
    ensures WithTime(Insert(x, s), k) == (if x.timeModified == k then [x] else []) + WithTime(s, k)
  {
    if s == [] {
      WithTimeCons(x, [], k);
    } else if x.timeModified <= s[0].timeModified {
      WithTimeCons(x, s, k);
    } else {
      var tail := Insert(x, s[1..]);
      WithTimeCons(s[0], tail, k);
      WithTimeInsert(x, s[1..], k);
      WithTimeCons(s[0], s[1..], k);
      assert [s[0]] + s[1..] == s;
    }
  }

  /** Stability: for every time, the entries with that time come out in the
      order they went in. With sortedness and the permutation this fixes the
      result completely. */
  lemma {:induction false} SortByTimeStable(s: seq<Node>, k: int)
    ensures WithTime(SortByTime(s), k) == WithTime(s, k)
  {
    if s != [] {
      WithTimeInsert(s[0], SortByTime(s[1..]), k);
      SortByTimeStable(s[1..], k);
    }
  }

  /** Sorting entries that are already in time order changes nothing. */
  lemma {:induction false} SortByTimeSorted(s: seq<Node>)
    requires SortedByTime(s)
    ensures SortByTime(s) == s
  {
    if s != [] {
      SortByTimeSorted(s[1..]);
      assert s == [s[0]] + s[1..];
    }
  }

  /** `reversed(contents)`. */
  function Reverse(s: seq<Node>): (r: seq<Node>)
    ensures |r| == |s|
    ensures forall i :: 0 <= i < |s| ==> r[i] == s[|s| - 1 - i]
  {
    if s == [] then [] else [s[|s| - 1]] + Reverse(s[..|s| - 1])
  }

  lemma ReverseReverse(s: seq<Node>)
    ensures Reverse(Reverse(s)) == s
  {
  }

  /** Entries in non-increasing time order: what `-t -r` produces. */
  predicate NewestFirst(s: seq<Node>)
  {
    forall i, j :: 0 <= i < j < |s| ==> s[i].timeModified >= s[j].timeModified
  }

  /** Reversing a time-sorted list gives non-increasing times (`-t -r`). */
  lemma ReverseOfSorted(s: seq<Node>)
    requires SortedByTime(s)
    ensures NewestFirst(Reverse(s))
  {
  }
}
