/** What callers may rely on about path resolution, for every directory tree. */
module VfsPathLaws {
  import opened Machine
  import opened CString
  import opened Fat32
  import opened Fat32Listing
  import opened VfsPath

  // ----- slashes

  /** One leading slash is ignored. */
  lemma LeadingSlash(fs: Fs, p: seq<Byte>)
    requires p != [] && p[0] != SLASH && |p| < MAX_PATH - 1
    ensures Resolve(fs, [SLASH] + p) == Resolve(fs, p)
  {
    assert ([SLASH] + p)[1..] == p;
  }

  lemma {:induction false} SplitAppendSlash(p: seq<Byte>)
    ensures Split(p + [SLASH]) == Split(p) + [[]]
  {
    if p == [] {
      assert p + [SLASH] == [SLASH] && [SLASH][1..] == [];
    } else {
      assert (p + [SLASH])[1..] == p[1..] + [SLASH];
      SplitAppendSlash(p[1..]);
    }
  }

  lemma {:induction false} SplitLastPart(p: seq<Byte>)
    requires p != [] && p[|p| - 1] != SLASH
    ensures var parts := Split(p); parts[|parts| - 1] != []
  {
    if |p| > 1 {
      SplitLastPart(p[1..]);
    } else {
      assert p[1..] == [];
    }
  }

  lemma {:induction false} WalkTrailing(fs: Fs, current: Node, parts: seq<seq<Byte>>)
    requires |parts| >= 1 && parts[|parts| - 1] != []
    ensures Walk(fs, current, parts + [[]]) == Walk(fs, current, parts)
    decreases |parts|
  {
    hide Child;
    var longer := parts + [[]];
    assert longer[1..] == parts[1..] + [[]];
    var next := Child(fs, current, parts[0]);
    if next.At? {
      if |parts| == 1 {
        assert longer[1..] == [[]];
      } else {
        WalkTrailing(fs, next.node, parts[1..]);
      }
    }
  }

  /** One trailing slash is ignored. */
  lemma TrailingSlash(fs: Fs, p: seq<Byte>)
    requires p != [] && p[|p| - 1] != SLASH && |p| < MAX_PATH - 1
    ensures Resolve(fs, p + [SLASH]) == Resolve(fs, p)
  {
    hide Walk;
    var r := Relative(p);
    assert Relative(p + [SLASH]) == r + [SLASH];
    SplitAppendSlash(r);
    SplitLastPart(r);
    WalkTrailing(fs, ROOT, Split(r));
  }

  /** Only the first 255 bytes of a path are looked at. */
  lemma LongPathCut(fs: Fs, p: seq<Byte>)
    requires |p| >= 255
    ensures Resolve(fs, p) == Resolve(fs, p[..255])
  {
    assert p[..255][..255] == p[..255];
    assert |p| == 255 ==> p[..255] == p;
    assert Relative(p) == Relative(p[..255]);
  }

  // ----- components in the middle

  /** Descend through every part, empty ones included. */
  ghost function Descend(fs: Fs, current: Node, parts: seq<seq<Byte>>): Resolved
    decreases |parts|
  {
    if parts == [] then At(current)
    else
      var next := Child(fs, current, parts[0]);
      if next.At? then Descend(fs, next.node, parts[1..]) else next
  }

  /** A path is walked by first descending through its front parts. */
  lemma {:induction false} WalkComposes(fs: Fs, current: Node, front: seq<seq<Byte>>, rest: seq<seq<Byte>>)
    requires rest != []
    ensures Walk(fs, current, front + rest) ==
      match Descend(fs, current, front) {
        case At(n) => Walk(fs, n, rest)
        case none => none
      }
    decreases |front|
  {
    hide Child;
    if front == [] {
      assert front + rest == rest;
    } else {
      assert (front + rest)[1..] == front[1..] + rest;
      var next := Child(fs, current, front[0]);
      if next.At? {
        WalkComposes(fs, next.node, front[1..], rest);
      }
    }
  }

  /** Beyond a file there is nothing but the file itself. */
  lemma FileInTheMiddle(fs: Fs, current: Node, front: seq<seq<Byte>>, rest: seq<seq<Byte>>)
    requires rest != [] && rest != [[]]
    requires Descend(fs, current, front).At? && !Descend(fs, current, front).node.isDir
    ensures Walk(fs, current, front + rest) == Missing
  {
    WalkComposes(fs, current, front, rest);
    if |rest| == 1 {
      assert rest[0] != [];
    }
  }

  /** The directory holds an entry whose name is empty. */
  ghost predicate HasNameless(fs: Fs, dir: Node) {
    exists q :: 0 <= q < |SlotsOf(fs, dir.cluster)| && IsEntry(SlotsOf(fs, dir.cluster)[q])
      && EntryAt(SlotsOf(fs, dir.cluster), q).name == []
  }

  lemma NamelessIff(fs: Fs, dir: Node)
    requires dir.isDir
    ensures Child(fs, dir, []).At? <==> HasNameless(fs, dir)
  {
    hide EntryAt;
    var live := SlotsOf(fs, dir.cluster);
    assert forall q :: 0 <= q < |live| ==> (Matches(live, [], q) <==> IsEntry(live[q]) && EntryAt(live, q).name == []);
    var q := FirstMatch(live, []);
    FirstMatches(live, []);
    if q < |live| {
      assert Matches(live, [], q);
    }
  }

  /** Two slashes in a row lead nowhere when the directory before them has no nameless entry. */
  lemma EmptyComponent(fs: Fs, current: Node, front: seq<seq<Byte>>, rest: seq<seq<Byte>>)
    requires rest != []
    requires Descend(fs, current, front).At? && Descend(fs, current, front).node.isDir
    requires !HasNameless(fs, Descend(fs, current, front).node)
    ensures Walk(fs, current, front + [[]] + rest) ==
      if Ending(ItemsOf(fs, Descend(fs, current, front).node.cluster)) == Failed then Stuck else Missing
  {
    WalkComposes(fs, current, front, [[]] + rest);
    NamelessIff(fs, Descend(fs, current, front).node);
    assert front + ([[]] + rest) == front + [[]] + rest;
  }

  // ----- devices that fail

  /** Every directory of the tree can be read to its end. */
  ghost predicate Legible(fs: Fs, dirs: set<Word>) {
    forall c :: c in dirs ==> Ending(ItemsOf(fs, c)) == Finished
  }

  lemma {:induction false} WalkEnds(fs: Fs, dirs: set<Word>, current: Node, parts: seq<seq<Byte>>)
    requires Closed(fs, dirs) && Legible(fs, dirs) && Known(dirs, current) && |parts| >= 1
    ensures Walk(fs, current, parts) != Stuck
    decreases |parts|
  {
    hide Closed, ItemsOf;
    var next := Child(fs, current, parts[0]);
    if next.At? && |parts| > 1 {
      ChildKnown(fs, dirs, current, parts[0]);
      WalkEnds(fs, dirs, next.node, parts[1..]);
    }
  }

  /** In a tree whose directories can be read, every resolution ends. */
  lemma ResolveEnds(fs: Fs, dirs: set<Word>, path: seq<Byte>)
    requires Closed(fs, dirs) && Legible(fs, dirs)
    ensures Resolve(fs, path) != Stuck
  {
    WalkEnds(fs, dirs, ROOT, Split(Relative(path)));
  }

  // ----- letter case

  lemma SameMatches(live: seq<Slot>, a: seq<Byte>, b: seq<Byte>)
    requires SameText(a, b)
    ensures FirstMatch(live, a) == FirstMatch(live, b)
  {
    hide EntryAt, SameText;
    FirstMatches(live, a);
    forall j | 0 <= j < |live|
      ensures Matches(live, a, j) == Matches(live, b, j)
    {
      SameTextBoth(EntryAt(live, j).name, a, b);
    }
    FirstMatchIs(live, b, FirstMatch(live, a));
  }

  lemma SameChild(fs: Fs, dir: Node, a: seq<Byte>, b: seq<Byte>)
    requires SameText(a, b)
    ensures Child(fs, dir, a) == Child(fs, dir, b)
    ensures a == [] <==> b == []
  {
    hide EntryAt, ItemsOf, Body, Ending;
    SameMatches(Body(ItemsOf(fs, dir.cluster)), a, b);
  }

  ghost predicate SameParts(a: seq<seq<Byte>>, b: seq<seq<Byte>>) {
    |a| == |b| && forall i :: 0 <= i < |a| ==> SameText(a[i], b[i])
  }

  lemma {:induction false} WalkIgnoresCase(fs: Fs, current: Node, a: seq<seq<Byte>>, b: seq<seq<Byte>>)
    requires |a| >= 1 && SameParts(a, b)
    ensures Walk(fs, current, a) == Walk(fs, current, b)
    decreases |a|
  {
    hide Child, SameText;
    SameChild(fs, current, a[0], b[0]);
    var next := Child(fs, current, a[0]);
    if |a| > 1 && next.At? {
      assert SameParts(a[1..], b[1..]);
      WalkIgnoresCase(fs, next.node, a[1..], b[1..]);
    }
  }

  lemma {:induction false} SplitIgnoresCase(a: seq<Byte>, b: seq<Byte>)
    requires SameText(a, b)
    ensures SameParts(Split(a), Split(b))
    decreases |a|
  {
    if a != [] {
      assert SameLetter(a[0], b[0]) && SameText(a[1..], b[1..]);
      SplitIgnoresCase(a[1..], b[1..]);
      var ra, rb := Split(a[1..]), Split(b[1..]);
      assert SameText(ra[0], rb[0]);
      assert SameText([a[0]] + ra[0], [b[0]] + rb[0]);
    }
  }

  /** Paths that differ only in the case of ASCII letters name the same node. */
  lemma ResolveIgnoresCase(fs: Fs, a: seq<Byte>, b: seq<Byte>)
    requires SameText(a, b)
    ensures Resolve(fs, a) == Resolve(fs, b)
  {
    hide Walk, Split;
    assert SameText(Relative(a), Relative(b));
    SplitIgnoresCase(Relative(a), Relative(b));
    WalkIgnoresCase(fs, ROOT, Split(Relative(a)), Split(Relative(b)));
  }
}
