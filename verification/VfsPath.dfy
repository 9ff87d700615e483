/** Path resolution: the loop that cuts the path at its slashes, against a walk of the directory tree. */
module VfsPath {
  import opened Machine
  import opened CString
  import opened Fat32
  import opened Fat32Listing
  import Fat32Readdir

  const SLASH: Byte := 0x2F
  const MAX_PATH := 256

  datatype Node = Node(name: seq<Byte>, cluster: Word, isDir: bool)

  const ROOT := Node([], 2, true)

  /**
  What a lookup comes to. It is stuck when the device fails before the name is found: the code takes the error for an
  entry, asks for the same index again, and goes on so.
  */
  datatype Resolved = Missing | Stuck | At(node: Node)

  // ----- the directory tree

  ghost predicate Walkable(fs: Fs, cluster: Word) {
    exists chain :: IsChain(fs, cluster, chain)
  }

  ghost function ChainFrom(fs: Fs, cluster: Word): (chain: seq<Word>)
    ensures Walkable(fs, cluster) ==> IsChain(fs, cluster, chain)
  {
    if Walkable(fs, cluster) then var chain :| IsChain(fs, cluster, chain); chain else []
  }

  ghost function ItemsOf(fs: Fs, cluster: Word): seq<Item> {
    ChainItems(fs, ChainFrom(fs, cluster))
  }

  ghost function SlotsOf(fs: Fs, cluster: Word): seq<Slot> {
    Body(ItemsOf(fs, cluster))
  }

  /** The directories of the tree: their chains end, and the set is closed. */
  ghost predicate Closed(fs: Fs, dirs: set<Word>) {
    && ROOT.cluster in dirs
    && (forall c :: c in dirs ==> Walkable(fs, c))
    && (forall c, q :: c in dirs && 0 <= q < |SlotsOf(fs, c)| ==>
          (IsEntry(SlotsOf(fs, c)[q]) && EntryAt(SlotsOf(fs, c), q).isDir ==> EntryAt(SlotsOf(fs, c), q).ino in dirs))
  }

  predicate Known(dirs: set<Word>, n: Node) { n.isDir ==> n.cluster in dirs }

  predicate Matches(live: seq<Slot>, name: seq<Byte>, q: nat)
    requires q < |live|
  {
    IsEntry(live[q]) && SameText(EntryAt(live, q).name, name)
  }

  /** The first position from p on that holds true, or |bs|. */
  function FirstTrue(bs: seq<bool>, p: nat := 0): (q: nat)
    requires p <= |bs|
    ensures p <= q <= |bs| && (q < |bs| ==> bs[q]) && forall j :: p <= j < q ==> !bs[j]
    decreases |bs| - p
  {
    if p == |bs| || bs[p] then p else FirstTrue(bs, p + 1)
  }

  function Hits(live: seq<Slot>, name: seq<Byte>): (bs: seq<bool>)
    ensures |bs| == |live|
  {
    seq(|live|, j requires 0 <= j < |live| => Matches(live, name, j))
  }

  /** The first entry whose name is `name` but for case, or |live|. */
  function FirstMatch(live: seq<Slot>, name: seq<Byte>): (q: nat)
    ensures q <= |live|
  {
    FirstTrue(Hits(live, name))
  }

  /** It matches, and nothing before it does. */
  lemma FirstMatches(live: seq<Slot>, name: seq<Byte>)
    ensures var q := FirstMatch(live, name);
      (q < |live| ==> Matches(live, name, q)) && forall j :: 0 <= j < q ==> !Matches(live, name, j)
  {
    hide Matches;
    var bs := Hits(live, name);
    assert forall j :: 0 <= j < |live| ==> bs[j] == Matches(live, name, j);
  }

  function NodeOf(e: Dirent): Node { Node(e.name, e.ino, e.isDir) }

  /** The child of a directory with the given name: files have no children. */
  ghost function Child(fs: Fs, dir: Node, name: seq<Byte>): Resolved {
    if dir.isDir then MatchIn(ItemsOf(fs, dir.cluster), name) else Missing
  }

  function MatchIn(items: seq<Item>, name: seq<Byte>): Resolved {
    var live := Body(items);
    var q := FirstMatch(live, name);
    if q < |live| then At(NodeOf(EntryAt(live, q)))
    else if Ending(items) == Failed then Stuck
    else Missing
  }

  lemma FirstMatchIs(live: seq<Slot>, name: seq<Byte>, q: nat)
    requires q <= |live| && (q < |live| ==> Matches(live, name, q))
    requires forall j :: 0 <= j < q ==> !Matches(live, name, j)
    ensures FirstMatch(live, name) == q
  {
    hide Matches, FirstMatch;
    FirstMatches(live, name);
  }

  lemma ChildKnown(fs: Fs, dirs: set<Word>, dir: Node, name: seq<Byte>)
    requires Closed(fs, dirs) && Known(dirs, dir) && Child(fs, dir, name).At?
    ensures Known(dirs, Child(fs, dir, name).node)
  {
    var live := SlotsOf(fs, dir.cluster);
    var q := FirstMatch(live, name);
    FirstMatches(live, name);
    assert 0 <= q < |SlotsOf(fs, dir.cluster)| && IsEntry(SlotsOf(fs, dir.cluster)[q]);
  }

  // ----- vfs_lookup

  /** Entries of smaller rank than `index` do not match. */
  ghost predicate Passed(live: seq<Slot>, name: seq<Byte>, index: nat) {
    forall j :: 0 <= j < |live| && Rank(live, j) < index ==> !Matches(live, name, j)
  }

  /** What one readdir answer decides about the search. */
  lemma SearchStep(items: seq<Item>, name: seq<Byte>, index: nat)
    requires Passed(Body(items), name, index)
    ensures match Answer(items, index)
      case Failed => MatchIn(items, name) == Stuck
      case Finished => MatchIn(items, name) == Missing
      case Found(e) =>
        && index < |Body(items)|
        && (SameText(e.name, name) ==> MatchIn(items, name) == At(NodeOf(e)))
        && (!SameText(e.name, name) ==> Passed(Body(items), name, index + 1))
  {
    hide EntryAt, Answer;
    var live := Body(items);
    ReaddirAnswers(items, index);
    var t := Target(live, index);
    forall j | 0 <= j < t
      ensures !Matches(live, name, j)
    {
      assert !Qualifies(live, index, j);
    }
    if t == |live| {
      FirstMatchIs(live, name, t);
    } else if SameText(EntryAt(live, t).name, name) {
      FirstMatchIs(live, name, t);
    } else {
      forall j | 0 <= j < |live| && Rank(live, j) < index + 1
        ensures !Matches(live, name, j)
      {
        if j > t {
          RankMonotone(live, t, j);
        }
      }
    }
  }

  method Lookup(fs: Fs, dir: Node, name: seq<Byte>, ghost dirs: set<Word>) returns (r: Resolved)
    requires Closed(fs, dirs) && Known(dirs, dir) && NulFree(name)
    ensures r == Child(fs, dir, name)
    ensures r.At? ==> Known(dirs, r.node)
  {
    if !dir.isDir {
      return Missing;
    }
    ghost var chain := ChainFrom(fs, dir.cluster);
    ghost var items := ItemsOf(fs, dir.cluster);
    assert IsChain(fs, dir.cluster, chain);
    r := Search(fs, dir, name, chain, items);
    if r.At? {
      ChildKnown(fs, dirs, dir, name);
    }
  }

  /** The loop of vfs_lookup: readdir until the name matches or the directory ends. */
  method Search(fs: Fs, dir: Node, name: seq<Byte>, ghost chain: seq<Word>, ghost items: seq<Item>)
    returns (r: Resolved)
    requires IsChain(fs, dir.cluster, chain) && items == ChainItems(fs, chain) && NulFree(name)
    ensures r == MatchIn(items, name)
  {
    hide Scan, Ending, EntryAt, Body, MatchIn;
    var dname := new Byte[256](_ => 0);
    var index := 0;
    while true
      invariant Passed(Body(items), name, index)
      decreases |Body(items)| - index
    {
      SearchStep(items, name, index);
      var answer;
      answer, index := Fat32Readdir.Readdir(fs, dir.cluster, index, dname, chain);
      if !answer.Found? {
        return if answer == Failed then Stuck else Missing;
      }
      var c := Stricmp(answer.entry.name, name);
      if c == 0 {
        return At(Node(answer.entry.name, answer.entry.ino, answer.entry.isDir));
      }
    }
  }

  // ----- paths

  /** The pieces between slashes; one more than there are slashes. */
  function Split(p: seq<Byte>): (parts: seq<seq<Byte>>)
    ensures |parts| >= 1
  {
    if p == [] then [[]]
    else
      var rest := Split(p[1..]);
      if p[0] == SLASH then [[]] + rest else [[p[0]] + rest[0]] + rest[1..]
  }

  /** Descend through all parts; an empty last part stays where it is. */
  ghost function Walk(fs: Fs, current: Node, parts: seq<seq<Byte>>): Resolved
    requires |parts| >= 1
    decreases |parts|
  {
    if |parts| == 1 && parts[0] == [] then At(current)
    else
      var next := Child(fs, current, parts[0]);
      if |parts| == 1 || !next.At? then next else Walk(fs, next.node, parts[1..])
  }

  function Relative(path: seq<Byte>): seq<Byte> {
    var cut := if |path| >= MAX_PATH then path[..MAX_PATH - 1] else path;
    if cut != [] && cut[0] == SLASH then cut[1..] else cut
  }

  /** The node a path names: the first 255 bytes, one leading slash ignored, walked from the root. */
  ghost function Resolve(fs: Fs, path: seq<Byte>): Resolved {
    Walk(fs, ROOT, Split(Relative(path)))
  }

  lemma {:induction false} SplitNoSlash(p: seq<Byte>)
    requires SLASH !in p
    ensures Split(p) == [p]
  {
    if p != [] {
      assert p[0] in p && p == [p[0]] + p[1..];
      SplitNoSlash(p[1..]);
    }
  }

  lemma {:induction false} SplitAtSlash(a: seq<Byte>, b: seq<Byte>)
    requires SLASH !in a
    ensures Split(a + [SLASH] + b) == [a] + Split(b)
  {
    var p := a + [SLASH] + b;
    if a == [] {
      assert p[1..] == b;
    } else {
      assert a[0] in a && a == [a[0]] + a[1..];
      assert p[1..] == a[1..] + [SLASH] + b;
      SplitAtSlash(a[1..], b);
      assert ([a[1..]] + Split(b))[1..] == Split(b);
    }
  }

  // ----- vfs_resolve_path

  ghost function StringAt(a: array<Byte>, i: nat): seq<Byte>
    requires i <= a.Length
    reads a
  {
    Text(a[i..])
  }

  lemma TextStep(s: seq<Byte>)
    requires s != [] && s[0] != 0
    ensures Text(s) == [s[0]] + Text(s[1..])
  {
  }

  lemma {:induction false} TextCut(s: seq<Byte>, k: nat)
    requires k < |s| && forall i :: 0 <= i < k ==> s[i] != 0
    ensures Text(s) == s[..k] + Text(s[k..])
  {
    hide Text;
    if k > 0 {
      var t := s[1..];
      TextStep(s);
      TextCut(t, k - 1);
      assert t[k - 1..] == s[k..];
      assert s[..k] == [s[0]] + t[..k - 1];
    } else {
      assert s[0..] == s && s[..0] == [];
    }
  }

  /** Read the string at i up to the slash or NUL at position p. */
  lemma StringCut(s: seq<Byte>, i: nat, p: nat)
    requires i <= p < |s| && forall k :: i <= k < p ==> s[k] != 0
    ensures s[p] == 0 ==> Text(s[i..]) == s[i..p]
    ensures s[p] == SLASH ==> Text(s[i..]) == s[i..p] + [SLASH] + Text(s[p + 1..])
  {
    hide Text;
    var t := s[i..];
    TextCut(t, p - i);
    assert t[..p - i] == s[i..p] && t[p - i..] == s[p..];
    if s[p] == 0 {
      TextEmpty(s[p..]);
    } else {
      TextStep(s[p..]);
      assert s[p..][1..] == s[p + 1..];
    }
  }

  lemma TextEmpty(s: seq<Byte>)
    requires s != [] && s[0] == 0
    ensures Text(s) == []
  {
  }

  /** The resolver: copy the path, skip one slash, then cut at each slash and look the piece up. */
  method ResolvePath(fs: Fs, path: seq<Byte>, ghost dirs: set<Word>) returns (r: Resolved)
    requires Closed(fs, dirs) && NulFree(path)
    ensures r == Resolve(fs, path)
    ensures r.At? ==> Known(dirs, r.node)
  {
    hide Closed;
    assert Known(dirs, ROOT) by { RootKnown(fs, dirs); }
    if path == [SLASH] || path == [] {
      return At(ROOT);
    }
    var copy := new Byte[MAX_PATH](_ => 0);
    var start := CopyPath(path, copy);
    r := WalkCopy(fs, copy, start, dirs);
  }

  lemma RootKnown(fs: Fs, dirs: set<Word>)
    requires Closed(fs, dirs)
    ensures Known(dirs, ROOT)
  {
  }

  method CopyPath(path: seq<Byte>, copy: array<Byte>) returns (start: nat)
    requires NulFree(path) && path != [] && copy.Length == MAX_PATH
    modifies copy
    ensures start <= 1 && copy[MAX_PATH - 1] == 0 && StringAt(copy, start) == Relative(path)
  {
    hide Padded, Text;
    ghost var cut := if |path| >= MAX_PATH then path[..MAX_PATH - 1] else path;
    PathPadded(path, cut);
    Strncpy(copy, path + [0], MAX_PATH - 1);
    copy[MAX_PATH - 1] := 0;
    ghost var pad := seq(MAX_PATH - |cut|, _ => 0);
    assert copy[..] == Padded(path + [0], MAX_PATH - 1) + [0] == cut + pad;
    assert copy[0] == if cut == [] then 0 else cut[0];
    start := if copy[0] == SLASH then 1 else 0;
    assert copy[start..] == cut[start..] + pad;
    TextOf(cut[start..], pad);
  }

  /** strncpy leaves the first 255 bytes of the path and NULs behind them. */
  lemma PathPadded(path: seq<Byte>, cut: seq<Byte>)
    requires NulFree(path) && path != [] && cut == if |path| >= MAX_PATH then path[..MAX_PATH - 1] else path
    ensures |Text(path + [0])| < |path + [0]|
    ensures Padded(path + [0], MAX_PATH - 1) + [0] == cut + seq(MAX_PATH - |cut|, _ => 0)
  {
    TextOf(path, [0]);
  }

  method WalkCopy(fs: Fs, copy: array<Byte>, start: nat, ghost dirs: set<Word>) returns (r: Resolved)
    requires Closed(fs, dirs) && copy.Length == MAX_PATH && start <= 1 && copy[MAX_PATH - 1] == 0
    modifies copy
    ensures r == Walk(fs, ROOT, Split(old(StringAt(copy, start))))
    ensures r.At? ==> Known(dirs, r.node)
  {
    hide Closed, Text, Split, Walk, Child;
    RootKnown(fs, dirs);
    ghost var whole := StringAt(copy, start);
    var component, current := start, ROOT;
    var found, p := Strchr(copy, component, SLASH);
    while found
      invariant start <= component <= p < MAX_PATH && copy[MAX_PATH - 1] == 0
      invariant forall k :: component <= k < p ==> copy[k] != SLASH && copy[k] != 0
      invariant copy[p] == if found then SLASH else 0
      invariant Known(dirs, current)
      invariant Walk(fs, ROOT, Split(whole)) == Walk(fs, current, Split(StringAt(copy, component)))
      decreases MAX_PATH - p
    {
      var piece := copy[component..p];
      CutAt(copy[..], component, p);
      ghost var was := copy[..];
      ghost var rest := StringAt(copy, p + 1);
      copy[p] := 0;
      assert copy[p + 1..] == was[p + 1..] && copy[MAX_PATH - 1] == 0;
      var next := Lookup(fs, current, piece, dirs);
      WalkStep(fs, current, piece, rest);
      if !next.At? {
        return next;
      }
      current := next.node;
      component := p + 1;
      assert component <= MAX_PATH - 1 && copy[MAX_PATH - 1] == 0;
      found, p := Strchr(copy, component, SLASH);
    }
    LastPiece(copy[..], component, p);
    WalkLast(fs, current, copy[component..p]);
    if copy[component] != 0 {
      r := Lookup(fs, current, copy[component..p], dirs);
    } else {
      r := At(current);
    }
  }

  /** The string at i, cut at its first slash. */
  lemma CutAt(s: seq<Byte>, i: nat, p: nat)
    requires i <= p < |s| && s[p] == SLASH && forall k :: i <= k < p ==> s[k] != SLASH && s[k] != 0
    ensures NulFree(s[i..p]) && SLASH !in s[i..p]
    ensures Split(Text(s[i..])) == [s[i..p]] + Split(Text(s[p + 1..]))
  {
    StringCut(s, i, p);
    SplitAtSlash(s[i..p], Text(s[p + 1..]));
  }

  lemma LastPiece(s: seq<Byte>, i: nat, p: nat)
    requires i <= p < |s| && s[p] == 0 && forall k :: i <= k < p ==> s[k] != SLASH && s[k] != 0
    ensures NulFree(s[i..p]) && Split(Text(s[i..])) == [s[i..p]]
    ensures s[i..p] == [] <==> s[i] == 0
  {
    StringCut(s, i, p);
    SplitNoSlash(s[i..p]);
  }

  lemma WalkLast(fs: Fs, current: Node, piece: seq<Byte>)
    ensures Walk(fs, current, [piece]) == if piece == [] then At(current) else Child(fs, current, piece)
  {
  }

  lemma WalkStep(fs: Fs, current: Node, piece: seq<Byte>, rest: seq<Byte>)
    ensures Walk(fs, current, [piece] + Split(rest)) ==
      match Child(fs, current, piece) {
        case At(next) => Walk(fs, next, Split(rest))
        case none => none
      }
  {
    assert ([piece] + Split(rest))[1..] == Split(rest);
  }
}
