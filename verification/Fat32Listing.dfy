/** Which entry readdir returns for which index, over every directory. */
module Fat32Listing {
  import opened Machine
  import opened Fat32

  /** The slots before the end of the directory, without the deleted ones. */
  function Body(items: seq<Item>): (live: seq<Slot>)
    ensures forall i :: 0 <= i < |live| ==> !IsLast(live[i]) && !IsDeleted(live[i])
  {
    if items == [] || items[0].Unreadable? || IsLast(items[0].slot) then []
    else (if IsDeleted(items[0].slot) then [] else [items[0].slot]) + Body(items[1..])
  }

  /** What readdir answers when it runs past the last entry. */
  function Ending(items: seq<Item>): (r: Result)
    ensures r == Failed || r == Finished
  {
    if items == [] then Finished
    else if items[0].Unreadable? then Failed
    else if IsLast(items[0].slot) then Finished
    else Ending(items[1..])
  }

  // ----- the state before slot p, whatever index is asked for

  function LfnAt(live: seq<Slot>, p: nat): Lfn
    requires p <= |live|
  {
    if p == 0 then IDLE else NextLfn(LfnAt(live, p - 1), live[p - 1])
  }

  /** The number of short entries before slot p. */
  function Rank(live: seq<Slot>, p: nat): (n: nat)
    requires p <= |live|
    ensures n <= p
  {
    if p == 0 then 0 else Rank(live, p - 1) + if IsShort(live[p - 1]) then 1 else 0
  }

  function EntryAt(live: seq<Slot>, p: nat): Dirent
    requires p < |live|
  {
    DirentOf(LfnAt(live, p), live[p])
  }

  predicate IsEntry(s: Slot) { IsShort(s) && !IsLabel(s) }

  predicate Qualifies(live: seq<Slot>, k: nat, q: nat)
    requires q < |live|
  {
    IsEntry(live[q]) && k <= Rank(live, q)
  }

  /** The first slot from p on that holds an entry of rank at least k, or |live|. */
  function Target(live: seq<Slot>, k: nat, p: nat := 0): (q: nat)
    requires p <= |live|
    ensures p <= q <= |live|
    ensures q < |live| ==> Qualifies(live, k, q)
    ensures forall j :: p <= j < q ==> !Qualifies(live, k, j)
    decreases |live| - p
  {
    if p == |live| || Qualifies(live, k, p) then p else Target(live, k, p + 1)
  }

  function AnswerAt(items: seq<Item>, q: nat): Result
    requires q <= |Body(items)|
  {
    if q < |Body(items)| then Found(EntryAt(Body(items), q)) else Ending(items)
  }

  /** What readdir answers for index k. */
  function Answer(items: seq<Item>, k: nat): Result {
    Scan(items, IDLE, 0, k)
  }

  function Counted(live: seq<Slot>, p: nat, k: nat): nat
    requires p <= |live|
  {
    if Rank(live, p) < k then Rank(live, p) else k
  }

  lemma BodyStep(items: seq<Item>, live: seq<Slot>, p: nat, s: Slot)
    requires p <= |live| && live[p..] == Body(items)
    requires items != [] && items[0] == Entry(s) && !IsLast(s)
    ensures IsDeleted(s) ==> live[p..] == Body(items[1..])
    ensures !IsDeleted(s) ==> p < |live| && live[p] == s && live[p + 1..] == Body(items[1..])
  {
    if !IsDeleted(s) {
      assert live[p] == live[p..][0];
      assert live[p + 1..] == live[p..][1..];
    }
  }

  lemma SlotStep(live: seq<Slot>, p: nat, k: nat)
    requires p < |live|
    ensures Emits(live[p], Counted(live, p, k), k) == Qualifies(live, k, p)
    ensures !Qualifies(live, k, p) ==> Target(live, k, p) == Target(live, k, p + 1)
    ensures !Qualifies(live, k, p) ==> NextCount(live[p], Counted(live, p, k), k) == Counted(live, p + 1, k)
    ensures NextLfn(LfnAt(live, p), live[p]) == LfnAt(live, p + 1)
  {
  }

  /** The scan, started at the items that hold slots p and later, ends at the target. */
  lemma {:induction false} ScanFrom(items: seq<Item>, live: seq<Slot>, p: nat, k: nat)
    requires p <= |live| && live[p..] == Body(items)
    ensures var q := Target(live, k, p);
      Scan(items, LfnAt(live, p), Counted(live, p, k), k) ==
        if q < |live| then Found(EntryAt(live, q)) else Ending(items)
    decreases |items|
  {
    if items == [] || items[0].Unreadable? || IsLast(items[0].slot) {
      assert |live| == p;
    } else {
      var s := items[0].slot;
      BodyStep(items, live, p, s);
      if IsDeleted(s) {
        ScanFrom(items[1..], live, p, k);
      } else {
        SlotStep(live, p, k);
        if !Qualifies(live, k, p) {
          ScanFrom(items[1..], live, p + 1, k);
        }
      }
    }
  }

  /** Call k returns the first entry that at least k short slots precede, and otherwise the ending. */
  lemma ReaddirAnswers(items: seq<Item>, k: nat)
    ensures Answer(items, k) == AnswerAt(items, Target(Body(items), k))
  {
    var live := Body(items);
    assert live[0..] == live;
    assert LfnAt(live, 0) == IDLE && Counted(live, 0, k) == 0;
    hide Scan, Body, Ending, LfnAt, Rank, Counted, EntryAt, Target;
    ScanFrom(items, live, 0, k);
  }

  lemma TargetIs(live: seq<Slot>, k: nat, q: nat)
    requires q <= |live| && (q < |live| ==> Qualifies(live, k, q))
    requires forall j :: 0 <= j < q ==> !Qualifies(live, k, j)
    ensures Target(live, k) == q
  {
  }

  // ----- directories without a volume label

  lemma {:induction false} RankMonotone(live: seq<Slot>, p: nat, q: nat)
    requires p <= q <= |live|
    ensures Rank(live, p) <= Rank(live, q)
    ensures p < q && IsShort(live[p]) ==> Rank(live, p) < Rank(live, q)
    decreases q - p
  {
    if p < q {
      RankMonotone(live, p + 1, q);
      assert Rank(live, p + 1) == Rank(live, p) + if IsShort(live[p]) then 1 else 0;
    }
  }

  /** The positions of the short entries among the first n slots, in disk order. */
  function ShortPositions(live: seq<Slot>, n: nat := |live|): (ps: seq<nat>)
    requires n <= |live|
    ensures |ps| == Rank(live, n)
    ensures forall k :: 0 <= k < |ps| ==> ps[k] < n && IsShort(live[ps[k]]) && Rank(live, ps[k]) == k
  {
    if n == 0 then []
    else ShortPositions(live, n - 1) + if IsShort(live[n - 1]) then [n - 1] else []
  }

  ghost predicate NoLabels(live: seq<Slot>) {
    forall i :: 0 <= i < |live| && IsShort(live[i]) ==> !IsLabel(live[i])
  }

  /** Without labels, call k returns exactly the k-th short entry: each once, in disk order, then the end. */
  lemma EachOnceInOrder(items: seq<Item>, k: nat)
    requires NoLabels(Body(items))
    ensures var ps := ShortPositions(Body(items));
      Answer(items, k) == AnswerAt(items, if k < |ps| then ps[k] else |Body(items)|)
  {
    var live := Body(items);
    var ps := ShortPositions(live);
    var q := if k < |ps| then ps[k] else |live|;
    forall j | 0 <= j < q
      ensures !Qualifies(live, k, j)
    {
      RankMonotone(live, j, q);
    }
    TargetIs(live, k, q);
    ReaddirAnswers(items, k);
  }

  // ----- directories with labels

  /** The entry at slot q is the answer to call Rank(q): labels make no entry disappear. */
  lemma NoneMissed(items: seq<Item>, q: nat)
    requires q < |Body(items)| && IsEntry(Body(items)[q])
    ensures Answer(items, Rank(Body(items), q)) == Found(EntryAt(Body(items), q))
  {
    var live := Body(items);
    forall j | 0 <= j < q
      ensures !Qualifies(live, Rank(live, q), j)
    {
      RankMonotone(live, j, q);
    }
    TargetIs(live, Rank(live, q), q);
    ReaddirAnswers(items, Rank(live, q));
  }

  /** A label directly before an entry makes two consecutive calls return that entry. */
  lemma LabelRepeatsNext(items: seq<Item>, p: nat, q: nat)
    requires p < q < |Body(items)| && IsShort(Body(items)[p]) && IsLabel(Body(items)[p])
    requires IsEntry(Body(items)[q]) && forall j :: p < j < q ==> IsLong(Body(items)[j])
    ensures Rank(Body(items), q) == Rank(Body(items), p) + 1
    ensures Answer(items, Rank(Body(items), p)) == Answer(items, Rank(Body(items), p) + 1) ==
      Found(EntryAt(Body(items), q))
  {
    LabelTarget(Body(items), p, q);
    ReaddirAnswers(items, Rank(Body(items), p));
    NoneMissed(items, q);
  }

  lemma LabelTarget(live: seq<Slot>, p: nat, q: nat)
    requires p < q < |live| && IsShort(live[p]) && IsLabel(live[p])
    requires IsEntry(live[q]) && forall j :: p < j < q ==> IsLong(live[j])
    ensures Rank(live, q) == Rank(live, p) + 1 && Target(live, Rank(live, p)) == q
  {
    RankThroughLong(live, p + 1, q);
    forall j | 0 <= j < q
      ensures !Qualifies(live, Rank(live, p), j)
    {
      if j < p { RankMonotone(live, j, p); }
    }
    TargetIs(live, Rank(live, p), q);
  }

  lemma {:induction false} RankThroughLong(live: seq<Slot>, p: nat, q: nat)
    requires p <= q <= |live| && forall j :: p <= j < q ==> IsLong(live[j])
    ensures Rank(live, q) == Rank(live, p)
    decreases q - p
  {
    if p < q {
      RankThroughLong(live, p, q - 1);
    }
  }

  // ----- reading a whole directory

  /** The entries returned by calls k, k+1, ... up to the first that returns none. */
  function Listing(items: seq<Item>, k: nat := 0): seq<Dirent>
    decreases |Body(items)| - k
  {
    match Answer(items, k)
    case Found(e) => FoundInRange(items, k); [e] + Listing(items, k + 1)
    case _ => []
  }

  lemma FoundInRange(items: seq<Item>, k: nat)
    requires Answer(items, k).Found?
    ensures k < |Body(items)|
  {
    ReaddirAnswers(items, k);
  }

  /** The entries at the given slots. */
  function EntriesAt(live: seq<Slot>, ps: seq<nat>): (es: seq<Dirent>)
    requires forall i :: 0 <= i < |ps| ==> ps[i] < |live|
    ensures |es| == |ps|
  {
    if ps == [] then [] else [EntryAt(live, ps[0])] + EntriesAt(live, ps[1..])
  }

  lemma {:induction false} ListingFrom(items: seq<Item>, k: nat)
    requires NoLabels(Body(items)) && k <= |ShortPositions(Body(items))|
    ensures Listing(items, k) == EntriesAt(Body(items), ShortPositions(Body(items))[k..])
    decreases |Body(items)| - k
  {
    var ps := ShortPositions(Body(items));
    EachOnceInOrder(items, k);
    if k < |ps| {
      ListingFrom(items, k + 1);
      assert ps[k..][1..] == ps[k + 1..] && ps[k..][0] == ps[k];
    }
  }

  /** Enumerating a directory without labels lists its short entries, each exactly once, in disk order. */
  lemma ListingComplete(items: seq<Item>)
    requires NoLabels(Body(items))
    ensures Listing(items) == EntriesAt(Body(items), ShortPositions(Body(items)))
  {
    ListingFrom(items, 0);
    assert ShortPositions(Body(items))[0..] == ShortPositions(Body(items));
  }

  // ----- reading a directory that may hold labels

  /** The volume labels between the last entry before slot p and slot p. */
  function LabelsBefore(live: seq<Slot>, p: nat): (n: nat)
    requires p <= |live|
    ensures n <= Rank(live, p)
  {
    if p == 0 || IsEntry(live[p - 1]) then 0
    else LabelsBefore(live, p - 1) + if IsShort(live[p - 1]) then 1 else 0
  }

  /** The entries among the first n slots, each once and once more for every label directly in front of it. */
  function Listed(live: seq<Slot>, n: nat := |live|): (es: seq<Dirent>)
    requires n <= |live|
    ensures |es| == Rank(live, n) - LabelsBefore(live, n)
  {
    if n == 0 then []
    else if !IsEntry(live[n - 1]) then Listed(live, n - 1)
    else Listed(live, n - 1) + Fill(EntryAt(live, n - 1), 1 + LabelsBefore(live, n - 1))
  }

  /** The k-th listed entry is the one that answers call k. */
  lemma {:induction false} ListedAt(live: seq<Slot>, n: nat, k: nat) returns (q: nat)
    requires n <= |live| && k < |Listed(live, n)|
    ensures q < n && IsEntry(live[q]) && |Listed(live, q)| <= k <= Rank(live, q)
    ensures Listed(live, n)[k] == EntryAt(live, q)
  {
    hide EntryAt;
    if k < |Listed(live, n - 1)| {
      q := ListedAt(live, n - 1, k);
    } else {
      q := n - 1;
    }
  }

  /** Entries before slot q are listed before it. */
  lemma {:induction false} ListedBefore(live: seq<Slot>, p: nat, q: nat)
    requires p < q <= |live| && IsEntry(live[p])
    ensures Rank(live, p) < |Listed(live, q)|
    decreases q - p
  {
    hide EntryAt;
    if p + 1 < q {
      ListedBefore(live, p, q - 1);
    }
  }

  lemma AnswersListed(items: seq<Item>, k: nat)
    ensures var es := Listed(Body(items));
      Answer(items, k) == if k < |es| then Found(es[k]) else Ending(items)
  {
    hide EntryAt, Listed, Rank;
    var live := Body(items);
    var q := |live|;
    if k < |Listed(live)| {
      q := ListedAt(live, |live|, k);
    }
    forall j | 0 <= j < q
      ensures !Qualifies(live, k, j)
    {
      if IsEntry(live[j]) { ListedBefore(live, j, q); }
    }
    TargetIs(live, k, q);
    ReaddirAnswers(items, k);
  }

  lemma {:induction false} ListingRest(items: seq<Item>, k: nat)
    requires k <= |Listed(Body(items))|
    ensures Listing(items, k) == Listed(Body(items))[k..]
    decreases |Listed(Body(items))| - k
  {
    hide Listed, Answer, Ending;
    AnswersListed(items, k);
    if k < |Listed(Body(items))| {
      ListingRest(items, k + 1);
    }
  }

  /**
  Enumerating any directory lists its entries in disk order, each as often as one plus the number of labels that
  stand between it and the entry before it.
  */
  lemma ListingIs(items: seq<Item>)
    ensures Listing(items) == Listed(Body(items))
  {
    hide Listed, Listing;
    ListingRest(items, 0);
    assert Listed(Body(items))[0..] == Listed(Body(items));
  }

  /** The positions of the entries among the first n slots, in disk order. */
  function EntryPositions(live: seq<Slot>, n: nat := |live|): (ps: seq<nat>)
    requires n <= |live|
    ensures forall i :: 0 <= i < |ps| ==> ps[i] < |live|
  {
    if n == 0 then []
    else if !IsEntry(live[n - 1]) then EntryPositions(live, n - 1)
    else EntryPositions(live, n - 1) + [n - 1]
  }

  /** No label stands before an entry. */
  ghost predicate LabelsLast(live: seq<Slot>, n: nat)
    requires n <= |live|
  {
    forall p, q :: 0 <= p < q < n && IsShort(live[p]) && IsLabel(live[p]) ==> !IsEntry(live[q])
  }

  lemma {:induction false} EntriesAtSnoc(live: seq<Slot>, ps: seq<nat>, p: nat)
    requires (forall i :: 0 <= i < |ps| ==> ps[i] < |live|) && p < |live|
    ensures EntriesAt(live, ps + [p]) == EntriesAt(live, ps) + [EntryAt(live, p)]
  {
    hide EntryAt;
    if ps == [] {
      assert ps + [p] == [p];
    } else {
      EntriesAtSnoc(live, ps[1..], p);
      assert (ps + [p])[1..] == ps[1..] + [p];
    }
  }

  lemma {:induction false} LabelsSeen(live: seq<Slot>, p: nat)
    requires p <= |live|
    ensures LabelsBefore(live, p) > 0 ==> exists j :: 0 <= j < p && IsShort(live[j]) && IsLabel(live[j])
  {
    if p > 0 && !IsEntry(live[p - 1]) && !IsShort(live[p - 1]) {
      LabelsSeen(live, p - 1);
    }
  }

  lemma {:induction false} ListedOnce(live: seq<Slot>, n: nat)
    requires n <= |live| && LabelsLast(live, n)
    ensures Listed(live, n) == EntriesAt(live, EntryPositions(live, n))
  {
    hide EntryAt, EntriesAt;
    if n > 0 {
      ListedOnce(live, n - 1);
      if IsEntry(live[n - 1]) {
        LabelsSeen(live, n - 1);
        assert Fill(EntryAt(live, n - 1), 1) == [EntryAt(live, n - 1)];
        EntriesAtSnoc(live, EntryPositions(live, n - 1), n - 1);
      }
    } else {
      assert EntriesAt(live, []) == [];
    }
  }

  /** Every entry is listed at least once, and more are listed once a label has met an entry behind it. */
  lemma {:induction false} ListedMore(live: seq<Slot>, n: nat)
    requires n <= |live|
    ensures |Listed(live, n)| >= |EntryPositions(live, n)|
    ensures |Listed(live, n)| == |EntryPositions(live, n)| ==> LabelsLast(live, n)
  {
    hide EntryAt;
    if n > 0 {
      ListedMore(live, n - 1);
      if IsEntry(live[n - 1]) && LabelsBefore(live, n - 1) == 0 && LabelsLast(live, n - 1) {
        NoLabelYet(live, n - 1);
      }
    }
  }

  lemma {:induction false} NoLabelYet(live: seq<Slot>, n: nat)
    requires n <= |live| && LabelsLast(live, n) && LabelsBefore(live, n) == 0
    ensures forall p :: 0 <= p < n ==> !(IsShort(live[p]) && IsLabel(live[p]))
  {
    if n > 0 && !IsEntry(live[n - 1]) {
      NoLabelYet(live, n - 1);
    }
  }

  /** Every entry is listed exactly once, in disk order, if and only if no label stands before an entry. */
  lemma ListingOnceIff(items: seq<Item>)
    ensures var live := Body(items);
      Listing(items) == EntriesAt(live, EntryPositions(live)) <==> LabelsLast(live, |live|)
  {
    hide Listed, Listing, EntriesAt, EntryPositions;
    var live := Body(items);
    ListingIs(items);
    ListedMore(live, |live|);
    if LabelsLast(live, |live|) {
      ListedOnce(live, |live|);
    }
  }
}
