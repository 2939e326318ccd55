/** A whole project flattened for an old app: at most so many entries, from at most so deep. */
module LegacyTree {
  import opened Base

  const DEPTH: nat := 12
  const ENTRIES: nat := 4096

  /** One child as a listing gives it; a field may be missing or of another type. */
  datatype Child = Child(id: Option<string>, directory: Option<bool>, kind: Option<string>)

  /** What asking for a folder gives: no listing at all, or one that may say it is not all. */
  datatype Listing = Unlisted | Listed(truncated: bool, children: Option<seq<Child>>)

  type Lister = string -> Listing

  datatype Entry = Entry(id: string, directory: bool, kind: Option<string>)

  predicate WellFormed(c: Child) {
    c.id.Some? && c.directory.Some?
  }

  function EntryOf(c: Child): Entry
    requires WellFormed(c)
  {
    Entry(c.id.value, c.directory.value, c.kind)
  }

  // ------------------------------------------------------------------ the unbounded walk

  /** What the walk meets, in order: a child, its entry, or something it leaves out. */
  datatype Item = Reach | Put(entry: Entry) | LeftOut

  /** A folder's items: those of its children, each folder's contents right after it. */
  function FolderItems(list: Lister, answer: Listing, depth: nat): seq<Item>
    requires depth <= DEPTH
    decreases DEPTH - depth, 2, 0
  {
    match answer
    case Unlisted => [LeftOut]
    case Listed(truncated, children) =>
      (if truncated then [LeftOut] else []) + if children.Some? then ChildrenItems(list, children.value, depth) else []
  }

  function ChildrenItems(list: Lister, children: seq<Child>, depth: nat): seq<Item>
    requires depth <= DEPTH
    decreases DEPTH - depth, 1, |children|
  {
    if children == [] then []
    else
      ChildrenItems(list, children[..|children| - 1], depth) + ChildItems(list, children[|children| - 1], depth)
  }

  function ChildItems(list: Lister, c: Child, depth: nat): seq<Item>
    requires depth <= DEPTH
    decreases DEPTH - depth, 0, 1
  {
    if WellFormed(c) then [Reach, Put(EntryOf(c))] + Below(list, c, depth) else [Reach]
  }

  /** What comes after a child's own entry. */
  function Below(list: Lister, c: Child, depth: nat): seq<Item>
    requires depth <= DEPTH && WellFormed(c)
    decreases DEPTH - depth, 0, 0
  {
    if !c.directory.value then []
    else if depth + 1 > DEPTH then [LeftOut]
    else FolderItems(list, list(c.id.value), depth + 1)
  }

  /** The entries among the items. */
  function Entries(items: seq<Item>): seq<Entry> {
    if items == [] then []
    else Entries(items[..|items| - 1]) + if items[|items| - 1].Put? then [items[|items| - 1].entry] else []
  }

  // ------------------------------------------------------------------ the bounded answer

  datatype Answer = Answer(entries: seq<Entry>, truncated: bool)

  /** Take the items one by one, and no more entries than the bound. */
  function Take(items: seq<Item>, start: Answer): Answer {
    if items == [] then start
    else
      var a := Take(items[..|items| - 1], start);
      match items[|items| - 1]
      case Reach => if |a.entries| >= ENTRIES then a.(truncated := true) else a
      case Put(entry) => if |a.entries| >= ENTRIES then a else a.(entries := a.entries + [entry])
      case LeftOut => a.(truncated := true)
  }

  lemma {:induction false} TakeJoin(a: seq<Item>, b: seq<Item>, start: Answer)
    ensures Take(a + b, start) == Take(b, Take(a, start))
    decreases |b|
  {
    if b == [] {
      assert a + b == a;
    } else {
      assert (a + b)[..|a + b| - 1] == a + b[..|b| - 1];
      TakeJoin(a, b[..|b| - 1], start);
    }
  }

  /** A full answer already known to be truncated does not change. */
  lemma {:induction false} TakeNoMore(items: seq<Item>, start: Answer)
    requires |start.entries| >= ENTRIES && start.truncated
    ensures Take(items, start) == start
  {
    if items != [] {
      TakeNoMore(items[..|items| - 1], start);
    }
  }

  /** The walk as it runs, with the answer shared by every folder. */
  class Flattening {
    var entries: seq<Entry>
    var truncated: bool

    constructor ()
      ensures entries == [] && !truncated
    {
      entries, truncated := [], false;
    }

    function Now(): Answer
      reads this
    {
      Answer(entries, truncated)
    }

    /** List one folder: after each subfolder's entry come the entries inside it. */
    method Place(list: Lister, answer: Listing, depth: nat)
      requires depth <= DEPTH && |entries| <= ENTRIES
      modifies this
      ensures Now() == Take(FolderItems(list, answer, depth), old(Now())) && |entries| <= ENTRIES
      decreases DEPTH - depth, 2, 0
    {
      TakeFolder(list, answer, depth, Now());
      if answer.Unlisted? || answer.truncated {
        truncated := true;
      }
      if answer.Listed? && answer.children.Some? {
        PlaceAll(list, answer.children.value, depth);
      }
    }

    method PlaceAll(list: Lister, children: seq<Child>, depth: nat)
      requires depth <= DEPTH && |entries| <= ENTRIES
      modifies this
      ensures Now() == Take(ChildrenItems(list, children, depth), old(Now())) && |entries| <= ENTRIES
      decreases DEPTH - depth, 1, 0
    {
      ghost var before := Now();
      for i := 0 to |children|
        invariant |entries| <= ENTRIES
        invariant Now() == Take(ChildrenItems(list, children[..i], depth), before)
      {
        TakeNext(list, children, depth, i, before);
        if |entries| >= ENTRIES {
          truncated := true;
          TakeRest(list, children, depth, i, before);
          return;
        }
        PlaceChild(list, children[i], depth);
      }
      assert children[..|children|] == children;
    }

    /** One child, when there is room for it. */
    method PlaceChild(list: Lister, c: Child, depth: nat)
      requires depth <= DEPTH && |entries| < ENTRIES
      modifies this
      ensures Now() == Take(ChildItems(list, c, depth), old(Now())) && |entries| <= ENTRIES
      decreases DEPTH - depth, 0, 0
    {
      TakeChild(list, c, depth, Now());
      if WellFormed(c) {
        entries := entries + [EntryOf(c)];
        if c.directory.value {
          if depth + 1 > DEPTH {
            truncated := true;
          } else {
            Place(list, list(c.id.value), depth + 1);
          }
        }
      }
    }
  }

  /** The items of a folder, taken by an answer. */
  lemma {:induction false} TakeFolder(list: Lister, answer: Listing, depth: nat, start: Answer)
    requires depth <= DEPTH
    ensures Take(FolderItems(list, answer, depth), start) ==
      var noted := if answer.Unlisted? || answer.truncated then start.(truncated := true) else start;
      if answer.Listed? && answer.children.Some? then Take(ChildrenItems(list, answer.children.value, depth), noted) else noted
  {
    assert [LeftOut][..0] == [];
    if answer.Listed? {
      var head: seq<Item> := if answer.truncated then [LeftOut] else [];
      var rest := if answer.children.Some? then ChildrenItems(list, answer.children.value, depth) else [];
      TakeJoin(head, rest, start);
    }
  }

  lemma {:induction false} TakeNext(list: Lister, children: seq<Child>, depth: nat, i: nat, start: Answer)
    requires depth <= DEPTH && i < |children|
    ensures Take(ChildrenItems(list, children[..i + 1], depth), start)
         == Take(ChildItems(list, children[i], depth), Take(ChildrenItems(list, children[..i], depth), start))
  {
    var more := children[..i + 1];
    assert more[..|more| - 1] == children[..i] && more[|more| - 1] == children[i];
    TakeJoin(ChildrenItems(list, children[..i], depth), ChildItems(list, children[i], depth), start);
  }

  lemma {:induction false} TakeHead(e: Entry, start: Answer)
    ensures Take([Reach, Put(e)], start) ==
      if |start.entries| >= ENTRIES then start.(truncated := true) else start.(entries := start.entries + [e])
  {
    var head := [Reach, Put(e)];
    assert head[..1] == [Reach] && [Reach][..0] == [];
    assert Take([Reach], start) == if |start.entries| >= ENTRIES then start.(truncated := true) else start;
  }

  /** The items of one child, taken by an answer. */
  lemma {:induction false} TakeChild(list: Lister, c: Child, depth: nat, start: Answer)
    requires depth <= DEPTH
    ensures Take(ChildItems(list, c, depth), start) ==
      if |start.entries| >= ENTRIES then start.(truncated := true)
      else if !WellFormed(c) then start
      else
        var placed := start.(entries := start.entries + [EntryOf(c)]);
        if !c.directory.value then placed
        else if depth + 1 > DEPTH then placed.(truncated := true)
        else Take(FolderItems(list, list(c.id.value), depth + 1), placed)
  {
    assert [Reach][..0] == [] && [LeftOut][..0] == [];
    if WellFormed(c) {
      var head := [Reach, Put(EntryOf(c))];
      TakeHead(EntryOf(c), start);
      TakeJoin(head, Below(list, c, depth), start);
      if |start.entries| >= ENTRIES {
        TakeNoMore(Below(list, c, depth), Take(head, start));
      }
    }
  }

  /** Once the answer is full, reaching one more child settles the rest. */
  lemma {:induction false} TakeRest(list: Lister, children: seq<Child>, depth: nat, i: nat, start: Answer)
    requires depth <= DEPTH && i < |children|
    requires |Take(ChildrenItems(list, children[..i], depth), start).entries| >= ENTRIES
    ensures Take(ChildrenItems(list, children, depth), start)
         == Take(ChildrenItems(list, children[..i], depth), start).(truncated := true)
    decreases |children|
  {
    var n := |children| - 1;
    var stop := Take(ChildrenItems(list, children[..i], depth), start);
    var last := Take(ChildrenItems(list, children[..n], depth), start);
    if i < n {
      assert children[..n][..i] == children[..i];
      TakeRest(list, children[..n], depth, i, start);
    }
    assert |last.entries| >= ENTRIES && last.(truncated := true) == stop.(truncated := true);
    TakeLast(list, children, depth, start);
  }

  lemma TakeLast(list: Lister, children: seq<Child>, depth: nat, start: Answer)
    requires depth <= DEPTH && children != []
    ensures var last := Take(ChildrenItems(list, children[..|children| - 1], depth), start);
      |last.entries| >= ENTRIES ==> Take(ChildrenItems(list, children, depth), start) == last.(truncated := true)
  {
    var n := |children| - 1;
    assert children[..n + 1] == children;
    TakeNext(list, children, depth, n, start);
    TakeChild(list, children[n], depth, Take(ChildrenItems(list, children[..n], depth), start));
  }

  // ------------------------------------------------------------------ what the answer is

  function FirstOf(s: seq<Entry>, n: nat): seq<Entry> {
    if |s| <= n then s else s[..n]
  }

  /** A child is reached when the answer is full already. */
  predicate Overflows(items: seq<Item>) {
    exists i :: 0 <= i < |items| && items[i] == Reach && |Entries(items[..i])| >= ENTRIES
  }

  /** The answer is the first entries of the walk, and says what was left out or not reached. */
  lemma {:induction false} TakeIsFirst(items: seq<Item>)
    ensures Take(items, Answer([], false))
         == Answer(FirstOf(Entries(items), ENTRIES), LeftOut in items || Overflows(items))
  {
    if items != [] {
      var n := |items| - 1;
      var init, last := items[..n], items[n];
      TakeIsFirst(init);
      assert items == init + [last];
      OverflowsPush(init, last);
      if last.Put? && |Entries(init)| >= ENTRIES {
        assert (Entries(init) + [last.entry])[..ENTRIES] == Entries(init)[..ENTRIES];
      }
    }
  }

  lemma {:induction false} OverflowsPush(init: seq<Item>, last: Item)
    ensures Overflows(init + [last]) <==> Overflows(init) || (last == Reach && |Entries(init)| >= ENTRIES)
  {
    var items := init + [last];
    assert forall i | 0 <= i < |init| :: items[..i] == init[..i] && items[i] == init[i];
    assert items[..|init|] == init && items[|init|] == last;
  }

  // ------------------------------------------------------------------ when the answer is complete

  /** Every folder of the walk is listed in full, and none lies too deep to be. */
  predicate Whole(list: Lister, answer: Listing, depth: nat)
    requires depth <= DEPTH
    decreases DEPTH - depth, 1
  {
    && answer.Listed? && !answer.truncated
    && (answer.children.Some? ==> forall i | 0 <= i < |answer.children.value| :: WholeChild(list, answer.children.value[i], depth))
  }

  predicate WholeChild(list: Lister, c: Child, depth: nat)
    requires depth <= DEPTH
    decreases DEPTH - depth, 0
  {
    WellFormed(c) && c.directory.value ==> depth + 1 <= DEPTH && Whole(list, list(c.id.value), depth + 1)
  }

  /** Every child of the walk has an id and says whether it is a folder. */
  predicate Sound(list: Lister, answer: Listing, depth: nat)
    requires depth <= DEPTH
    decreases DEPTH - depth, 1
  {
    answer.Listed? && answer.children.Some? ==>
      forall i | 0 <= i < |answer.children.value| :: SoundChild(list, answer.children.value[i], depth)
  }

  predicate SoundChild(list: Lister, c: Child, depth: nat)
    requires depth <= DEPTH
    decreases DEPTH - depth, 0
  {
    WellFormed(c) && (c.directory.value && depth + 1 <= DEPTH ==> Sound(list, list(c.id.value), depth + 1))
  }

  lemma {:induction false} WholeShows(list: Lister, answer: Listing, depth: nat)
    requires depth <= DEPTH
    ensures LeftOut !in FolderItems(list, answer, depth) <==> Whole(list, answer, depth)
    decreases DEPTH - depth, 2, 0
  {
    if answer.Listed? && answer.children.Some? {
      WholeChildrenShow(list, answer.children.value, depth);
    }
  }

  lemma {:induction false} WholeChildrenShow(list: Lister, children: seq<Child>, depth: nat)
    requires depth <= DEPTH
    ensures LeftOut !in ChildrenItems(list, children, depth) <==>
            forall i | 0 <= i < |children| :: WholeChild(list, children[i], depth)
    decreases DEPTH - depth, 1, |children|
  {
    if children != [] {
      var n := |children| - 1;
      WholeChildrenShow(list, children[..n], depth);
      WholeChildShows(list, children[n], depth);
      assert forall i | 0 <= i < n :: children[..n][i] == children[i];
    }
  }

  lemma {:induction false} WholeChildShows(list: Lister, c: Child, depth: nat)
    requires depth <= DEPTH
    ensures LeftOut !in ChildItems(list, c, depth) <==> WholeChild(list, c, depth)
    decreases DEPTH - depth, 0, 0
  {
    if WellFormed(c) {
      assert LeftOut !in [Reach, Put(EntryOf(c))];
      if c.directory.value && depth + 1 <= DEPTH {
        WholeShows(list, list(c.id.value), depth + 1);
      }
    }
  }

  /** An entry comes right after its child is reached. */
  predicate Paired(items: seq<Item>) {
    forall i | 0 <= i < |items| && items[i].Put? :: i > 0 && items[i - 1] == Reach
  }

  /** A child that is reached has an entry. */
  predicate Followed(items: seq<Item>) {
    forall i | 0 <= i < |items| && items[i] == Reach :: i + 1 < |items| && items[i + 1].Put?
  }

  lemma JoinPaired(a: seq<Item>, b: seq<Item>)
    ensures Paired(a) && Paired(b) ==> Paired(a + b)
    ensures Followed(a) && Followed(b) ==> Followed(a + b)
  {
  }

  lemma {:induction false} FolderPaired(list: Lister, answer: Listing, depth: nat)
    requires depth <= DEPTH
    ensures Paired(FolderItems(list, answer, depth))
    ensures Sound(list, answer, depth) ==> Followed(FolderItems(list, answer, depth))
    decreases DEPTH - depth, 2, 0
  {
    if answer.Listed? && answer.children.Some? {
      ChildrenPaired(list, answer.children.value, depth);
      JoinPaired(if answer.truncated then [LeftOut] else [], ChildrenItems(list, answer.children.value, depth));
    }
  }

  lemma {:induction false} ChildrenPaired(list: Lister, children: seq<Child>, depth: nat)
    requires depth <= DEPTH
    ensures Paired(ChildrenItems(list, children, depth))
    ensures (forall i | 0 <= i < |children| :: SoundChild(list, children[i], depth))
            ==> Followed(ChildrenItems(list, children, depth))
    decreases DEPTH - depth, 1, |children|
  {
    if children != [] {
      var n := |children| - 1;
      ChildrenPaired(list, children[..n], depth);
      assert forall i | 0 <= i < n :: children[..n][i] == children[i];
      ChildPaired(list, children[n], depth);
      JoinPaired(ChildrenItems(list, children[..n], depth), ChildItems(list, children[n], depth));
    }
  }

  lemma {:induction false} ChildPaired(list: Lister, c: Child, depth: nat)
    requires depth <= DEPTH
    ensures Paired(ChildItems(list, c, depth))
    ensures SoundChild(list, c, depth) ==> Followed(ChildItems(list, c, depth))
    decreases DEPTH - depth, 0, 0
  {
    if WellFormed(c) {
      var head, below := [Reach, Put(EntryOf(c))], Below(list, c, depth);
      if c.directory.value && depth + 1 <= DEPTH {
        FolderPaired(list, list(c.id.value), depth + 1);
      }
      assert Paired(below) && (SoundChild(list, c, depth) ==> Followed(below));
      assert Paired(head) && Followed(head);
      JoinPaired(head, below);
    }
  }

  lemma {:induction false} EntriesJoin(a: seq<Item>, b: seq<Item>)
    ensures Entries(a + b) == Entries(a) + Entries(b)
    decreases |b|
  {
    if b == [] {
      assert a + b == a;
    } else {
      assert (a + b)[..|a + b| - 1] == a + b[..|b| - 1];
      EntriesJoin(a, b[..|b| - 1]);
    }
  }

  /** More entries than the bound: one child is reached too late. */
  lemma {:induction false} TooManyOverflow(items: seq<Item>)
    requires Paired(items) && |Entries(items)| > ENTRIES
    ensures Overflows(items)
  {
    var n := |items| - 1;
    var init := items[..n];
    assert items == init + [items[n]];
    OverflowsPush(init, items[n]);
    if |Entries(init)| > ENTRIES {
      TooManyOverflow(init);
    } else {
      assert items[n].Put? && items[n - 1] == Reach;
      assert init[..n - 1] == items[..n - 1] && init[n - 1] == Reach;
      assert |Entries(items[..n - 1])| >= ENTRIES;
    }
  }

  lemma {:induction false} EntriesGrow(items: seq<Item>, i: nat, j: nat)
    requires i <= j <= |items|
    ensures |Entries(items[..i])| <= |Entries(items[..j])|
    ensures i < j && items[j - 1].Put? ==> |Entries(items[..i])| < |Entries(items[..j])|
    decreases j
  {
    if i < j {
      assert items[..j][..j - 1] == items[..j - 1];
      EntriesGrow(items, i, j - 1);
    }
  }

  /** When every child reached has an entry, one reached too late makes too many. */
  lemma {:induction false} OverflowIsTooMany(items: seq<Item>)
    requires Followed(items) && Overflows(items)
    ensures |Entries(items)| > ENTRIES
  {
    var i: nat :| i < |items| && items[i] == Reach && |Entries(items[..i])| >= ENTRIES;
    ReachGrows(items, i);
  }

  lemma {:induction false} ReachGrows(items: seq<Item>, i: nat)
    requires Followed(items) && i < |items| && items[i] == Reach
    ensures |Entries(items)| > |Entries(items[..i])|
  {
    EntriesGrow(items, i, i + 2);
    EntriesGrow(items, i + 2, |items|);
    assert items[..|items|] == items;
  }

  /**
   * The answer for a folder, at depth 0 for the root, is the first entries of the unbounded walk. One that is not
   * truncated is all of it, from folders all listed in full; and when every child is well formed, one that is
   * truncated is not.
   */
  lemma {:induction false} TruncatedIsExact(list: Lister, root: Listing, depth: nat)
    requires depth <= DEPTH
    ensures var items := FolderItems(list, root, depth); var answer := Take(items, Answer([], false));
      && answer.entries == FirstOf(Entries(items), ENTRIES)
      && (!answer.truncated ==> answer.entries == Entries(items) && Whole(list, root, depth))
      && (Sound(list, root, depth) ==>
            (answer.truncated <==> |Entries(items)| > ENTRIES || !Whole(list, root, depth)))
  {
    var items := FolderItems(list, root, depth);
    TakeIsFirst(items);
    WholeShows(list, root, depth);
    FolderPaired(list, root, depth);
    if |Entries(items)| > ENTRIES {
      TooManyOverflow(items);
    }
    if Sound(list, root, depth) && Overflows(items) {
      OverflowIsTooMany(items);
    }
  }

  // ------------------------------------------------------------------ parents before children

  predicate ListedIn(answer: Listing, e: Entry) {
    answer.Listed? && answer.children.Some?
    && exists i :: 0 <= i < |answer.children.value| && WellFormed(answer.children.value[i]) && EntryOf(answer.children.value[i]) == e
  }

  /** Each entry is the folder's own or is listed in a folder placed before it. */
  predicate ParentsFirst(list: Lister, top: Listing, es: seq<Entry>) {
    forall k | 0 <= k < |es| :: ListedIn(top, es[k]) || ParentBefore(list, es, k)
  }

  predicate ParentBefore(list: Lister, es: seq<Entry>, k: nat)
    requires k < |es|
  {
    exists j :: 0 <= j < k && es[j].directory && ListedIn(list(es[j].id), es[k])
  }

  lemma JoinParents(list: Lister, top: Listing, a: seq<Entry>, b: seq<Entry>)
    requires ParentsFirst(list, top, a) && ParentsFirst(list, top, b)
    ensures ParentsFirst(list, top, a + b)
  {
    forall k | 0 <= k < |a + b|
      ensures ListedIn(top, (a + b)[k]) || ParentBefore(list, a + b, k)
    {
      if k < |a| {
        assert (a + b)[k] == a[k];
        if ParentBefore(list, a, k) {
          var j :| 0 <= j < k && a[j].directory && ListedIn(list(a[j].id), a[k]);
          assert (a + b)[j] == a[j];
        }
      } else {
        assert (a + b)[k] == b[k - |a|];
        if ParentBefore(list, b, k - |a|) {
          var j :| 0 <= j < k - |a| && b[j].directory && ListedIn(list(b[j].id), b[k - |a|]);
          assert (a + b)[j + |a|] == b[j];
        }
      }
    }
  }

  /** A folder's entry and then what is below it, among the children of the folder around it. */
  lemma NestParents(list: Lister, top: Listing, e: Entry, below: seq<Entry>)
    requires ListedIn(top, e) && (below != [] ==> e.directory) && ParentsFirst(list, list(e.id), below)
    ensures ParentsFirst(list, top, [e] + below)
  {
    var es := [e] + below;
    forall k | 0 <= k < |es|
      ensures ListedIn(top, es[k]) || ParentBefore(list, es, k)
    {
      if k > 0 {
        assert es[k] == below[k - 1] && es[0] == e;
        if ParentBefore(list, below, k - 1) {
          var j :| 0 <= j < k - 1 && below[j].directory && ListedIn(list(below[j].id), below[k - 1]);
          assert es[j + 1] == below[j];
        }
      }
    }
  }

  lemma {:induction false} FolderParents(list: Lister, answer: Listing, depth: nat)
    requires depth <= DEPTH
    ensures ParentsFirst(list, answer, Entries(FolderItems(list, answer, depth)))
    decreases DEPTH - depth, 2, 0
  {
    assert [LeftOut][..0] == [] && Entries([LeftOut]) == [];
    if answer.Listed? {
      var head: seq<Item> := if answer.truncated then [LeftOut] else [];
      assert Entries(head) == [];
      if answer.children.Some? {
        var children := answer.children.value;
        ChildrenParents(list, answer, |children|, depth);
        assert children[..|children|] == children;
        EntriesJoin(head, ChildrenItems(list, children, depth));
        assert Entries(FolderItems(list, answer, depth)) == Entries(ChildrenItems(list, children, depth));
      } else {
        assert FolderItems(list, answer, depth) == head;
      }
    }
  }

  lemma {:induction false} ChildrenParents(list: Lister, answer: Listing, n: nat, depth: nat)
    requires depth <= DEPTH && answer.Listed? && answer.children.Some? && n <= |answer.children.value|
    ensures ParentsFirst(list, answer, Entries(ChildrenItems(list, answer.children.value[..n], depth)))
    decreases DEPTH - depth, 1, n
  {
    if n > 0 {
      var some := answer.children.value[..n];
      assert some[..n - 1] == answer.children.value[..n - 1];
      ChildrenParents(list, answer, n - 1, depth);
      ChildParents(list, answer, n - 1, depth);
      EntriesJoin(ChildrenItems(list, some[..n - 1], depth), ChildItems(list, some[n - 1], depth));
      JoinParents(list, answer, Entries(ChildrenItems(list, some[..n - 1], depth)), Entries(ChildItems(list, some[n - 1], depth)));
    }
  }

  lemma {:induction false} ChildParents(list: Lister, answer: Listing, i: nat, depth: nat)
    requires depth <= DEPTH && answer.Listed? && answer.children.Some? && i < |answer.children.value|
    ensures ParentsFirst(list, answer, Entries(ChildItems(list, answer.children.value[i], depth)))
    decreases DEPTH - depth, 0, 0
  {
    var c := answer.children.value[i];
    assert [Reach][..0] == [];
    if WellFormed(c) {
      var head, below := [Reach, Put(EntryOf(c))], Below(list, c, depth);
      if c.directory.value && depth + 1 <= DEPTH {
        FolderParents(list, list(c.id.value), depth + 1);
      } else {
        assert [LeftOut][..0] == [] && Entries(below) == [];
      }
      assert head[..1] == [Reach] && Entries(head) == [EntryOf(c)];
      EntriesJoin(head, below);
      NestParents(list, answer, EntryOf(c), Entries(below));
    }
  }

  /** In the answer every entry is a child of the root or of a folder before it, whatever was cut off at the end. */
  lemma {:induction false} AnswerHasParentsFirst(list: Lister, root: Listing, depth: nat)
    requires depth <= DEPTH
    ensures ParentsFirst(list, root, Take(FolderItems(list, root, depth), Answer([], false)).entries)
  {
    TakeIsFirst(FolderItems(list, root, depth));
    FolderParents(list, root, depth);
    var all := Entries(FolderItems(list, root, depth));
    var some := FirstOf(all, ENTRIES);
    forall k | 0 <= k < |some|
      ensures ListedIn(root, some[k]) || ParentBefore(list, some, k)
    {
      assert some[k] == all[k];
      if ParentBefore(list, all, k) {
        var j :| 0 <= j < k && all[j].directory && ListedIn(list(all[j].id), all[k]);
        assert some[j] == all[j];
      }
    }
  }
}
