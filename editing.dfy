/*
 * Editing rows in place: the canonical order of the options of an Execute
 * action and of a startupnotify option block, moving a row among its
 * siblings, making menus, items and separators visible again, editing cells
 * and entry fields, and flipping a yes/no option.
 */
module Editing {
  import opened Rows
  import opened Tree
  import opened Kickshaw
  import opened Registry

  // ---------------------------------------------------------------------
  // Sorting options.

  /** The options an Execute action or a startupnotify option block sorts its
      children by: the Execute options for "Execute", otherwise the
      startupnotify options. */
  function OptionsOf(executeOrStartupnotify: Option<string>): seq<string> {
    if executeOrStartupnotify == Some(EXECUTE) then EXECUTE_OPTIONS else STARTUPNOTIFY_OPTIONS
  }

  /** The position of `e` among `opts`; `|opts|` when it is none of them. */
  function Rank(e: Option<string>, opts: seq<string>): (r: nat)
    ensures r <= |opts|
    ensures r < |opts| ==> e == Some(opts[r])
    ensures forall k :: 0 <= k < r ==> e != Some(opts[k])
  {
    if opts == [] then 0
    else if e == Some(opts[0]) then 0
    else
      var r := 1 + Rank(e, opts[1..]);
      assert forall k :: 1 <= k < r ==> opts[k] == opts[1..][k - 1];
      r
  }

  function R(n: Node, opts: seq<string>): nat {
    Rank(n.row.element, opts)
  }

  predicate RankSorted(cs: seq<Node>, opts: seq<string>) {
    forall a, b :: 0 <= a < b < |cs| ==> R(cs[a], opts) <= R(cs[b], opts)
  }

  /** `gtk_tree_store_swap` of two children. */
  function Swap(cs: seq<Node>, i: nat, j: nat): (r: seq<Node>)
    requires i < |cs| && j < |cs|
    ensures |r| == |cs| && multiset(r) == multiset(cs)
    ensures r[i] == cs[j] && r[j] == cs[i]
    ensures forall k :: 0 <= k < |cs| && k != i && k != j ==> r[k] == cs[k]
  {
    cs[i := cs[j]][j := cs[i]]
  }

  /** The first child from `from` on whose element is `name`. */
  function FirstWith(cs: seq<Node>, from: nat, name: string): (j: Option<nat>)
    requires from <= |cs|
    ensures j.Some? ==> from <= j.value < |cs| && cs[j.value].row.element == Some(name)
    ensures j.Some? ==> forall k :: from <= k < j.value ==> cs[k].row.element != Some(name)
    ensures j.None? ==> forall k :: from <= k < |cs| ==> cs[k].row.element != Some(name)
    decreases |cs| - from
  {
    if from == |cs| then None
    else if cs[from].row.element == Some(name) then Some(from)
    else FirstWith(cs, from + 1, name)
  }

  /** One pass of the outer loop at position `i`: the options are tried in
      order from `o` on; the first one that is the child at `i` stops the
      pass, the first one found further down is swapped into `i`. */
  function PlaceLowest(cs: seq<Node>, i: nat, opts: seq<string>, o: nat): (r: seq<Node>)
    requires i < |cs| && o <= |opts|
    ensures |r| == |cs| && multiset(r) == multiset(cs)
    decreases |opts| - o
  {
    if o == |opts| then cs
    else if cs[i].row.element == Some(opts[o]) then cs
    else
      match FirstWith(cs, i + 1, opts[o])
      case Some(j) => Swap(cs, i, j)
      case None => PlaceLowest(cs, i, opts, o + 1)
  }

  /** The passes from position `i` to the last but one child. */
  function SelectionFrom(cs: seq<Node>, i: nat, opts: seq<string>): (r: seq<Node>)
    ensures |r| == |cs| && multiset(r) == multiset(cs)
    decreases |cs| - i
  {
    if i + 1 >= |cs| then cs else SelectionFrom(PlaceLowest(cs, i, opts, 0), i + 1, opts)
  }

  /** The children of an Execute action or option block after sorting. */
  function SortedOptions(cs: seq<Node>, executeOrStartupnotify: Option<string>): (r: seq<Node>)
    ensures |r| == |cs| && multiset(r) == multiset(cs)
  {
    SelectionFrom(cs, 0, OptionsOf(executeOrStartupnotify))
  }

  /** A pass puts at `i` a child of lowest rank among those from `i` on and
      leaves the children before `i` alone. */
  lemma {:induction false} PlaceLowestMin(cs: seq<Node>, i: nat, opts: seq<string>, o: nat)
    requires i < |cs| && o <= |opts|
    requires forall k :: i <= k < |cs| ==> R(cs[k], opts) >= o
    ensures var r := PlaceLowest(cs, i, opts, o);
      r[..i] == cs[..i] && multiset(r[i..]) == multiset(cs[i..]) &&
      forall k :: i < k < |r| ==> R(r[i], opts) <= R(r[k], opts)
    decreases |opts| - o
  {
    var r := PlaceLowest(cs, i, opts, o);
    if o == |opts| || cs[i].row.element == Some(opts[o]) {
      assert r == cs;
    } else {
      match FirstWith(cs, i + 1, opts[o])
      case Some(j) =>
        assert r == Swap(cs, i, j);
        assert r[..i] == cs[..i];
        SwapSuffix(cs, i, j);
      case None =>
        forall k | i <= k < |cs| ensures R(cs[k], opts) >= o + 1 {
          assert cs[k].row.element != Some(opts[o]);
        }
        PlaceLowestMin(cs, i, opts, o + 1);
    }
  }

  lemma SwapSuffix(cs: seq<Node>, i: nat, j: nat)
    requires i < j < |cs|
    ensures multiset(Swap(cs, i, j)[i..]) == multiset(cs[i..])
  {
    var r := Swap(cs, i, j);
    assert cs == cs[..i] + cs[i..] && r == r[..i] + r[i..];
    assert r[..i] == cs[..i];
  }

  /** Every child before `i` ranks no higher than the children after it. */
  ghost predicate SortedBefore(cs: seq<Node>, i: nat, opts: seq<string>) {
    forall a, b :: 0 <= a < i && a < b < |cs| ==> R(cs[a], opts) <= R(cs[b], opts)
  }

  lemma {:induction false} SelectionFromSorted(cs: seq<Node>, i: nat, opts: seq<string>)
    requires i <= |cs| && SortedBefore(cs, i, opts)
    ensures RankSorted(SelectionFrom(cs, i, opts), opts)
    decreases |cs| - i
  {
    if i + 1 < |cs| {
      var r := PlaceLowest(cs, i, opts, 0);
      PlaceLowestMin(cs, i, opts, 0);
      PassExtendsSorted(cs, r, i, opts);
      SelectionFromSorted(r, i + 1, opts);
    }
  }

  /** A pass that keeps the prefix, permutes the suffix and puts a lowest
      child at `i` extends the sorted prefix by one. */
  lemma PassExtendsSorted(cs: seq<Node>, r: seq<Node>, i: nat, opts: seq<string>)
    requires i < |cs| == |r| && SortedBefore(cs, i, opts)
    requires r[..i] == cs[..i] && multiset(r[i..]) == multiset(cs[i..])
    requires forall k :: i < k < |r| ==> R(r[i], opts) <= R(r[k], opts)
    ensures SortedBefore(r, i + 1, opts)
  {
    forall a, b | 0 <= a < i + 1 && a < b < |r| ensures R(r[a], opts) <= R(r[b], opts) {
      if a < i {
        assert r[a] == r[..i][a] == cs[a];
        if b < i {
          assert r[b] == r[..i][b] == cs[b];
        } else {
          var c := FromSuffix(cs, r, i, b);
          assert R(cs[a], opts) <= R(cs[c], opts);
        }
      }
    }
  }

  /** A child in the permuted suffix comes from the suffix. */
  lemma FromSuffix(cs: seq<Node>, r: seq<Node>, i: nat, b: nat) returns (c: nat)
    requires i <= b < |r| && i <= |cs| && multiset(r[i..]) == multiset(cs[i..])
    ensures i <= c < |cs| && cs[c] == r[b]
  {
    assert r[b] == r[i..][b - i];
    assert r[b] in multiset(cs[i..]);
    var k :| 0 <= k < |cs[i..]| && cs[i..][k] == r[b];
    c := i + k;
  }

  /** After sorting, the children are in canonical order: prompt, command,
      startupnotify under Execute; enabled, name, wmclass, icon in a
      startupnotify block (anything else last). */
  lemma SortedOptionsSorted(cs: seq<Node>, executeOrStartupnotify: Option<string>)
    ensures RankSorted(SortedOptions(cs, executeOrStartupnotify), OptionsOf(executeOrStartupnotify))
  {
    SelectionFromSorted(cs, 0, OptionsOf(executeOrStartupnotify));
  }

  /** `sort_execute_or_startupnotify_options`: for each child but the last,
      the options are tried in order; if the child is the option, it stays,
      otherwise the first later child that is the option is swapped with it. */
  method SortExecuteOrStartupnotifyOptions(children: seq<Node>, executeOrStartupnotify: Option<string>)
    returns (cs: seq<Node>)
    ensures cs == SortedOptions(children, executeOrStartupnotify)
    ensures multiset(cs) == multiset(children)
    ensures RankSorted(cs, OptionsOf(executeOrStartupnotify))
  {
    var opts := OptionsOf(executeOrStartupnotify);
    cs := children;
    var i := 0;
    while i < |cs| - 1
      invariant 0 <= i <= |children| && |cs| == |children|
      invariant i + 1 >= |cs| || SelectionFrom(cs, i, opts) == SortedOptions(children, executeOrStartupnotify)
      invariant i + 1 >= |cs| ==> cs == SortedOptions(children, executeOrStartupnotify)
    {
      cs := PlaceOption(cs, i, opts);
      i := i + 1;
    }
    SortedOptionsSorted(children, executeOrStartupnotify);
  }

  /** The middle loop of the sort at position `i`: the options are tried in
      order until one is the child at `i` or has been swapped into it. */
  method PlaceOption(cs: seq<Node>, i: nat, opts: seq<string>) returns (cs': seq<Node>)
    requires i < |cs|
    ensures cs' == PlaceLowest(cs, i, opts, 0)
  {
    cs' := cs;
    var o := 0;
    var next := false;
    while o < |opts| && !next
      invariant 0 <= o <= |opts|
      invariant !next ==> cs' == cs && PlaceLowest(cs, i, opts, o) == PlaceLowest(cs, i, opts, 0)
      invariant next ==> cs' == PlaceLowest(cs, i, opts, 0)
      decreases |opts| - o, !next
    {
      PlaceLowestStep(cs, i, opts, o);
      if cs'[i].row.element != Some(opts[o]) {
        var found;
        cs', found := SwapInFirst(cs, i, opts[o]);
        if found {
          next := true;
        } else {
          o := o + 1;
        }
      } else {
        next := true;
      }
    }
    if !next {
      assert PlaceLowest(cs, i, opts, o) == cs;
    }
  }

  /** What trying option `o` does in a pass. */
  lemma PlaceLowestStep(cs: seq<Node>, i: nat, opts: seq<string>, o: nat)
    requires i < |cs| && o < |opts|
    ensures cs[i].row.element == Some(opts[o]) ==> PlaceLowest(cs, i, opts, o) == cs
    ensures cs[i].row.element != Some(opts[o]) && FirstWith(cs, i + 1, opts[o]).Some? ==>
      PlaceLowest(cs, i, opts, o) == Swap(cs, i, FirstWith(cs, i + 1, opts[o]).value)
    ensures cs[i].row.element != Some(opts[o]) && FirstWith(cs, i + 1, opts[o]).None? ==>
      PlaceLowest(cs, i, opts, o) == PlaceLowest(cs, i, opts, o + 1)
  {
  }

  /** The inner loop of the sort: the first child after `i` that is the
      option `name` is swapped with the child at `i`. */
  method SwapInFirst(cs: seq<Node>, i: nat, name: string) returns (cs': seq<Node>, found: bool)
    requires i < |cs|
    ensures found <==> FirstWith(cs, i + 1, name).Some?
    ensures found ==> cs' == Swap(cs, i, FirstWith(cs, i + 1, name).value)
    ensures !found ==> cs' == cs
  {
    cs', found := cs, false;
    var j := i + 1;
    while j < |cs| && !found
      invariant i + 1 <= j <= |cs|
      invariant !found ==> cs' == cs && FirstWith(cs, i + 1, name) == FirstWith(cs, j, name)
      invariant found ==> j < |cs| && FirstWith(cs, i + 1, name) == Some(j) && cs' == Swap(cs, i, j)
      decreases |cs| - j, !found
    {
      if cs[j].row.element == Some(name) {
        cs' := Swap(cs, i, j);
        found := true;
      } else {
        j := j + 1;
      }
    }
  }

  /** `sort_execute_or_startupnotify_options_after_insertion`: after sorting,
      the first child that is `option` is selected; when there is none, the
      loop leaves the last child selected. */
  method SortAfterInsertion(children: seq<Node>, executeOrStartupnotify: Option<string>, option: string)
    returns (cs: seq<Node>, selected: nat)
    requires children != []
    ensures cs == SortedOptions(children, executeOrStartupnotify)
    ensures selected < |cs|
    ensures HasChild(cs, option) ==>
      cs[selected].row.element == Some(option) && forall k :: 0 <= k < selected ==> cs[k].row.element != Some(option)
    ensures !HasChild(cs, option) ==> selected == |cs| - 1
  {
    cs := SortExecuteOrStartupnotifyOptions(children, executeOrStartupnotify);
    selected := 0;
    while selected < |cs|
      invariant 0 <= selected <= |cs|
      invariant forall k :: 0 <= k < selected ==> cs[k].row.element != Some(option)
    {
      if cs[selected].row.element == Some(option) {
        return;
      }
      selected := selected + 1;
    }
    selected := |cs| - 1;
  }

  // ---------------------------------------------------------------------
  // Sorting all option blocks after autosorting has been switched on.

  /** The rows whose children `sort_loop_after_sorting_activation` sorts: an
      Execute action or an option block below the toplevel with at least two
      children. */
  predicate SortsChildren(n: Node, depth: nat) {
    depth != 1 && |n.children| >= 2 &&
    ((n.row.rtype == Action && n.row.element == Some(EXECUTE)) || n.row.rtype == OptionBlock)
  }

  /** Reordered children are still children. */
  lemma PermutedWithin(cs: seq<Node>, ds: seq<Node>)
    requires multiset(cs) == multiset(ds)
    ensures forall c | c in cs :: c in ds
  {
    forall c | c in cs ensures c in ds {
      assert c in multiset(cs);
    }
  }

  /** The rank order depends on the rows only. */
  lemma SameRowsRankSorted(a: seq<Node>, b: seq<Node>, opts: seq<string>)
    requires |a| == |b| && (forall k :: 0 <= k < |a| ==> a[k].row == b[k].row) && RankSorted(a, opts)
    ensures RankSorted(b, opts)
  {
    forall i, j | 0 <= i < j < |b| ensures R(b[i], opts) <= R(b[j], opts) {
      assert R(a[i], opts) <= R(a[j], opts);
    }
  }

  /** A row at `depth` after the walk has visited it and its subtree. */
  function SortNode(n: Node, depth: nat): (m: Node)
    ensures m.row == n.row && |m.children| == |n.children|
    decreases n, 1
  {
    var cs := if SortsChildren(n, depth) then SortedOptions(n.children, n.row.element) else n.children;
    PermutedWithin(cs, n.children);
    Node(n.row, SortKids(n, cs, depth + 1))
  }

  /** The children `cs` of `parent` (possibly reordered) after the walk. */
  function SortKids(parent: Node, cs: seq<Node>, depth: nat): (r: seq<Node>)
    requires forall c | c in cs :: c in parent.children
    ensures |r| == |cs| && forall k :: 0 <= k < |cs| ==> r[k].row == cs[k].row
    decreases parent, 0, |cs|
  {
    if cs == [] then []
    else
      assert cs[0] in parent.children;
      assert cs[0] < parent;
      [SortNode(cs[0], depth)] + SortKids(parent, cs[1..], depth)
  }

  /** The forest at `depth` after the walk. */
  function SortForest(f: seq<Node>, depth: nat): (r: seq<Node>)
    ensures |r| == |f|
    decreases f
  {
    if f == [] then [] else [SortNode(f[0], depth)] + SortForest(f[1..], depth)
  }

  /** Every Execute action and option block below the toplevel has its
      options in canonical order. */
  ghost predicate OptionsSorted(f: seq<Node>, depth: nat)
    decreases f
  {
    f == [] ||
    ((SortsChildren(f[0], depth) ==> RankSorted(f[0].children, OptionsOf(f[0].row.element))) &&
     OptionsSorted(f[0].children, depth + 1) && OptionsSorted(f[1..], depth))
  }

  /** `sort_loop_after_sorting_activation`, applied by the tree walk to every
      row in pre-order: the children of a row that qualifies are sorted
      before the walk descends into them. */
  method SortLoopAfterSortingActivation(f: seq<Node>) returns (g: seq<Node>)
    ensures g == SortForest(f, 1)
    ensures OptionsSorted(g, 1) && TreeIds(g) == TreeIds(f)
  {
    g := [];
    var k := 0;
    while k < |f|
      invariant 0 <= k <= |f|
      invariant SortForest(f, 1) == g + SortForest(f[k..], 1)
    {
      SortForestStep(f, k, 1);
      var n := SortLoopNode(f[k], 1);
      g := g + [n];
      k := k + 1;
    }
    assert f[k..] == [];
    assert g == SortForest(f, 1);
    SortForestSorted(f, 1);
    SortForestIds(f, 1);
  }

  method SortLoopNode(n: Node, depth: nat) returns (m: Node)
    ensures m == SortNode(n, depth)
    decreases n, 1
  {
    var cs := n.children;
    if SortsChildren(n, depth) {
      cs := SortExecuteOrStartupnotifyOptions(n.children, n.row.element);
    }
    PermutedWithin(cs, n.children);
    var kids := SortLoopKids(n, cs, depth + 1);
    m := Node(n.row, kids);
  }

  method SortLoopKids(parent: Node, cs: seq<Node>, depth: nat) returns (r: seq<Node>)
    requires forall c | c in cs :: c in parent.children
    ensures r == SortKids(parent, cs, depth)
    decreases parent, 0
  {
    r := [];
    var k := 0;
    while k < |cs|
      invariant 0 <= k <= |cs|
      invariant SortKids(parent, cs, depth) == r + SortKids(parent, cs[k..], depth)
    {
      SortKidsStep(parent, cs, k, depth);
      assert cs[k] in parent.children;
      assert cs[k] < parent;
      var n := SortLoopNode(cs[k], depth);
      r := r + [n];
      k := k + 1;
    }
    assert cs[k..] == [];
  }

  /** One step of the walk over the forest. */
  lemma SortForestStep(f: seq<Node>, k: nat, depth: nat)
    requires k < |f|
    ensures SortForest(f[k..], depth) == [SortNode(f[k], depth)] + SortForest(f[k + 1..], depth)
  {
    assert f[k..][0] == f[k] && f[k..][1..] == f[k + 1..];
  }

  /** One step of the walk over the children. */
  lemma SortKidsStep(parent: Node, cs: seq<Node>, k: nat, depth: nat)
    requires k < |cs| && forall c | c in cs :: c in parent.children
    ensures forall c | c in cs[k..] :: c in parent.children
    ensures SortKids(parent, cs[k..], depth) == [SortNode(cs[k], depth)] + SortKids(parent, cs[k + 1..], depth)
  {
    assert cs[k..][0] == cs[k] && cs[k..][1..] == cs[k + 1..];
  }

  lemma {:induction false} SortNodeSorted(n: Node, depth: nat)
    ensures var m := SortNode(n, depth);
      (SortsChildren(m, depth) ==> RankSorted(m.children, OptionsOf(m.row.element))) &&
      OptionsSorted(m.children, depth + 1) && TreeIds(m.children) == TreeIds(n.children)
    decreases n, 1
  {
    var cs := SortNodeChildren(n, depth);
    var m := SortNode(n, depth);
    SortKidsSorted(n, cs, depth + 1);
    if SortsChildren(n, depth) {
      assert SortsChildren(m, depth);
      SortedOptionsSorted(n.children, n.row.element);
      TreeIdsPermutation(cs, n.children);
      SameRowsRankSorted(cs, m.children, OptionsOf(n.row.element));
    } else {
      assert !SortsChildren(m, depth);
    }
  }

  /** The children the walk descends into: sorted when the row qualifies. */
  lemma SortNodeChildren(n: Node, depth: nat) returns (cs: seq<Node>)
    ensures cs == if SortsChildren(n, depth) then SortedOptions(n.children, n.row.element) else n.children
    ensures forall c | c in cs :: c in n.children
    ensures SortNode(n, depth).children == SortKids(n, cs, depth + 1)
  {
    cs := if SortsChildren(n, depth) then SortedOptions(n.children, n.row.element) else n.children;
    PermutedWithin(cs, n.children);
  }

  lemma {:induction false} SortKidsSorted(parent: Node, cs: seq<Node>, depth: nat)
    requires forall c | c in cs :: c in parent.children
    ensures OptionsSorted(SortKids(parent, cs, depth), depth)
    ensures TreeIds(SortKids(parent, cs, depth)) == TreeIds(cs)
    decreases parent, 0, |cs|
  {
    if cs != [] {
      assert cs[0] in parent.children;
      assert cs[0] < parent;
      var r := SortKids(parent, cs, depth);
      SortNodeSorted(cs[0], depth);
      SortKidsSorted(parent, cs[1..], depth);
      assert r[0] == SortNode(cs[0], depth) && r[1..] == SortKids(parent, cs[1..], depth);
    }
  }

  lemma {:induction false} SortForestSorted(f: seq<Node>, depth: nat)
    ensures OptionsSorted(SortForest(f, depth), depth)
    decreases f
  {
    if f != [] {
      var r := SortForest(f, depth);
      SortNodeSorted(f[0], depth);
      SortForestSorted(f[1..], depth);
      assert r[0] == SortNode(f[0], depth) && r[1..] == SortForest(f[1..], depth);
    }
  }

  lemma {:induction false} SortForestIds(f: seq<Node>, depth: nat)
    ensures TreeIds(SortForest(f, depth)) == TreeIds(f)
    decreases f
  {
    if f != [] {
      var r := SortForest(f, depth);
      SortNodeSorted(f[0], depth);
      SortForestIds(f[1..], depth);
      assert r[0] == SortNode(f[0], depth) && r[1..] == SortForest(f[1..], depth);
    }
  }

  // ---------------------------------------------------------------------
  // Moving the selected row among its siblings.

  datatype Direction = Up | Down | Top | Bottom

  /** The position the row at `pos` moves to. */
  function NewPosition(n: nat, pos: nat, d: Direction): nat
    requires pos < n && (d == Up ==> pos > 0)
  {
    match d
    case Up => pos - 1
    case Down => pos + 1
    case Top => 0
    case Bottom => n - 1
  }

  /** A move the menu offers for the row at `pos` of `n` siblings: up and to
      the top need a row above, down and to the bottom a row below. */
  predicate CanMove(n: nat, pos: nat, d: Direction) {
    pos < n && (if d == Up || d == Top then pos > 0 else pos + 1 < n)
  }

  /** `move_selection` on the siblings of the selected row: up and down swap
      it with its neighbour, to the top moves it before the first sibling, to
      the bottom after the last. */
  function MoveSelection(siblings: seq<Node>, pos: nat, d: Direction): (r: seq<Node>)
    requires pos < |siblings|
    requires d == Up ==> pos > 0
    requires d == Down ==> pos + 1 < |siblings|
    ensures |r| == |siblings| && multiset(r) == multiset(siblings)
    ensures r[NewPosition(|siblings|, pos, d)] == siblings[pos]
    ensures RemoveAt(r, NewPosition(|siblings|, pos, d)) == RemoveAt(siblings, pos)
  {
    match d
    case Up =>
      SwapNeighbours(siblings, pos - 1);
      Swap(siblings, pos, pos - 1)
    case Down =>
      SwapNeighbours(siblings, pos);
      Swap(siblings, pos, pos + 1)
    case Top =>
      MovedToFront(siblings, pos);
      [siblings[pos]] + RemoveAt(siblings, pos)
    case Bottom =>
      MovedToBack(siblings, pos);
      RemoveAt(siblings, pos) + [siblings[pos]]
  }

  /** Swapping neighbours `i` and `i + 1` leaves the others in order. */
  lemma SwapNeighbours(s: seq<Node>, i: nat)
    requires i + 1 < |s|
    ensures RemoveAt(Swap(s, i + 1, i), i) == RemoveAt(s, i + 1)
    ensures RemoveAt(Swap(s, i, i + 1), i + 1) == RemoveAt(s, i)
  {
    var u, d := Swap(s, i + 1, i), Swap(s, i, i + 1);
    assert forall k :: 0 <= k < |s| - 1 ==> RemoveAt(u, i)[k] == RemoveAt(s, i + 1)[k];
    assert forall k :: 0 <= k < |s| - 1 ==> RemoveAt(d, i + 1)[k] == RemoveAt(s, i)[k];
  }

  lemma MovedToFront<T>(s: seq<T>, pos: nat)
    requires pos < |s|
    ensures var r := [s[pos]] + RemoveAt(s, pos); multiset(r) == multiset(s) && RemoveAt(r, 0) == RemoveAt(s, pos)
  {
    var r := [s[pos]] + RemoveAt(s, pos);
    assert s == s[..pos] + [s[pos]] + s[pos + 1..];
    assert RemoveAt(r, 0) == r[1..];
  }

  lemma MovedToBack<T>(s: seq<T>, pos: nat)
    requires pos < |s|
    ensures var r := RemoveAt(s, pos) + [s[pos]]; multiset(r) == multiset(s) && RemoveAt(r, |s| - 1) == RemoveAt(s, pos)
  {
    var r := RemoveAt(s, pos) + [s[pos]];
    assert s == s[..pos] + [s[pos]] + s[pos + 1..];
    assert RemoveAt(r, |s| - 1) == r[..|s| - 1];
  }

  /** Two sequences that agree at `q` and everywhere else are equal. */
  lemma SameApartFrom<T>(a: seq<T>, b: seq<T>, q: nat)
    requires q < |a| == |b| && a[q] == b[q] && RemoveAt(a, q) == RemoveAt(b, q)
    ensures a == b
  {
    forall k | 0 <= k < |a| ensures a[k] == b[k] {
      if k < q {
        assert a[k] == RemoveAt(a, q)[k] && b[k] == RemoveAt(b, q)[k];
      } else if k > q {
        assert a[k] == RemoveAt(a, q)[k - 1] && b[k] == RemoveAt(b, q)[k - 1];
      }
    }
  }

  /** The move is determined by its two promises: a sequence that has the
      moved row at the new position and the others in their old order is
      the result. */
  lemma MoveSelectionUnique(siblings: seq<Node>, pos: nat, d: Direction, r: seq<Node>)
    requires pos < |siblings| && (d == Up ==> pos > 0) && (d == Down ==> pos + 1 < |siblings|)
    requires |r| == |siblings|
    requires r[NewPosition(|siblings|, pos, d)] == siblings[pos]
    requires RemoveAt(r, NewPosition(|siblings|, pos, d)) == RemoveAt(siblings, pos)
    ensures r == MoveSelection(siblings, pos, d)
  {
    SameApartFrom(r, MoveSelection(siblings, pos, d), NewPosition(|siblings|, pos, d));
  }

  /** The move applied to the tree: the row at `p` moves among its siblings;
      its new path is returned with the new tree. */
  function MoveRow(f: seq<Node>, p: Path, d: Direction): (res: (seq<Node>, Path))
    requires ValidPath(f, p)
    requires ValidParent(f, Parent(p)) && CanMove(|Kids(f, Parent(p))|, p[|p| - 1], d)
    ensures ValidPath(res.0, res.1) && Parent(res.1) == Parent(p)
    ensures NodeAt(res.0, res.1) == NodeAt(f, p) && TreeIds(res.0) == TreeIds(f)
  {
    var q := Parent(p);
    var moved := MoveSelection(Kids(f, q), p[|p| - 1], d);
    var i := NewPosition(|Kids(f, q)|, p[|p| - 1], d);
    MoveRowFacts(f, p, d, moved, i);
    (SetKids(f, q, moved), q + [i])
  }

  lemma MoveRowFacts(f: seq<Node>, p: Path, d: Direction, moved: seq<Node>, i: nat)
    requires ValidPath(f, p)
    requires ValidParent(f, Parent(p)) && CanMove(|Kids(f, Parent(p))|, p[|p| - 1], d)
    requires moved == MoveSelection(Kids(f, Parent(p)), p[|p| - 1], d)
    requires i == NewPosition(|Kids(f, Parent(p))|, p[|p| - 1], d)
    ensures var g := SetKids(f, Parent(p), moved);
      ValidPath(g, Parent(p) + [i]) && NodeAt(g, Parent(p) + [i]) == NodeAt(f, p) && TreeIds(g) == TreeIds(f)
  {
    var q := Parent(p);
    KidsAt(f, p);
    var g := SetKids(f, q, moved);
    TreeIdsSetKids(f, q, moved);
    TreeIdsPermutation(moved, Kids(f, q));
    Cancel(TreeIds(g), TreeIds(f), TreeIds(moved));
    ValidChild(g, q, i);
    assert Parent(q + [i]) == q;
  }

  // ---------------------------------------------------------------------
  // Making invisible menus, items and separators visible.

  /** A menu, pipe menu or item without a label gets the placeholder label. */
  function LabelIfUnlabelled(r: Row): (r': Row)
    ensures !IsUnlabelled(r') && r'.(element := r.element) == r
    ensures r'.element == r.element || (IsUnlabelled(r) && r'.element == Some(NEWLY_CREATED_LABEL))
  {
    if IsUnlabelled(r) then WithElement(r, Some(NEWLY_CREATED_LABEL)) else r
  }

  /** The row at filter path `p` is the selected row or one of its ancestors
      below the toplevel (`sel` is `None` when the toplevel row itself is
      selected). */
  predicate OnLine(p: Path, sel: Option<Path>) {
    sel.Some? && (IsAncestor(p, sel.value) || p == sel.value)
  }

  /** The row is visualised together with the selected row: recursive
      visualisation and the row lies below the selected one. */
  predicate RecursiveDescendant(p: Path, sel: Option<Path>, recursively: bool) {
    recursively && (sel.None? || IsAncestor(sel.value, p))
  }

  /** `check_and_adjust_dependent_element_visibilities` for one row of the
      toplevel row's subtree, at filter path `p`, when some ancestor between
      the toplevel and the row is (`ancestorInvisible`) or is not invisible:
      rows without a visibility are skipped; the selected line becomes
      visible and labelled; any other row below an invisible ancestor becomes
      a descendant of an invisible menu, an unlabelled row that is not
      visualised becomes an invisible menu or item, and every other row
      becomes visible (labelled if it is visualised). */
  function AdjustRow(r: Row, p: Path, sel: Option<Path>, recursively: bool, ancestorInvisible: bool): (r': Row)
    ensures r'.(element := r.element, visibility := r.visibility) == r
    ensures r'.element == r.element || (IsUnlabelled(r) && r'.element == Some(NEWLY_CREATED_LABEL))
    ensures r.visibility == None <==> r'.visibility == None
  {
    if r.visibility == None then r
    else if OnLine(p, sel) then WithVisibility(LabelIfUnlabelled(r), Some(VISIBLE))
    else
      var visualised := RecursiveDescendant(p, sel, recursively);
      var v :=
        if ancestorInvisible then DSCT_OF_INVISIBLE
        else if !visualised && IsUnlabelled(r) then (if r.rtype == Menu then INVISIBLE_MENU else INVISIBLE_ITEM)
        else VISIBLE;
      WithVisibility(if visualised then LabelIfUnlabelled(r) else r, Some(v))
  }

  /** A row and its subtree after the walk; its children see an invisible
      ancestor when one was seen above or the row itself has become
      invisible. */
  function AdjustNode(n: Node, p: Path, sel: Option<Path>, recursively: bool, ancestorInvisible: bool): (m: Node)
    ensures m.row.rtype == n.row.rtype && m.row.menuId == n.row.menuId
    ensures SameLayout(n.children, m.children)
    decreases n, 1
  {
    var r := AdjustRow(n.row, p, sel, recursively, ancestorInvisible);
    Node(r, AdjustKids(n.children, p, sel, recursively, ancestorInvisible || IsInvisible(r.visibility)))
  }

  function AdjustKids(cs: seq<Node>, base: Path, sel: Option<Path>, recursively: bool, ancestorInvisible: bool)
    : (r: seq<Node>)
    ensures |r| == |cs| && SameLayout(cs, r)
    ensures forall k :: 0 <= k < |cs| ==> r[k] == AdjustNode(cs[k], base + [k], sel, recursively, ancestorInvisible)
    decreases cs, 0
  {
    seq(|cs|, k requires 0 <= k < |cs| => AdjustNode(cs[k], base + [k], sel, recursively, ancestorInvisible))
  }

  /** One selected row visualised: its toplevel row becomes visible (and
      labelled when it has no label), then every row of the toplevel row's
      subtree is adjusted in pre-order. */
  function VisualiseOne(f: seq<Node>, s: Path, recursively: bool): (g: seq<Node>)
    requires ValidPath(f, s)
    ensures |g| == |f| && forall j :: 0 <= j < |f| && j != s[0] ==> g[j] == f[j]
    ensures SameLayout(f, g)
  {
    var top := f[s[0]];
    var row := WithVisibility(top.row, Some(VISIBLE));
    var row' := if row.element == None then WithElement(row, Some(NEWLY_CREATED_LABEL)) else row;
    var sel := if |s| == 1 then None else Some(s[1..]);
    var g := f[s[0] := Node(row', AdjustKids(top.children, [], sel, recursively, false))];
    assert SameLayout(f, g) by {
      forall k | 0 <= k < |f| ensures SameLayout(f[k].children, g[k].children) {
        if k != s[0] {
          SameLayoutRefl(f[k].children);
        }
      }
    }
    g
  }

  lemma {:induction false} SameLayoutRefl(f: seq<Node>)
    ensures SameLayout(f, f)
    decreases f
  {
    forall k | 0 <= k < |f| ensures SameLayout(f[k].children, f[k].children) {
      SameLayoutRefl(f[k].children);
    }
  }

  /** All selected rows visualised one after the other. */
  function VisualiseAll(f: seq<Node>, selected: seq<Path>, recursively: bool): (g: seq<Node>)
    requires forall i :: 0 <= i < |selected| ==> ValidPath(f, selected[i])
    ensures TreeIds(g) == TreeIds(f)
    decreases |selected|
  {
    if selected == [] then f
    else
      var f' := VisualiseOne(f, selected[0], recursively);
      forall i | 1 <= i < |selected| ensures ValidPath(f', selected[i]) {
        SameLayoutPaths(f, f', selected[i]);
      }
      SameLayoutIds(f, f');
      VisualiseAll(f', selected[1..], recursively)
  }

  /** `visualise_menus_items_and_separators`: the selected rows in order. */
  method VisualiseMenusItemsAndSeparators(f: seq<Node>, selected: seq<Path>, recursively: bool)
    returns (g: seq<Node>)
    requires forall i :: 0 <= i < |selected| ==> ValidPath(f, selected[i])
    ensures g == VisualiseAll(f, selected, recursively) && TreeIds(g) == TreeIds(f)
  {
    g := f;
    var i := 0;
    while i < |selected|
      invariant 0 <= i <= |selected|
      invariant forall j :: i <= j < |selected| ==> ValidPath(g, selected[j])
      invariant VisualiseAll(g, selected[i..], recursively) == VisualiseAll(f, selected, recursively)
    {
      var g' := VisualiseOne(g, selected[i], recursively);
      forall j | i < j < |selected| ensures ValidPath(g', selected[j]) {
        SameLayoutPaths(g, g', selected[j]);
      }
      assert selected[i..][1..] == selected[i + 1..];
      g := g';
      i := i + 1;
    }
  }

  /** In the subtree: a row on the selected line with a visibility becomes
      visible and labelled. */
  lemma {:induction false} LineVisible(cs: seq<Node>, base: Path, sel: Option<Path>, recursively: bool,
                                       anc: bool, q: Path)
    requires ValidPath(cs, q) && NodeAt(cs, q).row.visibility.Some?
    requires OnLine(base + q, sel)
    ensures var r := AdjustKids(cs, base, sel, recursively, anc);
      ValidPath(r, q) && NodeAt(r, q).row.visibility == Some(VISIBLE) && !IsUnlabelled(NodeAt(r, q).row)
    decreases |q|
  {
    var k := q[0];
    if |q| == 1 {
      assert base + q == base + [k];
      LineVisibleHere(cs, base, sel, recursively, anc, k);
    } else {
      var b' := base + [k];
      assert b' + q[1..] == base + q;
      var anc' := AdjustedChildren(cs, base, sel, recursively, anc, k);
      LineVisible(cs[k].children, b', sel, recursively, anc', q[1..]);
    }
  }

  /** The `k`-th row of the subtree itself, on the selected line. */
  lemma LineVisibleHere(cs: seq<Node>, base: Path, sel: Option<Path>, recursively: bool, anc: bool, k: nat)
    requires k < |cs| && cs[k].row.visibility.Some? && OnLine(base + [k], sel)
    ensures var r := AdjustKids(cs, base, sel, recursively, anc);
      r[k].row.visibility == Some(VISIBLE) && !IsUnlabelled(r[k].row)
  {
    LineRowVisible(cs[k].row, base + [k], sel, recursively, anc);
  }

  /** The children of the `k`-th row are adjusted below `base + [k]`, seeing
      the invisible ancestor `anc'`. */
  lemma AdjustedChildren(cs: seq<Node>, base: Path, sel: Option<Path>, recursively: bool, anc: bool, k: nat)
    returns (anc': bool)
    requires k < |cs|
    ensures var r := AdjustKids(cs, base, sel, recursively, anc);
      r[k].children == AdjustKids(cs[k].children, base + [k], sel, recursively, anc')
  {
    var m := AdjustKids(cs, base, sel, recursively, anc)[k];
    assert m == AdjustNode(cs[k], base + [k], sel, recursively, anc);
    anc' := anc || IsInvisible(m.row.visibility);
  }

  /** A row on the selected line with a visibility becomes visible and
      labelled. */
  lemma LineRowVisible(r: Row, p: Path, sel: Option<Path>, recursively: bool, anc: bool)
    requires r.visibility.Some? && OnLine(p, sel)
    ensures AdjustRow(r, p, sel, recursively, anc).visibility == Some(VISIBLE)
    ensures !IsUnlabelled(AdjustRow(r, p, sel, recursively, anc))
  {
  }

  /** Visualising makes the selected row and all its ancestors visible and
      labelled (rows without a visibility below the toplevel excepted). */
  lemma VisualisedLine(f: seq<Node>, s: Path, recursively: bool, a: Path)
    requires ValidPath(f, s) && ValidPath(f, a) && (a == s || IsAncestor(a, s))
    requires |a| == 1 || NodeAt(f, a).row.visibility.Some?
    ensures var g := VisualiseOne(f, s, recursively);
      ValidPath(g, a) && NodeAt(g, a).row.visibility == Some(VISIBLE) && !IsUnlabelled(NodeAt(g, a).row)
  {
    var g := VisualiseOne(f, s, recursively);
    assert a[0] == s[0];
    if |a| > 1 {
      var q := a[1..];
      var sel := Some(s[1..]);
      assert OnLine([] + q, sel) by {
        if a != s {
          assert s[1..][..|q|] == q;
        }
      }
      LineVisible(f[s[0]].children, [], sel, recursively, false, q);
    }
  }

  /** Below the selected line, with no invisible ancestor seen so far, every
      row with a visibility becomes visible and labelled. */
  lemma {:induction false} DescendantsVisible(cs: seq<Node>, base: Path, sel: Option<Path>, q: Path)
    requires ValidPath(cs, q) && NodeAt(cs, q).row.visibility.Some?
    requires sel.None? || (|sel.value| <= |base + q| && (base + q)[..|sel.value|] == sel.value)
    ensures var r := AdjustKids(cs, base, sel, true, false);
      ValidPath(r, q) && NodeAt(r, q).row.visibility == Some(VISIBLE) && !IsUnlabelled(NodeAt(r, q).row)
    decreases |q|
  {
    var k := q[0];
    var b' := base + [k];
    assert b' + q[1..] == base + q;
    var r := AdjustKids(cs, base, sel, true, false);
    var m := r[k];
    if sel.Some? {
      assert (base + q)[..|b'|] == b';
      PrefixesComparable(base + q, b', sel.value);
    }
    InvisibleClasses();
    assert !IsInvisible(m.row.visibility);
    if |q| > 1 {
      DescendantsVisible(cs[k].children, b', sel, q[1..]);
    }
  }

  /** Recursive visualisation makes every row below the selected row that has
      a visibility visible and labelled. */
  lemma VisualisedRecursively(f: seq<Node>, s: Path, p: Path)
    requires ValidPath(f, s) && ValidPath(f, p) && IsAncestor(s, p)
    requires NodeAt(f, p).row.visibility.Some?
    ensures var g := VisualiseOne(f, s, true);
      ValidPath(g, p) && NodeAt(g, p).row.visibility == Some(VISIBLE) && !IsUnlabelled(NodeAt(g, p).row)
  {
    assert p[0] == s[0];
    var sel := if |s| == 1 then None else Some(s[1..]);
    var q := p[1..];
    if |s| > 1 {
      assert q[..|s| - 1] == s[1..];
    }
    DescendantsVisible(f[s[0]].children, [], sel, q);
  }

  /** A row that is neither on the selected line nor visualised with it
      keeps no label and is, or becomes, invisible. */
  lemma {:induction false} UnvisualisedInvisible(cs: seq<Node>, base: Path, sel: Option<Path>, recursively: bool,
                                                 anc: bool, q: Path)
    requires ValidPath(cs, q) && NodeAt(cs, q).row.visibility.Some? && IsUnlabelled(NodeAt(cs, q).row)
    requires !OnLine(base + q, sel) && !RecursiveDescendant(base + q, sel, recursively)
    ensures var r := AdjustKids(cs, base, sel, recursively, anc);
      ValidPath(r, q) && IsInvisible(NodeAt(r, q).row.visibility) && IsUnlabelled(NodeAt(r, q).row)
    decreases |q|
  {
    var k := q[0];
    if |q| == 1 {
      assert base + q == base + [k];
      UnvisualisedHere(cs, base, sel, recursively, anc, k);
    } else {
      var b' := base + [k];
      assert b' + q[1..] == base + q;
      var anc' := AdjustedChildren(cs, base, sel, recursively, anc, k);
      UnvisualisedInvisible(cs[k].children, b', sel, recursively, anc', q[1..]);
    }
  }

  /** The `k`-th row of the subtree itself, neither on the selected line nor
      visualised with it. */
  lemma UnvisualisedHere(cs: seq<Node>, base: Path, sel: Option<Path>, recursively: bool, anc: bool, k: nat)
    requires k < |cs| && cs[k].row.visibility.Some? && IsUnlabelled(cs[k].row)
    requires !OnLine(base + [k], sel) && !RecursiveDescendant(base + [k], sel, recursively)
    ensures var r := AdjustKids(cs, base, sel, recursively, anc);
      IsInvisible(r[k].row.visibility) && IsUnlabelled(r[k].row)
  {
    var m := AdjustKids(cs, base, sel, recursively, anc)[k];
    assert m == AdjustNode(cs[k], base + [k], sel, recursively, anc);
    InvisibleClasses();
  }

  /** Non-recursive visualisation of a row leaves every unlabelled menu, pipe
      menu or item off the selected line, in the same toplevel subtree,
      invisible; recursive visualisation does so outside the selected row's
      subtree. */
  lemma UnlabelledStayInvisible(f: seq<Node>, s: Path, recursively: bool, p: Path)
    requires ValidPath(f, s) && ValidPath(f, p) && |p| > 1 && p[0] == s[0]
    requires !(p == s || IsAncestor(p, s)) && !(recursively && (|s| == 1 || IsAncestor(s, p)))
    requires NodeAt(f, p).row.visibility.Some? && IsUnlabelled(NodeAt(f, p).row)
    ensures var g := VisualiseOne(f, s, recursively);
      ValidPath(g, p) && IsInvisible(NodeAt(g, p).row.visibility) && IsUnlabelled(NodeAt(g, p).row)
  {
    var sel := if |s| == 1 then None else Some(s[1..]);
    var q := p[1..];
    assert p == [s[0]] + q && s == [s[0]] + s[1..] && [] + q == q;
    ConsPaths(s[0], q, s[1..]);
    ConsPaths(s[0], s[1..], q);
    UnvisualisedInvisible(f[s[0]].children, [], sel, recursively, false, q);
  }

  // ---------------------------------------------------------------------
  // Removing icons.

  /** `remove_icons_from_menus_or_items`: every selected row loses its icon
      path (and with it the image and its modification date). */
  method RemoveIcons(f: seq<Node>, selected: seq<Path>) returns (g: seq<Node>)
    requires forall k :: 0 <= k < |selected| ==> ValidPath(f, selected[k])
    ensures TreeIds(g) == TreeIds(f) && IconsCleared(f, g, selected)
  {
    g := f;
    ghost var done: seq<Path> := [];
    var i := 0;
    while i < |selected|
      invariant 0 <= i <= |selected| && done == selected[..i]
      invariant TreeIds(g) == TreeIds(f) && IconsCleared(f, g, done)
    {
      g := ClearIcon(f, g, done, selected[i]);
      done := done + [selected[i]];
      i := i + 1;
    }
  }

  /** Every row of `f` is still in `g`; the rows at the paths of `done` have
      lost their icon and the others are unchanged. */
  ghost predicate IconsCleared(f: seq<Node>, g: seq<Node>, done: seq<Path>) {
    forall q :: ValidPath(f, q) ==>
      (ValidPath(g, q) && NodeAt(g, q).row == if q in done then NodeAt(f, q).row.(icon := None) else NodeAt(f, q).row)
  }

  /** One step of `RemoveIcons`: the icon of the row at `p` is cleared. */
  function ClearIcon(ghost f: seq<Node>, g: seq<Node>, ghost done: seq<Path>, p: Path): (g': seq<Node>)
    requires ValidPath(f, p) && IconsCleared(f, g, done)
    ensures TreeIds(g') == TreeIds(g) && IconsCleared(f, g', done + [p])
  {
    var r := NodeAt(g, p).row.(icon := None);
    var g' := SetRow(g, p, r);
    TreeIdsSetRowSame(g, p, r);
    assert IconsCleared(f, g', done + [p]) by {
      forall q | ValidPath(f, q)
        ensures ValidPath(g', q) &&
          NodeAt(g', q).row == if q in done + [p] then NodeAt(f, q).row.(icon := None) else NodeAt(f, q).row
      {
        if q != p {
          SetRowElsewhere(g, p, r, q);
        }
      }
    }
    g'
  }

  // ---------------------------------------------------------------------
  // Editing cells and entry fields.

  /** The four columns whose cells can be edited in the tree view. */
  predicate TextColumn(column: nat) {
    column == COL_MENU_ELEMENT || column == COL_VALUE || column == COL_MENU_ID || column == COL_EXECUTE
  }

  /** The text a row shows in an editable column. */
  function Cell(r: Row, column: nat): Option<string>
    requires TextColumn(column)
  {
    if column == COL_MENU_ELEMENT then r.element
    else if column == COL_VALUE then r.value
    else if column == COL_MENU_ID then r.menuId
    else r.execute
  }

  /** The row with the cell of `column` set to `v`; everything else stays. */
  function WithCell(r: Row, column: nat, v: Option<string>): (r': Row)
    requires TextColumn(column)
    ensures Cell(r', column) == v
    ensures forall c :: TextColumn(c) && c != column ==> Cell(r', c) == Cell(r, c)
    ensures r'.rtype == r.rtype && r'.icon == r.icon && r'.visibility == r.visibility
  {
    if column == COL_MENU_ELEMENT then r.(element := v)
    else if column == COL_VALUE then r.(value := v)
    else if column == COL_MENU_ID then r.(menuId := v)
    else r.(execute := v)
  }

  /** How an edit ended: nothing to do, an empty label refused, a menu ID
      that already exists refused, or the change made. */
  datatype Outcome = Unchanged | EmptyLabelBlocked | DuplicateMenuId | Changed

  /** The tree and the menu-ID registry after an edit. */
  datatype Edit = Edit(outcome: Outcome, tree: seq<Node>, ids: seq<string>)

  /** `cell_edited`: the text typed into the cell of `column` of the row at
      `p` is taken over.  Nothing happens for a path that names no row or a
      text equal to the old one.  An empty label is refused unless the row is
      a separator, whose label then becomes NULL; with `multiple` rows
      selected the entry-field texts, the row type among them, are cleared,
      so an empty label is refused for a separator too.  A menu ID already
      in the registry is refused, otherwise the old ID leaves the registry
      and the new one is prepended. */
  function CellEdited(f: seq<Node>, ids: seq<string>, p: Path, column: nat, newText: string,
                      multiple: bool): (e: Edit)
    requires TextColumn(column)
    requires ValidPath(f, p) ==> Editable(NodeAt(f, p).row, column)
    requires ValidPath(f, p) && column == COL_MENU_ID ==>
      NodeAt(f, p).row.menuId.Some? && NodeAt(f, p).row.menuId.value in ids
    ensures e.outcome == Unchanged <==> !ValidPath(f, p) || Cell(NodeAt(f, p).row, column) == Some(newText)
    ensures e.outcome == EmptyLabelBlocked <==>
      e.outcome != Unchanged && column == COL_MENU_ELEMENT && newText == [] && (multiple || NodeAt(f, p).row.rtype != Separator)
    ensures e.outcome == DuplicateMenuId <==> e.outcome != Unchanged && column == COL_MENU_ID && newText in ids
    ensures e.outcome != Changed ==> e.tree == f && e.ids == ids
    ensures e.outcome == Changed ==>
      ValidPath(e.tree, p) &&
      NodeAt(e.tree, p).row == WithCell(NodeAt(f, p).row, column, if newText == [] && column == COL_MENU_ELEMENT then None else Some(newText)) &&
      (forall q :: ValidPath(f, q) && q != p ==> ValidPath(e.tree, q) && NodeAt(e.tree, q).row == NodeAt(f, q).row)
  {
    if !ValidPath(f, p) then Edit(Unchanged, f, ids)
    else
      var r := NodeAt(f, p).row;
      if Cell(r, column) == Some(newText) then Edit(Unchanged, f, ids)
      else if column == COL_MENU_ELEMENT && newText == [] && (multiple || r.rtype != Separator) then Edit(EmptyLabelBlocked, f, ids)
      else if column == COL_MENU_ID && newText in ids then Edit(DuplicateMenuId, f, ids)
      else
        var v := if newText == [] && column == COL_MENU_ELEMENT then None else Some(newText);
        var g := SetRow(f, p, WithCell(r, column, v));
        assert forall q :: ValidPath(f, q) && q != p ==> ValidPath(g, q) && NodeAt(g, q).row == NodeAt(f, q).row by {
          forall q | ValidPath(f, q) && q != p ensures ValidPath(g, q) && NodeAt(g, q).row == NodeAt(f, q).row {
            SetRowElsewhere(f, p, WithCell(r, column, v), q);
          }
        }
        if column == COL_MENU_ID then Edit(Changed, g, [newText] + RemoveMenuId(ids, r.menuId.value))
        else Edit(Changed, g, ids)
  }

  /** The text of the entry fields below the tree view: the label of a menu,
      pipe menu, item or separator or the value of an option, the menu ID,
      the execute string of a pipe menu and the icon path. */
  datatype Entries = Entries(elementOrValue: string, menuId: string, execute: string, iconPath: string)

  /** `change_row`: the entry fields are taken over into the selected row
      at `p`.  For a menu, pipe menu, item or separator (a row with a
      visibility) an empty label is refused unless the row is a separator,
      whose label becomes NULL; a new menu ID that is already in the registry
      is refused after the label has been set; a pipe menu takes the execute
      string; an emptied icon path removes the icon and a new one is set when
      its image can be loaded (`iconLoads`).  An option takes the value. */
  function ChangeRow(f: seq<Node>, ids: seq<string>, p: Path, entries: Entries, iconLoads: bool): (e: Edit)
    requires ValidPath(f, p)
    requires IsMenuOrPipe(NodeAt(f, p).row.rtype) ==> NodeAt(f, p).row.menuId.Some? && NodeAt(f, p).row.menuId.value in ids
    ensures e.outcome != Unchanged
    ensures e.outcome == EmptyLabelBlocked <==>
      NodeAt(f, p).row.visibility.Some? && NodeAt(f, p).row.rtype != Separator && entries.elementOrValue == []
    ensures e.outcome == DuplicateMenuId <==>
      e.outcome != EmptyLabelBlocked && NodeAt(f, p).row.visibility.Some? && IsMenuOrPipe(NodeAt(f, p).row.rtype) &&
      NodeAt(f, p).row.menuId != Some(entries.menuId) && entries.menuId in ids
    ensures e.outcome == EmptyLabelBlocked ==> e.tree == f && e.ids == ids
    ensures e.outcome == DuplicateMenuId ==> e.ids == ids
    ensures e.outcome != EmptyLabelBlocked ==>
      ValidPath(e.tree, p) &&
      (forall q :: ValidPath(f, q) && q != p ==> ValidPath(e.tree, q) && NodeAt(e.tree, q).row == NodeAt(f, q).row)
  {
    var r := NodeAt(f, p).row;
    if r.visibility.Some? then
      if r.rtype != Separator && entries.elementOrValue == [] then Edit(EmptyLabelBlocked, f, ids)
      else
        var labelled := r.(element := if entries.elementOrValue == [] then None else Some(entries.elementOrValue));
        var rename := r.rtype != Separator && IsMenuOrPipe(r.rtype) && r.menuId != Some(entries.menuId);
        if rename && entries.menuId in ids then
          ChangedRow(f, p, labelled, DuplicateMenuId, ids)
        else if r.rtype == Separator then
          ChangedRow(f, p, labelled, Changed, ids)
        else
          var renamed := if rename then labelled.(menuId := Some(entries.menuId)) else labelled;
          var executed := if r.rtype == PipeMenu then renamed.(execute := Some(entries.execute)) else renamed;
          var iconSet :=
            if entries.iconPath == [] && r.icon.Some? then executed.(icon := None)
            else if entries.iconPath != [] && r.icon != Some(entries.iconPath) && iconLoads then executed.(icon := Some(entries.iconPath))
            else executed;
          ChangedRow(f, p, iconSet, Changed, if rename then [entries.menuId] + RemoveMenuId(ids, r.menuId.value) else ids)
    else
      ChangedRow(f, p, r.(value := Some(entries.elementOrValue)), Changed, ids)
  }

  /** The tree with the row at `p` replaced, and how the edit ended. */
  function ChangedRow(f: seq<Node>, p: Path, r: Row, outcome: Outcome, ids: seq<string>): (e: Edit)
    requires ValidPath(f, p)
    ensures e.outcome == outcome && e.ids == ids && ValidPath(e.tree, p) && NodeAt(e.tree, p).row == r
    ensures forall q :: ValidPath(f, q) && q != p ==> ValidPath(e.tree, q) && NodeAt(e.tree, q).row == NodeAt(f, q).row
  {
    var g := SetRow(f, p, r);
    assert forall q :: ValidPath(f, q) && q != p ==> ValidPath(g, q) && NodeAt(g, q).row == NodeAt(f, q).row by {
      forall q | ValidPath(f, q) && q != p ensures ValidPath(g, q) && NodeAt(g, q).row == NodeAt(f, q).row {
        SetRowElsewhere(f, p, r, q);
      }
    }
    Edit(outcome, g, ids)
  }

  /** A cell edit keeps the registry equal to the IDs of the tree. */
  lemma CellEditedKeepsRegistry(f: seq<Node>, ids: seq<string>, p: Path, column: nat, newText: string,
                                multiple: bool)
    requires TextColumn(column)
    requires ValidPath(f, p) ==> Editable(NodeAt(f, p).row, column)
    requires ValidPath(f, p) && column == COL_MENU_ID ==>
      NodeAt(f, p).row.menuId.Some? && NodeAt(f, p).row.menuId.value in ids
    requires multiset(ids) == TreeIds(f)
    ensures var e := CellEdited(f, ids, p, column, newText, multiple); multiset(e.ids) == TreeIds(e.tree)
  {
    if CellEdited(f, ids, p, column, newText, multiple).outcome != Changed {
      return;
    }
    var r' := CellEditedChanged(f, ids, p, column, newText, multiple);
    if column == COL_MENU_ID {
      RenameKeepsRegistry(f, ids, p, r');
    } else {
      TreeIdsSetRowSame(f, p, r');
    }
  }

  /** A cell edit that went through wrote the row `r'` at `p`, and renamed
      the ID in the registry when the menu ID column was edited. */
  lemma CellEditedChanged(f: seq<Node>, ids: seq<string>, p: Path, column: nat, newText: string,
                          multiple: bool) returns (r': Row)
    requires TextColumn(column)
    requires ValidPath(f, p) ==> Editable(NodeAt(f, p).row, column)
    requires ValidPath(f, p) && column == COL_MENU_ID ==>
      NodeAt(f, p).row.menuId.Some? && NodeAt(f, p).row.menuId.value in ids
    requires CellEdited(f, ids, p, column, newText, multiple).outcome == Changed
    ensures ValidPath(f, p) && r' == WithCell(NodeAt(f, p).row, column, if newText == [] && column == COL_MENU_ELEMENT then None else Some(newText))
    ensures r'.rtype == NodeAt(f, p).row.rtype
    ensures column == COL_MENU_ID ==> r'.menuId == Some(newText)
    ensures column != COL_MENU_ID ==> RowIds(r') == RowIds(NodeAt(f, p).row)
    ensures var e := CellEdited(f, ids, p, column, newText, multiple);
      e.tree == SetRow(f, p, r') &&
      e.ids == if column == COL_MENU_ID then [newText] + RemoveMenuId(ids, NodeAt(f, p).row.menuId.value) else ids
  {
    var r := NodeAt(f, p).row;
    r' := WithCell(r, column, if newText == [] && column == COL_MENU_ELEMENT then None else Some(newText));
    assert column != COL_MENU_ID ==> r'.menuId == Cell(r', COL_MENU_ID) == Cell(r, COL_MENU_ID) == r.menuId;
  }

  /** A cell edit never puts an ID into the registry twice. */
  lemma CellEditedKeepsDistinct(f: seq<Node>, ids: seq<string>, p: Path, column: nat, newText: string,
                                multiple: bool)
    requires TextColumn(column)
    requires ValidPath(f, p) ==> Editable(NodeAt(f, p).row, column)
    requires ValidPath(f, p) && column == COL_MENU_ID ==>
      NodeAt(f, p).row.menuId.Some? && NodeAt(f, p).row.menuId.value in ids
    requires Distinct(ids)
    ensures Distinct(CellEdited(f, ids, p, column, newText, multiple).ids)
  {
    var e := CellEdited(f, ids, p, column, newText, multiple);
    if e.outcome == Changed && column == COL_MENU_ID {
      RenameKeepsDistinct(ids, NodeAt(f, p).row.menuId.value, newText);
    }
  }

  /** Taking over the entry fields keeps the registry equal to the IDs of the
      tree, also when a duplicate ID is refused after the label was set. */
  lemma ChangeRowKeepsRegistry(f: seq<Node>, ids: seq<string>, p: Path, entries: Entries, iconLoads: bool)
    requires ValidPath(f, p)
    requires IsMenuOrPipe(NodeAt(f, p).row.rtype) ==> NodeAt(f, p).row.menuId.Some? && NodeAt(f, p).row.menuId.value in ids
    requires multiset(ids) == TreeIds(f)
    ensures var e := ChangeRow(f, ids, p, entries, iconLoads); multiset(e.ids) == TreeIds(e.tree)
  {
    var r := NodeAt(f, p).row;
    if r.visibility.Some? {
      if r.rtype == Separator || entries.elementOrValue != [] {
        var labelled := r.(element := if entries.elementOrValue == [] then None else Some(entries.elementOrValue));
        var rename := r.rtype != Separator && IsMenuOrPipe(r.rtype) && r.menuId != Some(entries.menuId);
        if (rename && entries.menuId in ids) || r.rtype == Separator {
          TreeIdsSetRowSame(f, p, labelled);
        } else {
          var renamed := if rename then labelled.(menuId := Some(entries.menuId)) else labelled;
          var executed := if r.rtype == PipeMenu then renamed.(execute := Some(entries.execute)) else renamed;
          var iconSet :=
            if entries.iconPath == [] && r.icon.Some? then executed.(icon := None)
            else if entries.iconPath != [] && r.icon != Some(entries.iconPath) && iconLoads then executed.(icon := Some(entries.iconPath))
            else executed;
          if rename {
            RenameKeepsRegistry(f, ids, p, iconSet);
          } else {
            TreeIdsSetRowSame(f, p, iconSet);
          }
        }
      }
    } else {
      TreeIdsSetRowSame(f, p, r.(value := Some(entries.elementOrValue)));
    }
  }

  /** Taking over the entry fields never puts an ID into the registry twice. */
  lemma ChangeRowKeepsDistinct(f: seq<Node>, ids: seq<string>, p: Path, entries: Entries, iconLoads: bool)
    requires ValidPath(f, p)
    requires IsMenuOrPipe(NodeAt(f, p).row.rtype) ==> NodeAt(f, p).row.menuId.Some? && NodeAt(f, p).row.menuId.value in ids
    requires Distinct(ids)
    ensures Distinct(ChangeRow(f, ids, p, entries, iconLoads).ids)
  {
    var e := ChangeRow(f, ids, p, entries, iconLoads);
    if e.ids != ids {
      RenameKeepsDistinct(ids, NodeAt(f, p).row.menuId.value, entries.menuId);
    }
  }

  /** The row a successful entry-field edit leaves behind: a menu, pipe menu
      or item keeps a non-empty label and its type; a menu or pipe menu has
      the entered ID; an option has the entered value. */
  lemma ChangeRowResult(f: seq<Node>, ids: seq<string>, p: Path, entries: Entries, iconLoads: bool)
    requires ValidPath(f, p)
    requires IsMenuOrPipe(NodeAt(f, p).row.rtype) ==> NodeAt(f, p).row.menuId.Some? && NodeAt(f, p).row.menuId.value in ids
    ensures var e := ChangeRow(f, ids, p, entries, iconLoads);
      var r, r' := NodeAt(f, p).row, NodeAt(e.tree, p).row;
      e.outcome == Changed ==>
        r'.rtype == r.rtype && r'.visibility == r.visibility &&
        (r.visibility.Some? && r.rtype != Separator ==> r'.element == Some(entries.elementOrValue) && entries.elementOrValue != []) &&
        (r.visibility.Some? && IsMenuOrPipe(r.rtype) ==> r'.menuId == Some(entries.menuId) && entries.menuId in e.ids) &&
        (r.visibility.None? ==> r' == r.(value := Some(entries.elementOrValue)))
  {
  }

  // ---------------------------------------------------------------------
  // Toggling a yes/no option.

  /** `boolean_toogled`: the value of the row at `p` becomes "no" when it was
      "yes" and "yes" otherwise. */
  function BooleanToggled(f: seq<Node>, p: Path): (g: seq<Node>)
    requires ValidPath(f, p)
    ensures ValidPath(g, p) && NodeAt(g, p).children == NodeAt(f, p).children
    ensures ToggleActive(NodeAt(g, p).row) <==> !ToggleActive(NodeAt(f, p).row)
    ensures NodeAt(g, p).row.value.Some? && NodeAt(g, p).row.value.value in ["yes", "no"]
    ensures NodeAt(g, p).row.(value := NodeAt(f, p).row.value) == NodeAt(f, p).row
  {
    var r := NodeAt(f, p).row;
    SetRow(f, p, r.(value := Some(if ToggleActive(r) then "no" else "yes")))
  }

  /** Toggling a "yes" or "no" twice gives back the tree. */
  lemma BooleanToggledTwice(f: seq<Node>, p: Path)
    requires ValidPath(f, p) && NodeAt(f, p).row.value.Some? && NodeAt(f, p).row.value.value in ["yes", "no"]
    ensures BooleanToggled(BooleanToggled(f, p), p) == f
  {
    var r := NodeAt(f, p).row;
    var once := r.(value := Some(if ToggleActive(r) then "no" else "yes"));
    var twice := once.(value := Some(if ToggleActive(once) then "no" else "yes"));
    assert twice == r;
    SetRowTwice(f, p, once, twice);
    SetRowSelf(f, p);
  }
}
