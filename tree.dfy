/*
 * The tree store as a forest of rows, addressed by GtkTreePath-like paths
 * (the sequence of sibling indices from the toplevel down), its pre-order
 * walk as a list of depth-tagged rows, and the way both the loader and
 * drag and drop rebuild a tree from such a list: each row is appended under
 * the last row one level up.
 */
module Tree {
  import opened Rows

  type Path = seq<nat>

  predicate ValidPath(f: seq<Node>, p: Path)
    decreases |p|
  {
    |p| > 0 && p[0] < |f| && (|p| == 1 || ValidPath(f[p[0]].children, p[1..]))
  }

  function NodeAt(f: seq<Node>, p: Path): Node
    requires ValidPath(f, p)
    decreases |p|
  {
    if |p| == 1 then f[p[0]] else NodeAt(f[p[0]].children, p[1..])
  }

  /** The empty path stands for the invisible root above the toplevel rows. */
  predicate ValidParent(f: seq<Node>, q: Path) {
    q == [] || ValidPath(f, q)
  }

  /** The children of the row at `q`; the toplevel rows for `q == []`. */
  function Kids(f: seq<Node>, q: Path): seq<Node>
    requires ValidParent(f, q)
  {
    if q == [] then f else NodeAt(f, q).children
  }

  /** The forest with the children of the row at `q` replaced by `cs`. */
  function SetKids(f: seq<Node>, q: Path, cs: seq<Node>): (r: seq<Node>)
    requires ValidParent(f, q)
    ensures ValidParent(r, q) && Kids(r, q) == cs
    ensures q != [] ==> |r| == |f| && NodeAt(r, q).row == NodeAt(f, q).row
    decreases |q|
  {
    if q == [] then cs
    else if |q| == 1 then f[q[0] := Node(f[q[0]].row, cs)]
    else f[q[0] := Node(f[q[0]].row, SetKids(f[q[0]].children, q[1..], cs))]
  }

  /** The forest with the row at `p` replaced by `r` (its children stay). */
  function SetRow(f: seq<Node>, p: Path, r: Row): (f': seq<Node>)
    requires ValidPath(f, p)
    ensures |f'| == |f| && ValidPath(f', p)
    ensures NodeAt(f', p) == Node(r, NodeAt(f, p).children)
    decreases |p|
  {
    if |p| == 1 then f[p[0] := Node(r, f[p[0]].children)]
    else f[p[0] := Node(f[p[0]].row, SetRow(f[p[0]].children, p[1..], r))]
  }

  /** The path of the parent row (`gtk_tree_path_up`); `[]` for a toplevel row. */
  function Parent(p: Path): Path
    requires p != []
  {
    p[..|p| - 1]
  }

  /** The row at `p` is the child, at the last index of `p`, of the row at
      its parent path. */
  lemma {:induction false} KidsAt(f: seq<Node>, p: Path)
    requires ValidPath(f, p)
    ensures ValidParent(f, Parent(p)) && p[|p| - 1] < |Kids(f, Parent(p))|
    ensures Kids(f, Parent(p))[p[|p| - 1]] == NodeAt(f, p)
    decreases |p|
  {
    if |p| > 1 {
      KidsAt(f[p[0]].children, p[1..]);
      assert Parent(p)[0] == p[0] && Parent(p)[1..] == Parent(p[1..]);
    }
  }

  /** Every prefix of a valid path is valid. */
  /** A child of a valid parent has a valid path. */
  lemma {:induction false} ValidChild(f: seq<Node>, q: Path, i: nat)
    requires ValidParent(f, q) && i < |Kids(f, q)|
    ensures ValidPath(f, q + [i]) && NodeAt(f, q + [i]) == Kids(f, q)[i]
    decreases |q|
  {
    if q != [] {
      assert (q + [i])[1..] == q[1..] + [i];
      if |q| > 1 {
        ValidChild(f[q[0]].children, q[1..], i);
      }
    }
  }

  lemma {:induction false} PrefixValid(f: seq<Node>, p: Path, k: nat)
    requires ValidPath(f, p) && 1 <= k <= |p|
    ensures ValidPath(f, p[..k])
    decreases k
  {
    if k > 1 {
      assert p[..k][1..] == p[1..][..k - 1];
      PrefixValid(f[p[0]].children, p[1..], k - 1);
    }
  }

  /** `a` is a proper prefix of `b`: the row at `a` is an ancestor of the row at `b`. */
  predicate IsAncestor(a: Path, b: Path) {
    |a| < |b| && b[..|a|] == a
  }

  /** Two prefixes of the same path are the same, or one is an ancestor of
      the other. */
  lemma PrefixesComparable(x: Path, a: Path, b: Path)
    requires |a| <= |x| && x[..|a|] == a && |b| <= |x| && x[..|b|] == b
    ensures IsAncestor(a, b) || a == b || IsAncestor(b, a)
  {
    if |a| < |b| {
      assert b[..|a|] == x[..|a|];
    } else if |b| < |a| {
      assert a[..|b|] == x[..|b|];
    }
  }

  /** Ancestry and equality do not depend on a common first index. */
  lemma ConsPaths(t: nat, a: Path, b: Path)
    ensures IsAncestor([t] + a, [t] + b) <==> IsAncestor(a, b)
    ensures [t] + a == [t] + b <==> a == b
  {
    if [t] + a == [t] + b {
      assert a == ([t] + a)[1..];
    }
    if |a| < |b| {
      assert ([t] + b)[..|[t] + a|] == [t] + b[..|a|];
      if ([t] + b)[..|[t] + a|] == [t] + a {
        assert b[..|a|] == ([t] + b)[..|[t] + a|][1..];
      }
    }
  }

  /** GtkTreePath comparison: lexicographic, a prefix before its extensions. */
  predicate PathBefore(a: Path, b: Path)
    decreases |a|
  {
    if a == [] then b != []
    else if b == [] then false
    else a[0] < b[0] || (a[0] == b[0] && PathBefore(a[1..], b[1..]))
  }

  // ---------------------------------------------------------------------
  // Pre-order walk and rebuilding from depth-tagged rows.

  /** A row and its depth (toplevel rows have depth 1). */
  datatype Entry = Entry(depth: nat, row: Row)

  /** The pre-order walk of `f`, whose rows sit at depth `d`. */
  function Flatten(f: seq<Node>, d: nat): seq<Entry>
    decreases f
  {
    if f == [] then []
    else [Entry(d, f[0].row)] + Flatten(f[0].children, d + 1) + Flatten(f[1..], d)
  }

  /** The paths of the pre-order walk of `f`, each prefixed with `base`. */
  function Paths(f: seq<Node>, base: Path): seq<Path>
    decreases f
  {
    if f == [] then [] else PathsFrom(f, base, 0)
  }

  function PathsFrom(f: seq<Node>, base: Path, i: nat): seq<Path>
    decreases f, |f| - i
  {
    if i >= |f| then []
    else [base + [i]] + Paths(f[i].children, base + [i]) + PathsFrom(f, base, i + 1)
  }

  /** `p` is the path, below `base`, of a row of `f`. */
  predicate Below(f: seq<Node>, base: Path, p: Path) {
    |p| > |base| && p[..|base|] == base && ValidPath(f, p[|base|..])
  }

  /** Every path of the walk addresses a row. */
  lemma {:induction false} PathsBelow(f: seq<Node>, base: Path, p: Path)
    requires p in Paths(f, base)
    ensures Below(f, base, p)
    decreases f, |f| + 1
  {
    PathsFromBelow(f, base, 0, p);
  }

  lemma {:induction false} PathsFromBelow(f: seq<Node>, base: Path, i: nat, p: Path)
    requires p in PathsFrom(f, base, i)
    ensures Below(f, base, p) && p[|base|] >= i
    decreases f, |f| - i
  {
    var x := base + [i];
    if p == x {
      assert p[|base|..] == [i];
    } else if p in Paths(f[i].children, x) {
      PathsBelow(f[i].children, x, p);
      assert p[..|base|] == p[..|x|][..|base|];
      assert p[|base|..][1..] == p[|x|..];
    } else {
      PathsFromBelow(f, base, i + 1, p);
    }
  }

  /** Every row is visited by the walk. */
  lemma {:induction false} BelowInPaths(f: seq<Node>, base: Path, p: Path)
    requires Below(f, base, p)
    ensures p in Paths(f, base)
    decreases |p| - |base|
  {
    var i := p[|base|];
    var x := base + [i];
    assert p[|base|..][0] == i;
    assert p[..|x|] == x;
    if |p| == |x| {
      assert p == x;
      assert p in PathsFrom(f, base, i);
    } else {
      assert p[|base|..][1..] == p[|x|..];
      BelowInPaths(f[i].children, x, p);
      assert p in PathsFrom(f, base, i);
    }
    PathsFromGrow(f, base, 0, i, p);
  }

  lemma {:induction false} PathsFromGrow(f: seq<Node>, base: Path, j: nat, i: nat, p: Path)
    requires j <= i && p in PathsFrom(f, base, i)
    ensures p in PathsFrom(f, base, j)
    decreases i - j
  {
    if j < i {
      PathsFromGrow(f, base, j + 1, i, p);
    }
  }

  /** The walk visits exactly the rows of the forest. */
  lemma PathsExactly(f: seq<Node>, p: Path)
    ensures p in Paths(f, []) <==> ValidPath(f, p)
  {
    assert p[..0] == [] && p[0..] == p;
    if p in Paths(f, []) {
      PathsBelow(f, [], p);
    }
    if ValidPath(f, p) {
      BelowInPaths(f, [], p);
    }
  }

  // ---------------------------------------------------------------------
  // The order of paths.

  predicate Increasing(ps: seq<Path>) {
    forall a, b :: 0 <= a < b < |ps| ==> PathBefore(ps[a], ps[b])
  }

  /** An ancestor comes before its descendants. */
  lemma {:induction false} AncestorBefore(a: Path, b: Path)
    requires IsAncestor(a, b)
    ensures PathBefore(a, b)
    decreases |a|
  {
    if a != [] {
      assert b[1..][..|a| - 1] == a[1..];
      AncestorBefore(a[1..], b[1..]);
    }
  }

  /** Paths that agree up to position `m` are ordered by their index there. */
  lemma {:induction false} DivergeBefore(a: Path, b: Path, m: nat)
    requires m < |a| && m < |b| && a[..m] == b[..m] && a[m] < b[m]
    ensures PathBefore(a, b)
    decreases m
  {
    if m > 0 {
      assert a[0] == a[..m][0] && b[0] == b[..m][0];
      assert a[1..][..m - 1] == b[1..][..m - 1];
      DivergeBefore(a[1..], b[1..], m - 1);
    }
  }

  lemma {:induction false} PathBeforeIrreflexive(a: Path)
    ensures !PathBefore(a, a)
    decreases |a|
  {
    if a != [] {
      PathBeforeIrreflexive(a[1..]);
    }
  }

  lemma {:induction false} PathBeforeTransitive(a: Path, b: Path, c: Path)
    requires PathBefore(a, b) && PathBefore(b, c)
    ensures PathBefore(a, c)
    decreases |a|
  {
    if a != [] && a[0] == b[0] && b[0] == c[0] {
      PathBeforeTransitive(a[1..], b[1..], c[1..]);
    }
  }

  lemma IncreasingConcat(s: seq<Path>, t: seq<Path>)
    requires Increasing(s) && Increasing(t)
    requires forall p, q | p in s && q in t :: PathBefore(p, q)
    ensures Increasing(s + t)
  {
    forall a, b | 0 <= a < b < |s + t| ensures PathBefore((s + t)[a], (s + t)[b]) {
      if b < |s| {
        assert (s + t)[a] == s[a] && (s + t)[b] == s[b];
      } else if a < |s| {
        assert (s + t)[a] == s[a] && (s + t)[b] == t[b - |s|];
      } else {
        assert (s + t)[a] == t[a - |s|] && (s + t)[b] == t[b - |s|];
      }
    }
  }

  /** The walk visits the rows in increasing path order (pre-order). */
  lemma {:induction false} PathsIncreasing(f: seq<Node>, base: Path)
    ensures Increasing(Paths(f, base))
    decreases f, |f| + 1
  {
    if f != [] {
      PathsFromIncreasing(f, base, 0);
    }
  }

  lemma {:induction false} PathsFromIncreasing(f: seq<Node>, base: Path, i: nat)
    ensures Increasing(PathsFrom(f, base, i))
    decreases f, |f| - i
  {
    if i < |f| {
      var x := base + [i];
      var inner := Paths(f[i].children, x);
      var rest := PathsFrom(f, base, i + 1);
      PathsIncreasing(f[i].children, x);
      PathsFromIncreasing(f, base, i + 1);
      forall q | q in inner ensures PathBefore(x, q) {
        PathsBelow(f[i].children, x, q);
        AncestorBefore(x, q);
      }
      IncreasingConcat([x], inner);
      forall p, q | p in [x] + inner && q in rest ensures PathBefore(p, q) {
        PathsFromBelow(f, base, i + 1, q);
        if p != x {
          PathsBelow(f[i].children, x, p);
          assert p[..|base|] == p[..|x|][..|base|];
        }
        assert p[|base|] == x[|base|];
        DivergeBefore(p, q, |base|);
      }
      IncreasingConcat([x] + inner, rest);
    }
  }

  /** The row at `d` is appended under the last row at depth `d - 1`
      (`gtk_tree_store_insert` under `levels[d - 2]` at position -1). */
  function AppendAtDepth(f: seq<Node>, d: nat, r: Row): (f': seq<Node>)
    ensures |f'| == if d <= 1 || f == [] then |f| + 1 else |f|
    decreases d
  {
    if d <= 1 || f == [] then f + [Node(r, [])]
    else f[..|f| - 1] + [Node(f[|f| - 1].row, AppendAtDepth(f[|f| - 1].children, d - 1, r))]
  }

  /** Appending the rows of `es` one after the other. */
  function Fold(acc: seq<Node>, es: seq<Entry>): seq<Node>
    decreases |es|
  {
    if es == [] then acc else Fold(AppendAtDepth(acc, es[0].depth, es[0].row), es[1..])
  }

  lemma {:induction false} FoldConcat(acc: seq<Node>, a: seq<Entry>, b: seq<Entry>)
    ensures Fold(acc, a + b) == Fold(Fold(acc, a), b)
    decreases |a|
  {
    if a == [] {
      assert a + b == b;
    } else {
      assert (a + b)[0] == a[0] && (a + b)[1..] == a[1..] + b;
      FoldConcat(AppendAtDepth(acc, a[0].depth, a[0].row), a[1..], b);
    }
  }

  /** Folding one more entry of `es` appends its row. */
  lemma FoldSnoc(acc: seq<Node>, es: seq<Entry>, k: nat)
    requires k < |es|
    ensures Fold(acc, es[..k + 1]) == AppendAtDepth(Fold(acc, es[..k]), es[k].depth, es[k].row)
  {
    assert es[..k + 1] == es[..k] + [es[k]];
    FoldConcat(acc, es[..k], [es[k]]);
    var e := es[k];
    assert [e][1..] == [];
  }

  /** Rows one level deeper than the last row of `acc + [Node(r, cs)]` all
      end up among that row's descendants. */
  lemma {:induction false} FoldUnderLast(acc: seq<Node>, r: Row, cs: seq<Node>, f: seq<Node>, d: nat)
    requires d >= 1
    ensures Fold(acc + [Node(r, cs)], Flatten(f, d + 1)) == acc + [Node(r, Fold(cs, Flatten(f, d)))]
    decreases f
  {
    if f != [] {
      var head := f[0];
      var last := acc + [Node(r, cs)];
      var cs' := AppendAtDepth(cs, d, head.row);
      assert AppendAtDepth(last, d + 1, head.row) == acc + [Node(r, cs')] by {
        assert last[..|last| - 1] == acc;
      }
      FoldConcat(last, [Entry(d + 1, head.row)] + Flatten(head.children, d + 2), Flatten(f[1..], d + 1));
      FoldConcat(last, [Entry(d + 1, head.row)], Flatten(head.children, d + 2));
      FoldUnderLast(acc, r, cs', head.children, d + 1);
      FoldUnderLast(acc, r, Fold(cs', Flatten(head.children, d + 1)), f[1..], d);
      FoldConcat(cs, [Entry(d, head.row)] + Flatten(head.children, d + 1), Flatten(f[1..], d));
      FoldConcat(cs, [Entry(d, head.row)], Flatten(head.children, d + 1));
    }
  }

  /** Rebuilding the pre-order walk gives back the forest: the copy made by
      the loader and by drag and drop preserves the shape. */
  lemma {:induction false} FoldFlatten(acc: seq<Node>, f: seq<Node>)
    ensures Fold(acc, Flatten(f, 1)) == acc + f
    decreases f
  {
    if f != [] {
      var head := f[0];
      var first := [Entry(1, head.row)];
      assert Flatten(f, 1) == (first + Flatten(head.children, 2)) + Flatten(f[1..], 1);
      FoldConcat(acc, first + Flatten(head.children, 2), Flatten(f[1..], 1));
      FoldConcat(acc, first, Flatten(head.children, 2));
      assert Fold(acc, first) == acc + [Node(head.row, [])] by {
        assert first[1..] == [];
      }
      FoldUnderLast(acc, head.row, [], head.children, 1);
      FoldFlatten([], head.children);
      assert [] + head.children == head.children;
      FoldFlatten(acc + [head], f[1..]);
      assert acc + [head] + f[1..] == acc + f;
    }
  }

  /** A single row with its pre-order descendants one level deeper is rebuilt
      into that row with its children. */
  lemma SubtreeRoundTrip(n: Node)
    ensures Fold([Node(n.row, [])], Flatten(n.children, 2)) == [n]
  {
    FoldUnderLast([], n.row, [], n.children, 1);
    FoldFlatten([], n.children);
    assert [] + [Node(n.row, [])] == [Node(n.row, [])];
    assert [] + n.children == n.children;
  }

  // ---------------------------------------------------------------------
  // The menu IDs carried by a forest.

  function RowIds(r: Row): multiset<string> {
    if IsMenuOrPipe(r.rtype) && r.menuId.Some? then multiset{r.menuId.value} else multiset{}
  }

  /** The IDs of all menus and pipe menus of the forest, with multiplicity. */
  function TreeIds(f: seq<Node>): multiset<string>
    decreases f
  {
    if f == [] then multiset{} else RowIds(f[0].row) + TreeIds(f[0].children) + TreeIds(f[1..])
  }

  lemma {:induction false} TreeIdsConcat(a: seq<Node>, b: seq<Node>)
    ensures TreeIds(a + b) == TreeIds(a) + TreeIds(b)
    decreases |a|
  {
    if a == [] {
      assert a + b == b;
    } else {
      assert (a + b)[0] == a[0] && (a + b)[1..] == a[1..] + b;
      TreeIdsConcat(a[1..], b);
    }
  }

  lemma {:induction false} TreeIdsSplit(f: seq<Node>, i: nat)
    requires i < |f|
    ensures TreeIds(f) == TreeIds(f[..i]) + RowIds(f[i].row) + TreeIds(f[i].children) + TreeIds(f[i + 1..])
  {
    var tail := f[i..];
    assert TreeIds(tail) == RowIds(f[i].row) + TreeIds(f[i].children) + TreeIds(f[i + 1..]) by {
      assert tail != [] && tail[0] == f[i] && tail[1..] == f[i + 1..];
    }
    assert TreeIds(f) == TreeIds(f[..i]) + TreeIds(tail) by {
      assert f == f[..i] + tail;
      TreeIdsConcat(f[..i], tail);
    }
    UnionRegroup(TreeIds(f), TreeIds(f[..i]), TreeIds(tail), RowIds(f[i].row), TreeIds(f[i].children), TreeIds(f[i + 1..]));
  }

  /** Multiset union regrouped: `t == p + (x + y + z)`. */
  lemma UnionRegroup<T>(t: multiset<T>, p: multiset<T>, q: multiset<T>, x: multiset<T>, y: multiset<T>, z: multiset<T>)
    requires t == p + q && q == x + y + z
    ensures t == p + x + y + z
  {
  }

  /** One part of a multiset union replaced by its own parts. */
  lemma UnionReplace<T>(t: multiset<T>, t': multiset<T>, b: multiset<T>, x: multiset<T>, c: multiset<T>, c': multiset<T>,
                        a: multiset<T>, y: multiset<T>, z: multiset<T>)
    requires t == b + x + c + a && t' == b + x + c' + a && c == c' + y + z
    ensures t == t' + y + z
  {
  }

  /** Replacing the children of one row changes the IDs by exactly the IDs of
      the old and the new children. */
  lemma {:induction false} TreeIdsSetKids(f: seq<Node>, q: Path, cs: seq<Node>)
    requires ValidParent(f, q)
    ensures TreeIds(SetKids(f, q, cs)) + TreeIds(Kids(f, q)) == TreeIds(f) + TreeIds(cs)
    decreases |q|
  {
    if q != [] {
      var i := q[0];
      var f' := SetKids(f, q, cs);
      var before, after := TreeIds(f[..i]), TreeIds(f[i + 1..]);
      var old', new' := f[i].children, f'[i].children;
      assert TreeIds(f) == before + RowIds(f[i].row) + TreeIds(old') + after by {
        TreeIdsSplit(f, i);
      }
      assert TreeIds(f') == before + RowIds(f[i].row) + TreeIds(new') + after by {
        TreeIdsSplit(f', i);
        assert f'[..i] == f[..i] && f'[i + 1..] == f[i + 1..];
      }
      assert TreeIds(new') + TreeIds(Kids(f, q)) == TreeIds(old') + TreeIds(cs) by {
        if |q| > 1 {
          TreeIdsSetKids(old', q[1..], cs);
        }
      }
      ExchangeMiddle(before, RowIds(f[i].row), TreeIds(old'), TreeIds(new'), after, TreeIds(Kids(f, q)), TreeIds(cs));
    }
  }

  /** Replacing a row keeps the IDs of every other row. */
  lemma {:induction false} TreeIdsSetRow(f: seq<Node>, p: Path, r: Row)
    requires ValidPath(f, p)
    ensures TreeIds(SetRow(f, p, r)) + RowIds(NodeAt(f, p).row) == TreeIds(f) + RowIds(r)
    decreases |p|
  {
    var i := p[0];
    var f' := SetRow(f, p, r);
    var before, after := TreeIds(f[..i]), TreeIds(f[i + 1..]);
    assert TreeIds(f) == before + RowIds(f[i].row) + TreeIds(f[i].children) + after by {
      TreeIdsSplit(f, i);
    }
    assert TreeIds(f') == before + RowIds(f'[i].row) + TreeIds(f'[i].children) + after by {
      TreeIdsSplit(f', i);
      assert f'[..i] == f[..i] && f'[i + 1..] == f[i + 1..];
    }
    if |p| > 1 {
      assert RowIds(f'[i].row) == RowIds(f[i].row);
      TreeIdsSetRow(f[i].children, p[1..], r);
      ExchangeMiddle(before, RowIds(f[i].row), TreeIds(f[i].children), TreeIds(f'[i].children), after,
                     RowIds(NodeAt(f, p).row), RowIds(r));
    } else {
      assert f'[i].children == f[i].children;
      ExchangeSecond(before, RowIds(f[i].row), RowIds(r), TreeIds(f[i].children), after, RowIds(f[i].row), RowIds(r));
    }
  }

  /** Replacing a row by one with the same IDs keeps the forest's IDs. */
  lemma TreeIdsSetRowSame(f: seq<Node>, p: Path, r: Row)
    requires ValidPath(f, p) && RowIds(r) == RowIds(NodeAt(f, p).row)
    ensures TreeIds(SetRow(f, p, r)) == TreeIds(f)
  {
    TreeIdsSetRow(f, p, r);
    Cancel(TreeIds(SetRow(f, p, r)), TreeIds(f), RowIds(r));
  }

  /** Writing a row back unchanged leaves the forest as it was. */
  lemma {:induction false} SetRowSelf(f: seq<Node>, p: Path)
    requires ValidPath(f, p)
    ensures SetRow(f, p, NodeAt(f, p).row) == f
    decreases |p|
  {
    if |p| > 1 {
      SetRowSelf(f[p[0]].children, p[1..]);
    }
  }

  /** Of two writes to the same row, only the second one counts. */
  lemma {:induction false} SetRowTwice(f: seq<Node>, p: Path, r1: Row, r2: Row)
    requires ValidPath(f, p)
    ensures SetRow(SetRow(f, p, r1), p, r2) == SetRow(f, p, r2)
    decreases |p|
  {
    if |p| > 1 {
      SetRowTwice(f[p[0]].children, p[1..], r1, r2);
    }
  }

  /** Replacing the row at `p` leaves every other row where it was. */
  lemma {:induction false} SetRowElsewhere(f: seq<Node>, p: Path, r: Row, q: Path)
    requires ValidPath(f, p) && ValidPath(f, q) && q != p
    ensures ValidPath(SetRow(f, p, r), q) && NodeAt(SetRow(f, p, r), q).row == NodeAt(f, q).row
    decreases |p|
  {
    var f' := SetRow(f, p, r);
    if q[0] == p[0] && |q| > 1 && |p| > 1 {
      assert q[1..] != p[1..] by {
        assert q == [q[0]] + q[1..] && p == [p[0]] + p[1..];
      }
      SetRowElsewhere(f[p[0]].children, p[1..], r, q[1..]);
    }
  }

  /** Reordering siblings keeps the IDs. */
  lemma {:induction false} TreeIdsPermutation(a: seq<Node>, b: seq<Node>)
    requires multiset(a) == multiset(b)
    ensures TreeIds(a) == TreeIds(b)
    decreases |a|
  {
    if a != [] {
      assert a[0] in multiset(b);
      var j :| 0 <= j < |b| && b[j] == a[0];
      var b' := RemoveAt(b, j);
      RestPermutation(a, b, j);
      TreeIdsPermutation(a[1..], b');
      TreeIdsRemoveAt(b, j);
      var x, y, z := RowIds(a[0].row), TreeIds(a[0].children), TreeIds(a[1..]);
      assert TreeIds(a) == x + y + z;
      assert TreeIds(b) == z + x + y;
      forall e ensures (x + y + z)[e] == (z + x + y)[e] {
      }
    } else {
      assert |b| == |multiset(b)| == 0;
    }
  }

  lemma RestPermutation<T>(a: seq<T>, b: seq<T>, j: nat)
    requires a != [] && multiset(a) == multiset(b) && j < |b| && b[j] == a[0]
    ensures multiset(a[1..]) == multiset(RemoveAt(b, j))
  {
    assert a == [a[0]] + a[1..];
    assert b == b[..j] + [b[j]] + b[j + 1..];
    var rest := RemoveAt(b, j);
    assert multiset(rest) == multiset(b[..j]) + multiset(b[j + 1..]);
    forall e ensures multiset(a[1..])[e] == multiset(rest)[e] {
      assert multiset(a)[e] == multiset(b)[e];
    }
  }

  /** The sequence without its element at `i`. */
  function RemoveAt<T>(s: seq<T>, i: nat): (r: seq<T>)
    requires i < |s|
    ensures |r| == |s| - 1
    ensures forall k :: 0 <= k < |r| ==> r[k] == if k < i then s[k] else s[k + 1]
  {
    s[..i] + s[i + 1..]
  }

  /** Removing one sibling removes exactly its own IDs and its descendants'. */
  lemma TreeIdsRemoveAt(f: seq<Node>, i: nat)
    requires i < |f|
    ensures TreeIds(f) == TreeIds(RemoveAt(f, i)) + RowIds(f[i].row) + TreeIds(f[i].children)
  {
    TreeIdsSplit(f, i);
    TreeIdsConcat(f[..i], f[i + 1..]);
  }

  /** Two forests of the same shape whose corresponding rows have the same
      types and menu IDs: only labels, values and visibilities may differ. */
  ghost predicate SameLayout(a: seq<Node>, b: seq<Node>)
    decreases a
  {
    |a| == |b| &&
    forall k :: 0 <= k < |a| ==>
      a[k].row.rtype == b[k].row.rtype && a[k].row.menuId == b[k].row.menuId &&
      SameLayout(a[k].children, b[k].children)
  }

  lemma {:induction false} SameLayoutIds(a: seq<Node>, b: seq<Node>)
    requires SameLayout(a, b)
    ensures TreeIds(a) == TreeIds(b)
    decreases a
  {
    if a != [] {
      SameLayoutIds(a[0].children, b[0].children);
      assert SameLayout(a[1..], b[1..]) by {
        forall k | 0 <= k < |a[1..]| ensures a[1..][k] == a[k + 1] && b[1..][k] == b[k + 1] {
        }
      }
      SameLayoutIds(a[1..], b[1..]);
    }
  }

  lemma {:induction false} SameLayoutPaths(a: seq<Node>, b: seq<Node>, p: Path)
    requires SameLayout(a, b) && ValidPath(a, p)
    ensures ValidPath(b, p) && SameLayout(NodeAt(a, p).children, NodeAt(b, p).children)
    ensures NodeAt(b, p).row.rtype == NodeAt(a, p).row.rtype
    decreases |p|
  {
    if |p| > 1 {
      SameLayoutPaths(a[p[0]].children, b[p[0]].children, p[1..]);
    }
  }

  lemma Cancel<T>(a: multiset<T>, b: multiset<T>, c: multiset<T>)
    requires a + c == b + c
    ensures a == b
  {
    forall e ensures a[e] == b[e] {
      assert (a + c)[e] == (b + c)[e];
    }
  }

  lemma ExchangeMiddle<T>(b: multiset<T>, x: multiset<T>, o: multiset<T>, n: multiset<T>, a: multiset<T>,
                          k: multiset<T>, c: multiset<T>)
    requires n + k == o + c
    ensures (b + x + n + a) + k == (b + x + o + a) + c
  {
    forall e ensures ((b + x + n + a) + k)[e] == ((b + x + o + a) + c)[e] {
      assert (n + k)[e] == (o + c)[e];
    }
  }

  lemma ExchangeSecond<T>(b: multiset<T>, o: multiset<T>, n: multiset<T>, y: multiset<T>, a: multiset<T>,
                          k: multiset<T>, c: multiset<T>)
    requires n + k == o + c
    ensures (b + n + y + a) + k == (b + o + y + a) + c
  {
    forall e ensures ((b + n + y + a) + k)[e] == ((b + o + y + a) + c)[e] {
      assert (n + k)[e] == (o + c)[e];
    }
  }

  // ---------------------------------------------------------------------
  // Inserting and removing a row.

  /** `gtk_tree_store_remove`: the row at `p` goes, with its descendants. */
  function RemoveNode(f: seq<Node>, p: Path): (r: seq<Node>)
    requires ValidPath(f, p)
    ensures |r| == if |p| == 1 then |f| - 1 else |f|
    decreases |p|
  {
    if |p| == 1 then RemoveAt(f, p[0])
    else f[p[0] := Node(f[p[0]].row, RemoveNode(f[p[0]].children, p[1..]))]
  }

  /** A new row `n` placed at index `i` among the children of the row at `q`
      (the toplevel for `q == []`). */
  function InsertNode(f: seq<Node>, q: Path, i: nat, n: Node): (r: seq<Node>)
    requires ValidParent(f, q) && i <= |Kids(f, q)|
    ensures ValidPath(r, q + [i]) && NodeAt(r, q + [i]) == n
    ensures ValidParent(r, q) && Kids(r, q) == Kids(f, q)[..i] + [n] + Kids(f, q)[i..]
  {
    var cs := Kids(f, q)[..i] + [n] + Kids(f, q)[i..];
    var r := SetKids(f, q, cs);
    ValidChild(r, q, i);
    r
  }

  /** Removing a row is replacing its parent's children by the others. */
  lemma {:induction false} RemoveNodeAsSetKids(f: seq<Node>, p: Path)
    requires ValidPath(f, p)
    ensures ValidParent(f, Parent(p)) && p[|p| - 1] < |Kids(f, Parent(p))|
    ensures RemoveNode(f, p) == SetKids(f, Parent(p), RemoveAt(Kids(f, Parent(p)), p[|p| - 1]))
    decreases |p|
  {
    KidsAt(f, p);
    if |p| > 1 {
      RemoveNodeAsSetKids(f[p[0]].children, p[1..]);
      assert Parent(p)[0] == p[0] && Parent(p)[1..] == Parent(p[1..]);
      assert p[1..][|p[1..]| - 1] == p[|p| - 1];
    }
  }

  lemma {:induction false} SetKidsTwice(f: seq<Node>, q: Path, a: seq<Node>, b: seq<Node>)
    requires ValidParent(f, q)
    ensures SetKids(SetKids(f, q, a), q, b) == SetKids(f, q, b)
    decreases |q|
  {
    if |q| > 1 {
      SetKidsTwice(f[q[0]].children, q[1..], a, b);
    }
  }

  lemma {:induction false} SetKidsSelf(f: seq<Node>, q: Path)
    requires ValidParent(f, q)
    ensures SetKids(f, q, Kids(f, q)) == f
    decreases |q|
  {
    if |q| > 1 {
      SetKidsSelf(f[q[0]].children, q[1..]);
    }
  }

  /** Inserting a row adds it to its new siblings, and putting the old
      siblings back gives back the tree. */
  lemma InsertNodeKids(f: seq<Node>, q: Path, i: nat, n: Node)
    requires ValidParent(f, q) && i <= |Kids(f, q)|
    ensures multiset(Kids(InsertNode(f, q, i, n), q)) == multiset(Kids(f, q)) + multiset{n}
    ensures SetKids(InsertNode(f, q, i, n), q, Kids(f, q)) == f
  {
    var ks := Kids(f, q);
    assert ks == ks[..i] + ks[i..];
    SetKidsTwice(f, q, ks[..i] + [n] + ks[i..], ks);
    SetKidsSelf(f, q);
  }

  /** Replacing the children of the row at `q` keeps the rows on the line
      from the toplevel down to `q`. */
  lemma {:induction false} SetKidsKeepsLine(f: seq<Node>, q: Path, cs: seq<Node>, k: nat)
    requires ValidPath(f, q) && 1 <= k <= |q|
    ensures ValidPath(f, q[..k]) && ValidPath(SetKids(f, q, cs), q[..k])
    ensures NodeAt(SetKids(f, q, cs), q[..k]).row == NodeAt(f, q[..k]).row
    decreases |q|
  {
    PrefixValid(f, q, k);
    if k == 1 {
      assert q[..1] == [q[0]];
    } else {
      SetKidsKeepsLine(f[q[0]].children, q[1..], cs, k - 1);
      assert q[..k][1..] == q[1..][..k - 1];
    }
  }

  /** Removing a row that was just inserted gives back the tree. */
  lemma RemoveInserted(f: seq<Node>, q: Path, i: nat, n: Node)
    requires ValidParent(f, q) && i <= |Kids(f, q)|
    ensures ValidPath(InsertNode(f, q, i, n), q + [i])
    ensures RemoveNode(InsertNode(f, q, i, n), q + [i]) == f
  {
    var cs := Kids(f, q)[..i] + [n] + Kids(f, q)[i..];
    var g := InsertNode(f, q, i, n);
    RemoveNodeAsSetKids(g, q + [i]);
    assert Parent(q + [i]) == q && (q + [i])[|q + [i]| - 1] == i;
    assert RemoveAt(cs, i) == Kids(f, q);
    SetKidsTwice(f, q, cs, Kids(f, q));
    SetKidsSelf(f, q);
  }

  /** Removing a row removes exactly its own ID and its descendants' IDs. */
  lemma {:induction false} TreeIdsRemoveNode(f: seq<Node>, p: Path)
    requires ValidPath(f, p)
    ensures TreeIds(f) == TreeIds(RemoveNode(f, p)) + RowIds(NodeAt(f, p).row) + TreeIds(NodeAt(f, p).children)
    decreases |p|
  {
    if |p| == 1 {
      TreeIdsRemoveAt(f, p[0]);
    } else {
      var i := p[0];
      var f' := RemoveNode(f, p);
      var n := NodeAt(f, p);
      TreeIdsSplit(f, i);
      TreeIdsSplit(f', i);
      assert f'[..i] == f[..i] && f'[i + 1..] == f[i + 1..];
      TreeIdsRemoveNode(f[i].children, p[1..]);
      assert f'[i].row == f[i].row && f'[i].children == RemoveNode(f[i].children, p[1..]);
      UnionReplace(TreeIds(f), TreeIds(f'), TreeIds(f[..i]), RowIds(f[i].row), TreeIds(f[i].children),
                   TreeIds(f'[i].children), TreeIds(f[i + 1..]), RowIds(n.row), TreeIds(n.children));
    }
  }

  /** A new row adds exactly its own IDs and its descendants' IDs. */
  lemma TreeIdsInsertNode(f: seq<Node>, q: Path, i: nat, n: Node)
    requires ValidParent(f, q) && i <= |Kids(f, q)|
    ensures TreeIds(InsertNode(f, q, i, n)) == TreeIds(f) + RowIds(n.row) + TreeIds(n.children)
  {
    RemoveInserted(f, q, i, n);
    TreeIdsRemoveNode(InsertNode(f, q, i, n), q + [i]);
  }

  /** Removing a row keeps every row that comes before it in the walk, at
      the same path: its ancestors and the rows of earlier branches. */
  lemma {:induction false} RemoveKeepsEarlier(f: seq<Node>, b: Path, a: Path)
    requires ValidPath(f, a) && ValidPath(f, b) && PathBefore(a, b)
    ensures ValidPath(RemoveNode(f, b), a) && NodeAt(RemoveNode(f, b), a).row == NodeAt(f, a).row
    decreases |b|
  {
    var f' := RemoveNode(f, b);
    if a[0] < b[0] {
      assert f'[a[0]] == f[a[0]];
      if |a| > 1 {
        assert ValidPath(f'[a[0]].children, a[1..]);
      }
    } else {
      assert a[0] == b[0] && |b| > 1;
      if |a| > 1 {
        RemoveKeepsEarlier(f[b[0]].children, b[1..], a[1..]);
      }
    }
  }

  // ---------------------------------------------------------------------
  // Where menu IDs may occur.

  /** Every menu and pipe menu has an ID. */
  ghost predicate MenusHaveIds(f: seq<Node>)
    decreases f
  {
    forall k :: 0 <= k < |f| ==>
      (IsMenuOrPipe(f[k].row.rtype) ==> f[k].row.menuId.Some?) && MenusHaveIds(f[k].children)
  }

  /** IDs occur only below menus: no row other than a menu has a menu or
      pipe menu (with an ID) among its descendants. */
  ghost predicate MenusNested(f: seq<Node>)
    decreases f
  {
    forall k :: 0 <= k < |f| ==>
      (f[k].row.rtype != Menu ==> TreeIds(f[k].children) == multiset{}) && MenusNested(f[k].children)
  }

  lemma {:induction false} MenusHaveIdsAt(f: seq<Node>, p: Path)
    requires MenusHaveIds(f) && ValidPath(f, p)
    ensures IsMenuOrPipe(NodeAt(f, p).row.rtype) ==> NodeAt(f, p).row.menuId.Some?
    ensures MenusHaveIds(NodeAt(f, p).children)
    decreases |p|
  {
    if |p| > 1 {
      MenusHaveIdsAt(f[p[0]].children, p[1..]);
    }
  }

  lemma {:induction false} MenusNestedAt(f: seq<Node>, p: Path)
    requires MenusNested(f) && ValidPath(f, p)
    ensures NodeAt(f, p).row.rtype != Menu ==> TreeIds(NodeAt(f, p).children) == multiset{}
    decreases |p|
  {
    if |p| > 1 {
      MenusNestedAt(f[p[0]].children, p[1..]);
    }
  }

  /** Removing a row keeps both rules. */
  lemma RemoveNodeKeepsRules(f: seq<Node>, p: Path)
    requires ValidPath(f, p)
    ensures MenusHaveIds(f) ==> MenusHaveIds(RemoveNode(f, p))
    ensures MenusNested(f) ==> MenusNested(RemoveNode(f, p))
  {
    if MenusHaveIds(f) {
      RemoveNodeKeepsIds(f, p);
    }
    if MenusNested(f) {
      RemoveNodeKeepsNesting(f, p);
    }
  }

  lemma {:induction false} RemoveNodeKeepsIds(f: seq<Node>, p: Path)
    requires ValidPath(f, p) && MenusHaveIds(f)
    ensures MenusHaveIds(RemoveNode(f, p))
    decreases |p|
  {
    var f' := RemoveNode(f, p);
    if |p| == 1 {
      forall k | 0 <= k < |f'|
        ensures (IsMenuOrPipe(f'[k].row.rtype) ==> f'[k].row.menuId.Some?) && MenusHaveIds(f'[k].children)
      {
        assert f'[k] == f[if k < p[0] then k else k + 1];
      }
    } else {
      var i := p[0];
      RemoveNodeKeepsIds(f[i].children, p[1..]);
      forall k | 0 <= k < |f'|
        ensures (IsMenuOrPipe(f'[k].row.rtype) ==> f'[k].row.menuId.Some?) && MenusHaveIds(f'[k].children)
      {
        if k != i {
          assert f'[k] == f[k];
        }
      }
    }
  }

  lemma {:induction false} RemoveNodeKeepsNesting(f: seq<Node>, p: Path)
    requires ValidPath(f, p) && MenusNested(f)
    ensures MenusNested(RemoveNode(f, p))
    decreases |p|
  {
    var f' := RemoveNode(f, p);
    if |p| == 1 {
      forall k | 0 <= k < |f'|
        ensures (f'[k].row.rtype != Menu ==> TreeIds(f'[k].children) == multiset{}) && MenusNested(f'[k].children)
      {
        assert f'[k] == f[if k < p[0] then k else k + 1];
      }
    } else {
      var i := p[0];
      RemoveNodeKeepsNesting(f[i].children, p[1..]);
      TreeIdsRemoveNode(f[i].children, p[1..]);
      forall k | 0 <= k < |f'|
        ensures (f'[k].row.rtype != Menu ==> TreeIds(f'[k].children) == multiset{}) && MenusNested(f'[k].children)
      {
        if k != i {
          assert f'[k] == f[k];
        } else if f[i].row.rtype != Menu {
          assert TreeIds(f'[i].children) <= TreeIds(f[i].children) == multiset{};
        }
      }
    }
  }

  // ---------------------------------------------------------------------
  // IDs along the walk.

  /** The IDs carried by the rows of a walk. */
  function FlatIds(es: seq<Entry>): multiset<string>
    decreases |es|
  {
    if es == [] then multiset{} else FlatIds(es[..|es| - 1]) + RowIds(es[|es| - 1].row)
  }

  lemma {:induction false} FlatIdsConcat(a: seq<Entry>, b: seq<Entry>)
    ensures FlatIds(a + b) == FlatIds(a) + FlatIds(b)
    decreases |b|
  {
    if b != [] {
      assert (a + b)[..|a + b| - 1] == a + b[..|b| - 1];
      FlatIdsConcat(a, b[..|b| - 1]);
    } else {
      assert a + b == a;
    }
  }

  /** The walk carries the IDs of the forest. */
  lemma {:induction false} FlatIdsFlatten(f: seq<Node>, d: nat)
    ensures FlatIds(Flatten(f, d)) == TreeIds(f)
    decreases f
  {
    if f != [] {
      FlatIdsFlatten(f[0].children, d + 1);
      FlatIdsFlatten(f[1..], d);
      var head := [Entry(d, f[0].row)];
      FlatIdsConcat(head, Flatten(f[0].children, d + 1));
      FlatIdsConcat(head + Flatten(f[0].children, d + 1), Flatten(f[1..], d));
      assert FlatIds(head) == RowIds(f[0].row) by {
        assert head[..0] == [];
      }
    }
  }

  /** Every menu or pipe menu met on the walk has an ID. */
  lemma {:induction false} FlattenHasIds(f: seq<Node>, d: nat)
    requires MenusHaveIds(f)
    ensures forall k :: 0 <= k < |Flatten(f, d)| && IsMenuOrPipe(Flatten(f, d)[k].row.rtype) ==>
      Flatten(f, d)[k].row.menuId.Some?
    decreases f
  {
    if f != [] {
      FlattenHasIds(f[0].children, d + 1);
      assert MenusHaveIds(f[1..]) by {
        assert forall k :: 0 <= k < |f[1..]| ==> f[1..][k] == f[k + 1];
      }
      FlattenHasIds(f[1..], d);
      var a, b := Flatten(f[0].children, d + 1), Flatten(f[1..], d);
      var w := Flatten(f, d);
      assert w == [Entry(d, f[0].row)] + a + b;
      forall k | 0 <= k < |w| && IsMenuOrPipe(w[k].row.rtype) ensures w[k].row.menuId.Some? {
        if k == 0 {
        } else if k <= |a| {
          assert w[k] == a[k - 1];
        } else {
          assert w[k] == b[k - 1 - |a|];
        }
      }
    }
  }
}
