/*
 * The menu-ID registry: the list of the IDs of all menus and pipe menus, kept
 * next to the tree so that a new or edited ID can be checked for uniqueness.
 * Entries are removed one at a time and new ones prepended.
 */
module Registry {
  import opened Rows
  import opened Auxiliary
  import opened Tree

  /** The position of the first entry equal to `id`, as `g_slist_find_custom`
      finds it. */
  function FirstIndexOf(ids: seq<string>, id: string): (k: nat)
    requires id in ids
    ensures k < |ids| && ids[k] == id && id !in ids[..k]
  {
    if ids[0] == id then 0
    else
      var k := FirstIndexOf(ids[1..], id);
      assert ids[..k + 1] == [ids[0]] + ids[1..][..k];
      k + 1
  }

  /** `remove_menu_id`: the first entry equal to `id` is dropped.  The source
      dereferences the search result unchecked, so `id` must be present. */
  function RemoveMenuId(ids: seq<string>, id: string): (r: seq<string>)
    requires id in ids
    ensures multiset(r) == multiset(ids) - multiset{id}
    ensures |r| == |ids| - 1
    ensures var k := FirstIndexOf(ids, id); r[..k] == ids[..k] && r[k..] == ids[k + 1..]
  {
    var k := FirstIndexOf(ids, id);
    assert ids == ids[..k] + [id] + ids[k + 1..];
    ids[..k] + ids[k + 1..]
  }

  /** The ID `add_new` tries for the number `n`. */
  function MenuIdName(n: nat): (id: string)
    ensures HasPrefix(id, "New menu ") && id[9..] == Digits(n)
  {
    "New menu " + Digits(n)
  }

  /** Different numbers give different IDs. */
  lemma MenuIdNameInjective(a: nat, b: nat)
    requires MenuIdName(a) == MenuIdName(b)
    ensures a == b
  {
    assert Digits(a) == MenuIdName(a)[9..] == MenuIdName(b)[9..] == Digits(b);
    DecimalValueOfDigits(a);
    DecimalValueOfDigits(b);
  }

  /** A registry that holds the IDs for 1 to `k` has at least `k` entries. */
  lemma {:induction false} NamesFitInRegistry(ids: seq<string>, k: nat)
    requires forall m :: 1 <= m <= k ==> MenuIdName(m) in ids
    ensures k <= |ids|
    decreases k
  {
    if k > 0 {
      var rest := RemoveMenuId(ids, MenuIdName(k));
      forall m | 1 <= m <= k - 1 ensures MenuIdName(m) in rest {
        if MenuIdName(m) == MenuIdName(k) {
          MenuIdNameInjective(m, k);
        }
        assert MenuIdName(m) in multiset(ids);
        assert MenuIdName(m) in multiset(rest);
      }
      NamesFitInRegistry(rest, k - 1);
    }
  }

  /** The loop of `add_new` that numbers a new menu: "New menu 1", "New menu
      2", ... are tried until one is not in the registry. */
  method FreshMenuId(ids: seq<string>) returns (id: string, n: nat)
    ensures n >= 1 && id == MenuIdName(n) && id !in ids
    ensures forall m :: 1 <= m < n ==> MenuIdName(m) in ids
  {
    var index := 1;
    id := MenuIdName(index);
    index := index + 1;
    while id in ids
      invariant index >= 2 && id == MenuIdName(index - 1)
      invariant forall m :: 1 <= m < index - 1 ==> MenuIdName(m) in ids
      decreases |ids| + 2 - index
    {
      NamesFitInRegistry(ids, index - 1);
      id := MenuIdName(index);
      index := index + 1;
    }
    n := index - 1;
  }

  // ---------------------------------------------------------------------
  // The registry and the tree.

  /** The ID of a menu or pipe menu is among the IDs of the forest. */
  lemma IdInTree(f: seq<Node>, p: Path)
    requires ValidPath(f, p) && IsMenuOrPipe(NodeAt(f, p).row.rtype) && NodeAt(f, p).row.menuId.Some?
    ensures NodeAt(f, p).row.menuId.value in TreeIds(f)
  {
    var r := NodeAt(f, p).row;
    var cleared := r.(menuId := None);
    TreeIdsSetRow(f, p, cleared);
    var rest := TreeIds(SetRow(f, p, cleared));
    assert RowIds(cleared) == multiset{} && RowIds(r) == multiset{r.menuId.value};
    assert rest + multiset{r.menuId.value} == TreeIds(f) + multiset{};
    assert (rest + multiset{r.menuId.value})[r.menuId.value] >= 1;
  }

  /** Giving a menu or pipe menu a new ID, removing its old ID from the
      registry and prepending the new one keeps the registry equal to the
      IDs of the tree. */
  lemma RenameKeepsRegistry(f: seq<Node>, ids: seq<string>, p: Path, r: Row)
    requires multiset(ids) == TreeIds(f) && ValidPath(f, p)
    requires IsMenuOrPipe(NodeAt(f, p).row.rtype) && NodeAt(f, p).row.menuId.Some?
    requires NodeAt(f, p).row.menuId.value in ids
    requires r.rtype == NodeAt(f, p).row.rtype && r.menuId.Some?
    ensures multiset([r.menuId.value] + RemoveMenuId(ids, NodeAt(f, p).row.menuId.value)) == TreeIds(SetRow(f, p, r))
  {
    var o := NodeAt(f, p).row;
    var f' := SetRow(f, p, r);
    var oldId, newId := o.menuId.value, r.menuId.value;
    TreeIdsSetRow(f, p, r);
    var a, b := TreeIds(f'), multiset(ids);
    assert a + multiset{oldId} == b + multiset{newId};
    var rest := RemoveMenuId(ids, oldId);
    assert multiset(rest) == b - multiset{oldId};
    assert multiset([newId] + rest) == multiset{newId} + multiset(rest);
    SwapOne(a, b, multiset(rest), oldId, newId);
  }

  /** `b` with its `o` taken out and `n` put in is `a`, when `a` with `o`
      is `b` with `n`. */
  lemma SwapOne<T>(a: multiset<T>, b: multiset<T>, rest: multiset<T>, o: T, n: T)
    requires a + multiset{o} == b + multiset{n} && o in b && rest == b - multiset{o}
    ensures multiset{n} + rest == a
  {
    forall e ensures (multiset{n} + rest)[e] == a[e] {
      assert (a + multiset{o})[e] == (b + multiset{n})[e];
    }
  }

  /** Distinct, stated by multiplicities. */
  lemma {:induction false} DistinctCounts(ids: seq<string>)
    ensures Distinct(ids) <==> forall e :: multiset(ids)[e] <= 1
  {
    if ids != [] {
      DistinctCounts(ids[1..]);
      assert ids == [ids[0]] + ids[1..];
      assert forall e :: multiset(ids)[e] == multiset(ids[1..])[e] + (if e == ids[0] then 1 else 0);
      if forall e :: multiset(ids)[e] <= 1 {
        assert multiset(ids[1..])[ids[0]] == 0;
      }
    }
  }

  /** A rename keeps the registry free of duplicates when the new ID is not
      already in it. */
  lemma RenameKeepsDistinct(ids: seq<string>, oldId: string, newId: string)
    requires Distinct(ids) && oldId in ids && newId !in ids
    ensures Distinct([newId] + RemoveMenuId(ids, oldId))
  {
    DistinctCounts(ids);
    var r := [newId] + RemoveMenuId(ids, oldId);
    forall e ensures multiset(r)[e] <= 1 {
      assert multiset(ids)[newId] == 0;
    }
    DistinctCounts(r);
  }
}
