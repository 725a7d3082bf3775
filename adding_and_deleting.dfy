/*
 * Adding and removing rows: a new menu, pipe menu, item, separator or option
 * next to or inside the selected row, a new action with its options from the
 * action/option form, and the removal of the selected rows or of all their
 * children, each keeping the menu-ID registry equal to the IDs in the tree.
 */
module AddingAndDeleting {
  import opened Rows
  import opened Tree
  import opened Kickshaw
  import opened Registry
  import opened Editing

  // ---------------------------------------------------------------------
  // add_new

  /** The types `add_new` is called with. */
  predicate IsMenuLevelName(t: string) {
    t in ["menu", "pipe menu", "item", "separator"]
  }

  predicate IsOptionName(t: string) {
    t in ["prompt", "command"] + STARTUPNOTIFY_OPTIONS
  }

  /** The row type of a new row: an option for anything but the menu-level
      types. */
  function TypeOfNew(t: string): (rt: RowType)
    requires IsMenuLevelName(t) || IsOptionName(t)
    ensures IsMenuLevel(rt) <==> IsMenuLevelName(t)
    ensures IsMenuOrPipe(rt) <==> t in ["menu", "pipe menu"]
    ensures rt == OptionRow <==> IsOptionName(t)
  {
    if t == "menu" then Menu
    else if t == "pipe menu" then PipeMenu
    else if t == "item" then Item
    else if t == "separator" then Separator
    else OptionRow
  }

  /** The label of a new row: "New menu", "New pipe menu" and "New item";
      none for a separator; an option is labelled with its own name. */
  function LabelOfNew(t: string): (e: Option<string>)
    requires IsMenuLevelName(t) || IsOptionName(t)
    ensures t == "separator" <==> e == None
    ensures t in ["menu", "pipe menu", "item"] ==> e == Some("New " + t)
    ensures IsOptionName(t) ==> e == Some(t)
  {
    if t == "separator" then None
    else if t in ["menu", "pipe menu", "item"] then Some("New " + t)
    else Some(t)
  }

  /** The value of a new option: "no" for "enabled", "yes" for an option of
      an Exit or SessionLogout action, empty otherwise; menu-level rows have
      none. */
  function ValueOfNew(t: string, selectedElement: Option<string>): (v: Option<string>)
    requires IsMenuLevelName(t) || IsOptionName(t)
    ensures IsMenuLevelName(t) <==> v == None
    ensures v == Some("no") <==> t == "enabled"
    ensures v == Some("yes") <==> IsOptionName(t) && t != "enabled" && StrIn(selectedElement, [EXIT, SESSION_LOGOUT])
  {
    if IsMenuLevelName(t) then None
    else if t == "enabled" then Some("no")
    else if StrIn(selectedElement, [EXIT, SESSION_LOGOUT]) then Some("yes")
    else Some("")
  }

  /** The visibility of a new menu, pipe menu, item or separator: "visible",
      unless it was placed next to or inside a row and has an invisible
      ancestor; then a descendant class chosen by the ancestor's class. */
  function VisibilityOfNew(hadSelection: bool, ancestor: Option<string>): (v: string)
    ensures v == VISIBLE <==> !hadSelection || ancestor.None?
    ensures v == DSCT_OF_INVISIBLE <==> hadSelection && ancestor.Some? && HasSuffix(ancestor.value, "invisible menu")
  {
    if hadSelection && ancestor.Some? then
      if HasSuffix(ancestor.value, "invisible menu") then DSCT_OF_INVISIBLE else DSCT_OF_UNINTEGRATED
    else VISIBLE
  }

  /** Below an invisible menu, an invisible unintegrated menu or one of their
      invisible descendants, a new row is highlighted as its ancestor is. */
  lemma VisibilityOfNewHighlight(ancestor: string)
    requires ancestor in [INVISIBLE_MENU, UNINTEGRATED, DSCT_OF_INVISIBLE, DSCT_OF_UNINTEGRATED]
    ensures RowHighlight(Some(VisibilityOfNew(true, Some(ancestor))), None) == RowHighlight(None, Some(ancestor))
  {
    var v := VisibilityOfNew(true, Some(ancestor));
    HighlightOfClasses(None);
    if ancestor == INVISIBLE_MENU {
      InvisibleMenuSuffix();
      assert v == DSCT_OF_INVISIBLE;
      assert !HasSuffix(INVISIBLE_MENU, "unintegrated menu");
    } else if ancestor == UNINTEGRATED {
      UnintegratedNotInvisibleMenu();
      UnintegratedSuffix();
      assert v == DSCT_OF_UNINTEGRATED;
    } else if ancestor == DSCT_OF_INVISIBLE {
      DescendantOfInvisibleMenuSuffix();
      DescendantOfInvisibleSuffix();
      assert v == DSCT_OF_INVISIBLE;
    } else {
      DescendantOfUnintegratedNotInvisibleMenu();
      DescendantOfUnintegratedSuffix();
      assert v == DSCT_OF_UNINTEGRATED;
    }
  }

  lemma InvisibleMenuSuffix()
    ensures HasSuffix(INVISIBLE_MENU, "invisible menu")
  {
  }

  lemma DescendantOfInvisibleMenuSuffix()
    ensures HasSuffix(DSCT_OF_INVISIBLE, "invisible menu")
  {
    assert DSCT_OF_INVISIBLE[|DSCT_OF_INVISIBLE| - 14..] == "invisible menu";
  }

  lemma UnintegratedNotInvisibleMenu()
    ensures !HasSuffix(UNINTEGRATED, "invisible menu")
  {
    assert UNINTEGRATED[|UNINTEGRATED| - 14] != 'i';
  }

  lemma DescendantOfUnintegratedNotInvisibleMenu()
    ensures !HasSuffix(DSCT_OF_UNINTEGRATED, "invisible menu")
  {
    assert DSCT_OF_UNINTEGRATED[|DSCT_OF_UNINTEGRATED| - 14] != 'i';
  }

  /** The answer to the question asked when a menu is selected: the new row
      goes next to the menu, inside it, or nowhere. */
  datatype MenuAnswer = SameLevel | InsideMenu | Cancel

  /** The selected row is a menu and the question was cancelled. */
  predicate Cancelled(f: seq<Node>, selected: Option<Path>, answer: MenuAnswer)
    requires selected.Some? ==> ValidPath(f, selected.value)
  {
    selected.Some? && NodeAt(f, selected.value).row.rtype == Menu && answer == Cancel
  }

  /** The new row becomes the last child of the selected row: a menu when
      "inside menu" was chosen, an action, or an option block for an option
      other than prompt and command. */
  predicate AppendsInside(r: Row, t: string, answer: MenuAnswer) {
    (r.rtype == Menu && answer == InsideMenu) || r.rtype == Action ||
    (r.rtype == OptionBlock && t !in ["prompt", "command"])
  }

  /** The parent and the index of the new row: appended at the toplevel
      without a selection, appended inside the selected row, or inserted
      right after it. */
  function Placement(f: seq<Node>, selected: Option<Path>, t: string, answer: MenuAnswer): (pl: (Path, nat))
    requires selected.Some? ==> ValidPath(f, selected.value)
    ensures ValidParent(f, pl.0) && pl.1 <= |Kids(f, pl.0)|
  {
    if selected.None? then ([], |f|)
    else
      var s := selected.value;
      if AppendsInside(NodeAt(f, s).row, t, answer) then (s, |Kids(f, s)|)
      else
        KidsAt(f, s);
        (Parent(s), s[|s| - 1] + 1)
  }

  /** The options buttons only offer an option where it belongs and only when
      the row it goes into does not have it yet. */
  predicate OptionFits(f: seq<Node>, selected: Option<Path>, t: string, answer: MenuAnswer)
    requires selected.Some? ==> ValidPath(f, selected.value)
  {
    selected.Some? &&
    var s := selected.value;
    var rt := NodeAt(f, s).row.rtype;
    (rt == Action || (IsOptionLike(rt) && |s| > 1)) &&
    var pl := Placement(f, selected, t, answer);
    pl.0 != [] && !HasChild(Kids(f, pl.0), t)
  }

  /** The options a new option is sorted among: Execute's for prompt and
      command, startupnotify's otherwise. */
  function SortedAmong(t: string): Option<string> {
    if t in ["prompt", "command"] then Some(EXECUTE) else Some("startupnotify")
  }

  /** The element of the selected row (`txt_fields[MENU_ELEMENT_TXT]`);
      NULL without a selection. */
  function SelectedElement(f: seq<Node>, selected: Option<Path>): Option<string>
    requires selected.Some? ==> ValidPath(f, selected.value)
  {
    if selected.Some? then NodeAt(f, selected.value).row.element else None
  }

  /** The fields `add_new` gives a new row of type `t`; `ancestor` is the
      nearest invisible ancestor of the row's place. */
  ghost predicate IsNewRow(n: Node, t: string, selectedElement: Option<string>, ids: seq<string>,
                           hadSelection: bool, ancestor: Option<string>)
    requires IsMenuLevelName(t) || IsOptionName(t)
  {
    var r := n.row;
    n.children == [] &&
    r.rtype == TypeOfNew(t) && r.element == LabelOfNew(t) && r.value == ValueOfNew(t, selectedElement) &&
    r.execute == None && r.icon == None &&
    (IsMenuOrPipe(r.rtype) <==> r.menuId.Some?) &&
    (r.menuId.Some? ==> r.menuId.value !in ids && IsFirstFreeId(r.menuId.value, ids)) &&
    r.visibility == (if IsMenuLevel(r.rtype) then Some(VisibilityOfNew(hadSelection, ancestor)) else None)
  }

  /** `id` is "New menu N" for the smallest N >= 1 whose ID is not taken. */
  ghost predicate IsFirstFreeId(id: string, ids: seq<string>) {
    exists n: nat :: n >= 1 && id == MenuIdName(n) && forall m :: 1 <= m < n ==> MenuIdName(m) in ids
  }

  /** `g` is `f` with one more child, at `a`, under the row at `q`: putting
      back the old children of `q` gives back `f`. */
  ghost predicate AddedUnder(f: seq<Node>, g: seq<Node>, q: Path, a: Path) {
    ValidParent(f, q) && ValidParent(g, q) && ValidPath(g, a) && a != [] && Parent(a) == q &&
    multiset(Kids(g, q)) == multiset(Kids(f, q)) + multiset{NodeAt(g, a)} &&
    SetKids(g, q, Kids(f, q)) == f
  }

  /** `add_new`: a row of type `t` is created and placed (see `Placement`);
      a menu or pipe menu gets the first free ID "New menu N", which is
      prepended to the registry; with autosorting on, the siblings of a new
      option are sorted.  Returns the path of the new row, or nothing when
      the question was cancelled. */
  method AddNew(f: seq<Node>, ids: seq<string>, selected: Option<Path>, t: string, answer: MenuAnswer, autosort: bool)
    returns (g: seq<Node>, ids': seq<string>, added: Option<Path>)
    requires IsMenuLevelName(t) || IsOptionName(t)
    requires selected.Some? ==> ValidPath(f, selected.value)
    requires IsOptionName(t) ==> OptionFits(f, selected, t, answer)
    ensures added.None? <==> Cancelled(f, selected, answer)
    ensures added.None? ==> g == f && ids' == ids
    ensures added.Some? ==> AddedUnder(f, g, Placement(f, selected, t, answer).0, added.value)
    ensures added.Some? ==> (ValidPath(g, added.value) &&
      IsNewRow(NodeAt(g, added.value), t, SelectedElement(f, selected), ids, selected.Some?,
               NearestInvisibleAncestor(g, added.value)))
    ensures added.Some? ==> (ValidPath(g, added.value) &&
      multiset(ids') == multiset(ids) + RowIds(NodeAt(g, added.value).row) &&
      TreeIds(g) == TreeIds(f) + RowIds(NodeAt(g, added.value).row))
    ensures Distinct(ids) ==> Distinct(ids')
    ensures added.Some? && !(autosort && IsOptionName(t)) ==>
      var pl := Placement(f, selected, t, answer);
      added.value == pl.0 + [pl.1] && ValidPath(g, added.value) && RemoveNode(g, added.value) == f
    ensures added.Some? && autosort && IsOptionName(t) ==>
      var q := Placement(f, selected, t, answer).0;
      ValidParent(g, q) && RankSorted(Kids(g, q), OptionsOf(SortedAmong(t)))
  {
    if Cancelled(f, selected, answer) {
      return f, ids, None;
    }
    var n;
    n, ids' := NewRow(f, ids, selected, t, answer);
    var pl := Placement(f, selected, t, answer);
    var a;
    g, a := PlaceNewRow(f, pl.0, pl.1, n, autosort && IsOptionName(t), SortedAmong(t));
    added := Some(a);
  }

  /** The placing part of `add_new`: `n` is inserted as child `i` of the row
      at `q`; when `sort` is set, the children of `q` are sorted among the
      options of `among` afterwards.  Returns the path of the new row. */
  method PlaceNewRow(f: seq<Node>, q: Path, i: nat, n: Node, sort: bool, among: Option<string>)
    returns (g: seq<Node>, a: Path)
    requires ValidParent(f, q) && i <= |Kids(f, q)|
    requires sort ==> n.row.element.Some? && !HasChild(Kids(f, q), n.row.element.value)
    ensures AddedUnder(f, g, q, a) && NodeAt(g, a) == n
    ensures TreeIds(g) == TreeIds(f) + RowIds(n.row) + TreeIds(n.children)
    ensures NearestInvisibleAncestor(g, a) == PlaceAncestor(f, q)
    ensures !sort ==> a == q + [i] && RemoveNode(g, a) == f
    ensures sort ==> RankSorted(Kids(g, q), OptionsOf(among))
  {
    g := InsertNode(f, q, i, n);
    a := q + [i];
    InsertedFacts(f, q, i, n);
    ChildAncestor(g, q, i);
    SetKidsKeepsPlaceAncestor(f, q, Kids(g, q));
    if sort {
      var kids := Kids(g, q);
      var t := n.row.element.value;
      assert multiset(kids) == multiset(Kids(f, q)) + multiset{n};
      var cs, k := SortAfterInsertion(kids, among, t);
      SortedOptionsSorted(kids, among);
      SortedKeepsNew(f, q, kids, cs, n, t, k);
      SortedFacts(f, g, q, cs, k);
      g := SetKids(g, q, cs);
      a := q + [k];
    }
  }

  /** The row `add_new` builds before placing it, with its menu ID taken
      from the registry (`ids'` is the registry with that ID prepended) and,
      for a menu-level row, its visibility from the ancestors of its place. */
  method NewRow(f: seq<Node>, ids: seq<string>, selected: Option<Path>, t: string, answer: MenuAnswer)
    returns (n: Node, ids': seq<string>)
    requires IsMenuLevelName(t) || IsOptionName(t)
    requires selected.Some? ==> ValidPath(f, selected.value)
    ensures IsNewRow(n, t, SelectedElement(f, selected), ids, selected.Some?,
                     PlaceAncestor(f, Placement(f, selected, t, answer).0))
    ensures multiset(ids') == multiset(ids) + RowIds(n.row)
    ensures Distinct(ids) ==> Distinct(ids')
  {
    var element := SelectedElement(f, selected);
    var row := Row(TypeOfNew(t), LabelOfNew(t), ValueOfNew(t, element), None, None, None, None);
    ids' := ids;
    if t in ["menu", "pipe menu"] {
      var id, k := FreshMenuId(ids);
      row := row.(menuId := Some(id));
      ids' := [id] + ids;
      assert ids'[1..] == ids;
      assert IsFirstFreeId(id, ids);
    }
    var pl := Placement(f, selected, t, answer);
    var parent, index := pl.0, pl.1;
    if IsMenuLevelName(t) {
      // The row is in the tree when its ancestors are looked at.
      var placed := InsertNode(f, parent, index, Node(row, []));
      var ancestor: Option<string> := None;
      if selected.Some? {
        ancestor := CheckIfInvisibleAncestorExists(placed, parent + [index]);
      }
      ChildAncestor(placed, parent, index);
      SetKidsKeepsPlaceAncestor(f, parent, Kids(placed, parent));
      row := row.(visibility := Some(VisibilityOfNew(selected.Some?, ancestor)));
    }
    n := Node(row, []);
  }

  /** The visibility of the nearest row among `q` and its ancestors whose
      visibility starts with "invisible": the nearest invisible ancestor of
      any child of `q`. */
  function PlaceAncestor(f: seq<Node>, q: Path): Option<string>
    requires ValidParent(f, q)
  {
    if q == [] then None
    else
      var v := NodeAt(f, q).row.visibility;
      if IsInvisible(v) then v else NearestInvisibleAncestor(f, q)
  }

  /** A child's nearest invisible ancestor is found at or above its parent. */
  lemma ChildAncestor(f: seq<Node>, q: Path, k: nat)
    requires ValidParent(f, q) && k < |Kids(f, q)|
    ensures ValidPath(f, q + [k]) && NearestInvisibleAncestor(f, q + [k]) == PlaceAncestor(f, q)
  {
    ValidChild(f, q, k);
    assert Parent(q + [k]) == q;
  }

  /** Replacing the children of `q` leaves `q` and its ancestors alone. */
  lemma SetKidsKeepsPlaceAncestor(f: seq<Node>, q: Path, cs: seq<Node>)
    requires ValidParent(f, q)
    ensures PlaceAncestor(SetKids(f, q, cs), q) == PlaceAncestor(f, q)
  {
    if q != [] {
      var g := SetKids(f, q, cs);
      forall k | 1 <= k < |q| ensures AncestorVisibility(f, q, k) == AncestorVisibility(g, q, k) {
        SetKidsKeepsLine(f, q, cs, k);
      }
      NearestInvisibleAncestorOfLine(f, g, q);
    }
  }

  /** What inserting a row changes. */
  lemma InsertedFacts(f: seq<Node>, q: Path, i: nat, n: Node)
    requires ValidParent(f, q) && i <= |Kids(f, q)|
    ensures AddedUnder(f, InsertNode(f, q, i, n), q, q + [i])
    ensures RemoveNode(InsertNode(f, q, i, n), q + [i]) == f
    ensures TreeIds(InsertNode(f, q, i, n)) == TreeIds(f) + RowIds(n.row) + TreeIds(n.children)
  {
    InsertNodeKids(f, q, i, n);
    RemoveInserted(f, q, i, n);
    TreeIdsInsertNode(f, q, i, n);
    assert Parent(q + [i]) == q;
  }

  /** Reordering the children of `q` after an insertion keeps what the
      insertion did. */
  lemma SortedFacts(f: seq<Node>, g: seq<Node>, q: Path, cs: seq<Node>, k: nat)
    requires ValidParent(g, q) && multiset(cs) == multiset(Kids(g, q)) && k < |cs|
    requires ValidParent(f, q) && SetKids(g, q, Kids(f, q)) == f
    ensures ValidPath(SetKids(g, q, cs), q + [k]) && NodeAt(SetKids(g, q, cs), q + [k]) == cs[k]
    ensures TreeIds(SetKids(g, q, cs)) == TreeIds(g)
    ensures SetKids(SetKids(g, q, cs), q, Kids(f, q)) == f
    ensures Parent(q + [k]) == q
    ensures NearestInvisibleAncestor(SetKids(g, q, cs), q + [k]) == PlaceAncestor(g, q)
  {
    var g' := SetKids(g, q, cs);
    TreeIdsPermutation(Kids(g, q), cs);
    TreeIdsSetKids(g, q, cs);
    Tree.Cancel(TreeIds(g'), TreeIds(g), TreeIds(cs));
    SetKidsTwice(g, q, cs, Kids(f, q));
    ValidChild(g', q, k);
    ChildAncestor(g', q, k);
    SetKidsKeepsPlaceAncestor(g, q, cs);
  }

  /** After sorting, the new option is the first child with its name, since
      none of the old siblings has that name. */
  lemma SortedKeepsNew(f: seq<Node>, q: Path, kids: seq<Node>, cs: seq<Node>, n: Node, t: string, k: nat)
    requires ValidParent(f, q) && !HasChild(Kids(f, q), t) && n.row.element == Some(t)
    requires multiset(kids) == multiset(Kids(f, q)) + multiset{n} && multiset(cs) == multiset(kids)
    requires k < |cs| && (HasChild(cs, t) ==> cs[k].row.element == Some(t))
    ensures cs[k] == n
  {
    assert n in multiset(cs);
    var j :| 0 <= j < |cs| && cs[j] == n;
    assert HasChild(cs, t);
    assert cs[k] in multiset(cs);
  }

  // ---------------------------------------------------------------------
  // Removing rows.

  /** The walk carries the IDs of its first `k` rows and of the others. */
  lemma FlatIdsSplit(walk: seq<Entry>, k: nat)
    requires k <= |walk|
    ensures FlatIds(walk) == FlatIds(walk[..k]) + FlatIds(walk[k..])
  {
    assert walk == walk[..k] + walk[k..];
    FlatIdsConcat(walk[..k], walk[k..]);
  }

  /** One row of the walk: its IDs leave the ones still to be removed. */
  lemma FlatIdsStep(walk: seq<Entry>, k: nat)
    requires k < |walk|
    ensures FlatIds(walk[k..]) == RowIds(walk[k].row) + FlatIds(walk[k + 1..])
    ensures FlatIds(walk[..k + 1]) == FlatIds(walk[..k]) + RowIds(walk[k].row)
  {
    assert walk[..k + 1][..k] == walk[..k];
    FlatIdsSplit(walk[k..], 1);
    assert walk[k..][..1] == [walk[k]] && walk[k..][1..] == walk[k + 1..];
    assert FlatIds([walk[k]]) == FlatIds([walk[k]][..0]) + RowIds(walk[k].row);
  }

  /** Taking `x` out of what is left of `m` after `done`. */
  lemma Consume(m: multiset<string>, done: multiset<string>, x: multiset<string>, rest: multiset<string>,
                cur: multiset<string>, next: multiset<string>)
    requires cur == m - done && x + rest <= cur && next == cur - x
    ensures next == m - (done + x) && rest <= next
  {
  }

  lemma PartOf(x: multiset<string>, rest: multiset<string>, cur: multiset<string>)
    requires x + rest <= cur
    ensures x <= cur
  {
  }

  /** `check_for_menus` on one row: the ID of a menu or pipe menu leaves
      the registry (`remove_menu_id`), any other row leaves it alone. */
  method CheckForMenus(r: Row, ids: seq<string>) returns (ids': seq<string>)
    requires IsMenuOrPipe(r.rtype) ==> r.menuId.Some?
    requires RowIds(r) <= multiset(ids)
    ensures multiset(ids') == multiset(ids) - RowIds(r)
  {
    ids' := ids;
    if IsMenuOrPipe(r.rtype) {
      assert multiset(ids)[r.menuId.value] >= 1;
      ids' := RemoveMenuId(ids, r.menuId.value);
    }
  }

  /** `check_for_menus` on row `k` of the walk: the IDs of the rows visited
      so far have left the registry, those of the rows to come are still
      in it. */
  method CheckForMenusAt(walk: seq<Entry>, k: nat, ids: seq<string>, ghost m: multiset<string>) returns (ids': seq<string>)
    requires k < |walk| && (IsMenuOrPipe(walk[k].row.rtype) ==> walk[k].row.menuId.Some?)
    requires multiset(ids) == m - FlatIds(walk[..k]) && FlatIds(walk[k..]) <= multiset(ids)
    ensures multiset(ids') == m - FlatIds(walk[..k + 1]) && FlatIds(walk[k + 1..]) <= multiset(ids')
  {
    var r := walk[k].row;
    FlatIdsStep(walk, k);
    PartOf(RowIds(r), FlatIds(walk[k + 1..]), multiset(ids));
    ids' := CheckForMenus(r, ids);
    Consume(m, FlatIds(walk[..k]), RowIds(r), FlatIds(walk[k + 1..]), multiset(ids), multiset(ids'));
  }

  /** `gtk_tree_model_foreach` with `check_for_menus` on the rows below a
      removed menu, in the order of the walk: exactly the IDs below the
      menu leave the registry. */
  method RemoveIdsBelow(ns: seq<Node>, ids: seq<string>) returns (ids': seq<string>)
    requires MenusHaveIds(ns) && TreeIds(ns) <= multiset(ids)
    ensures multiset(ids') == multiset(ids) - TreeIds(ns)
  {
    var walk := Flatten(ns, 1);
    WalkOfMenus(ns);
    ids' := ids;
    var k := 0;
    while k < |walk|
      invariant k <= |walk|
      invariant multiset(ids') == multiset(ids) - FlatIds(walk[..k])
      invariant FlatIds(walk[k..]) <= multiset(ids')
    {
      ids' := CheckForMenusAt(walk, k, ids', multiset(ids));
      k := k + 1;
    }
    assert walk[..k] == walk;
  }

  /** The walk below a menu carries its IDs, and every menu on it has one. */
  lemma WalkOfMenus(ns: seq<Node>)
    requires MenusHaveIds(ns)
    ensures var walk := Flatten(ns, 1);
      FlatIds(walk[0..]) == TreeIds(ns) && FlatIds(walk[..0]) == multiset{} &&
      forall k :: 0 <= k < |walk| && IsMenuOrPipe(walk[k].row.rtype) ==> walk[k].row.menuId.Some?
  {
    var walk := Flatten(ns, 1);
    FlatIdsFlatten(ns, 1);
    FlattenHasIds(ns, 1);
    assert walk[..0] == [] && walk[0..] == walk;
  }

  /** Every earlier selected path still addresses the same row once the
      row at `sel[k]` is gone. */
  lemma KeepEarlier(h: seq<Node>, f: seq<Node>, sel: seq<Path>, k: nat)
    requires Increasing(sel) && k < |sel|
    requires forall j :: 0 <= j <= k ==>
      (ValidPath(h, sel[j]) && ValidPath(f, sel[j]) && NodeAt(h, sel[j]).row == NodeAt(f, sel[j]).row)
    ensures forall j :: 0 <= j < k ==>
      (ValidPath(RemoveNode(h, sel[k]), sel[j]) && NodeAt(RemoveNode(h, sel[k]), sel[j]).row == NodeAt(f, sel[j]).row)
  {
    forall j | 0 <= j < k
      ensures ValidPath(RemoveNode(h, sel[k]), sel[j]) && NodeAt(RemoveNode(h, sel[k]), sel[j]).row == NodeAt(f, sel[j]).row
    {
      RemoveKeepsEarlier(h, sel[k], sel[j]);
    }
  }

  /** The forest once the selected rows from the last down to `sel[k]` are
      removed.  The selection is in the order of the walk and is removed
      bottom to top, so every selected path not yet processed still
      addresses the row it addressed in `f`. */
  function Pruned(f: seq<Node>, sel: seq<Path>, k: nat): (g: seq<Node>)
    requires Increasing(sel) && k <= |sel| && forall j :: 0 <= j < |sel| ==> ValidPath(f, sel[j])
    ensures forall j :: 0 <= j < k ==> ValidPath(g, sel[j]) && NodeAt(g, sel[j]).row == NodeAt(f, sel[j]).row
    decreases |sel| - k
  {
    if k == |sel| then f
    else
      var h := Pruned(f, sel, k + 1);
      KeepEarlier(h, f, sel, k);
      RemoveNode(h, sel[k])
  }

  /** One pass of the loop of `remove_rows`: the row at `p` goes, and
      unless the origin is "dnd" so do its IDs and those below it. */
  method RemoveRow(g: seq<Node>, ids: seq<string>, p: Path, origin: string)
    returns (g': seq<Node>, ids': seq<string>)
    requires ValidPath(g, p)
    requires origin != "dnd" ==> MenusHaveIds(g) && MenusNested(g) && multiset(ids) == TreeIds(g)
    ensures g' == RemoveNode(g, p)
    ensures (MenusHaveIds(g) ==> MenusHaveIds(g')) && (MenusNested(g) ==> MenusNested(g'))
    ensures origin == "dnd" ==> ids' == ids
    ensures origin != "dnd" ==> multiset(ids') == TreeIds(g')
  {
    var n := NodeAt(g, p);
    g' := RemoveNode(g, p);
    ids' := ids;
    RemoveNodeKeepsRules(g, p);
    if origin == "dnd" {
      return;
    }
    TreeIdsRemoveNode(g, p);
    MenusHaveIdsAt(g, p);
    MenusNestedAt(g, p);
    var below := TreeIds(n.children);
    if IsMenuOrPipe(n.row.rtype) {
      Peel(TreeIds(g'), RowIds(n.row), below);
      ids' := CheckForMenus(n.row, ids');
      if n.row.rtype == Menu && n.children != [] {
        ids' := RemoveIdsBelow(n.children, ids');
      } else {
        assert below == multiset{};
      }
    } else {
      assert RowIds(n.row) == multiset{} && below == multiset{};
    }
  }

  /** What is left once a row's own IDs and those below it are taken out. */
  lemma Peel(rest: multiset<string>, own: multiset<string>, below: multiset<string>)
    ensures own <= rest + own + below
    ensures below <= (rest + own + below) - own
    ensures ((rest + own + below) - own) - below == rest
  {
  }

  /** `remove_rows`: the selected rows `sel` (in the order of the walk) are
      removed bottom to top.  Unless the removal ends a drag and drop
      (`origin` "dnd", where the moved copies keep the IDs), the ID of every
      removed menu or pipe menu and, for a menu with children, the IDs of
      the menus below it leave the registry, which so keeps matching the
      tree.  `findShown` tells whether the find grid is shown; it is hidden
      (`shown` false) once no row is left. */
  method RemoveRows(f: seq<Node>, ids: seq<string>, sel: seq<Path>, origin: string, findShown: bool)
    returns (g: seq<Node>, ids': seq<string>, shown: bool)
    requires Increasing(sel) && forall j :: 0 <= j < |sel| ==> ValidPath(f, sel[j])
    requires origin != "dnd" ==> MenusHaveIds(f) && MenusNested(f) && multiset(ids) == TreeIds(f)
    ensures g == Pruned(f, sel, 0)
    ensures (MenusHaveIds(f) ==> MenusHaveIds(g)) && (MenusNested(f) ==> MenusNested(g))
    ensures origin == "dnd" ==> ids' == ids
    ensures origin != "dnd" ==> multiset(ids') == TreeIds(g)
    ensures shown <==> findShown && g != []
  {
    g, ids' := f, ids;
    var k: nat := |sel|;
    while k > 0
      invariant k <= |sel| && g == Pruned(f, sel, k)
      invariant (MenusHaveIds(f) ==> MenusHaveIds(g)) && (MenusNested(f) ==> MenusNested(g))
      invariant origin == "dnd" ==> ids' == ids
      invariant origin != "dnd" ==> multiset(ids') == TreeIds(g)
    {
      k := k - 1;
      g, ids' := RemoveRow(g, ids', sel[k], origin);
    }
    shown := findShown;
    if g == [] && findShown {
      shown := false;
    }
  }

  /** The paths of `ps` whose parent is selected, in their order: the
      selection `remove_all_children` hands to `remove_rows`. */
  function ChildrenOfSelected(ps: seq<Path>, sel: seq<Path>): (r: seq<Path>)
    ensures forall x :: x in r <==> x in ps && x != [] && Parent(x) in sel
    ensures Increasing(ps) ==> Increasing(r)
  {
    if ps == [] then []
    else
      var rest := ChildrenOfSelected(ps[1..], sel);
      assert Increasing(ps) ==> Increasing(ps[1..]) by {
        if Increasing(ps) {
          forall a, b | 0 <= a < b < |ps[1..]| ensures PathBefore(ps[1..][a], ps[1..][b]) {
            assert ps[1..][a] == ps[a + 1] && ps[1..][b] == ps[b + 1];
          }
        }
      }
      if ps[0] != [] && Parent(ps[0]) in sel then
        assert Increasing(ps) ==> Increasing([ps[0]] + rest) by {
          if Increasing(ps) {
            forall a, b | 0 <= a < b < |[ps[0]] + rest| ensures PathBefore(([ps[0]] + rest)[a], ([ps[0]] + rest)[b]) {
              var y := ([ps[0]] + rest)[b];
              assert y in ps[1..];
              var j :| 0 <= j < |ps[1..]| && ps[1..][j] == y;
              assert ps[j + 1] == y;
            }
          }
        }
        [ps[0]] + rest
      else rest
  }

  /** `remove_all_children`: each selected row is replaced in the selection
      by its children, which `remove_rows` then removes with their
      descendants; the registry keeps matching the tree. */
  method RemoveAllChildren(f: seq<Node>, ids: seq<string>, sel: seq<Path>, findShown: bool)
    returns (g: seq<Node>, ids': seq<string>, removed: seq<Path>, shown: bool)
    requires MenusHaveIds(f) && MenusNested(f) && multiset(ids) == TreeIds(f)
    ensures forall x :: x in removed <==> ValidPath(f, x) && Parent(x) in sel
    ensures Increasing(removed) && (forall j :: 0 <= j < |removed| ==> ValidPath(f, removed[j]))
    ensures g == Pruned(f, removed, 0)
    ensures multiset(ids') == TreeIds(g) && MenusHaveIds(g) && MenusNested(g)
    ensures shown <==> findShown && g != []
  {
    var walk := Paths(f, []);
    PathsIncreasing(f, []);
    forall x ensures x in walk <==> ValidPath(f, x) {
      PathsExactly(f, x);
    }
    removed := ChildrenOfSelected(walk, sel);
    g, ids', shown := RemoveRows(f, ids, removed, "remove all children", findShown);
  }
}
