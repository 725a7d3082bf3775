/*
 * Drag and drop of rows inside the tree view.
 *
 * While the rows are dragged, `drag_motion_handler` decides for the row
 * under the pointer whether the dragged rows may be dropped there: it looks
 * at the dragged rows one after the other and refuses the drop at the first
 * rule one of them breaks.  When the rows are dropped,
 * `drag_data_received_handler` copies each dragged row with all its subrows
 * to the destination (adjusting the visibility of menus, pipe menus, items
 * and separators to their new parent) and then removes the originals with
 * `remove_rows ("dnd")`, which leaves the menu-ID registry alone: the IDs
 * moved with the copies.
 */
module DragAndDrop {
  import opened Rows
  import opened Tree
  import opened Kickshaw
  import opened Editing
  import opened AddingAndDeleting

  // ---------------------------------------------------------------------
  // The destination.

  /** `GtkTreeViewDropPosition`. */
  datatype DropPosition = Before | After | IntoOrBefore | IntoOrAfter

  /** What `gtk_tree_view_get_dest_row_at_pos` reports: the row under the
      pointer and where the pointer is relative to it, or no row when the
      rows are dragged below the last row of the menu. */
  datatype Dest = BelowLastRow | AtRow(path: Path, position: DropPosition)

  predicate DestValid(f: seq<Node>, d: Dest) {
    d.AtRow? ==> ValidPath(f, d.path)
  }

  predicate DroppedOnto(d: Dest) {
    d.AtRow? && (d.position == IntoOrBefore || d.position == IntoOrAfter)
  }

  /** The row `drag_motion_handler` takes for the new parent: the row under
      the pointer when dropping onto it, otherwise that row's parent unless
      it is a toplevel row (or there is no row). */
  function MotionParent(f: seq<Node>, d: Dest): (q: Option<Path>)
    requires DestValid(f, d)
    ensures q.Some? <==> d.AtRow? && (DroppedOnto(d) || |d.path| > 1)
    ensures q.Some? ==> ValidPath(f, q.value)
    ensures q.Some? && !DroppedOnto(d) ==> IsAncestor(q.value, d.path) && |q.value| == |d.path| - 1
  {
    if DroppedOnto(d) then Some(d.path)
    else if d.AtRow? && |d.path| > 1 then
      PrefixValid(f, d.path, |d.path| - 1);
      Some(Parent(d.path))
    else None
  }

  /** `dest_parent_path`: only taken when the row under the pointer is not a
      toplevel row. */
  function MotionParentPath(f: seq<Node>, d: Dest): Option<Path>
    requires DestValid(f, d)
  {
    if d.AtRow? && |d.path| > 1 then MotionParent(f, d) else None
  }

  /** `gtk_tree_path_compare (source_parent_path, dest_parent_path) == 0`;
      GTK answers 0 when the second path is NULL. */
  predicate SameParent(sourceParent: Path, destParentPath: Option<Path>) {
    destParentPath.None? || destParentPath.value == sourceParent
  }

  // ---------------------------------------------------------------------
  // drag_motion_handler.

  /** The status bar messages of `drag_motion_handler`. */
  datatype Violation =
    | IntoItself                // "Menus can't be dragged into themselves"
    | InappropriatePosition     // "Inappropriate new position"
    | AutosortSameParent        // "Autosorting active - no movement of options inside the same action possible"
    | OptionTwice               // "Only one option of a kind allowed"
    | PromptNotYesNo            // "Prompt option must have value "yes" or "no""

  /** The placement rules: `r` would end up under a parent of type
      `parentType` named `parentElement` (both NULL for the toplevel);
      `nested` says whether the parent is a row at all. */
  predicate Misplaced(r: Row, parentType: Option<RowType>, parentElement: Option<string>, nested: bool) {
    (nested && r.visibility.Some? && parentType != Some(Menu)) ||
    (r.rtype == Action && parentType != Some(Item)) ||
    (r.rtype == OptionRow && Is(r.element, "prompt") &&
     !(parentType == Some(Action) && StrIn(parentElement, [EXECUTE, EXIT, SESSION_LOGOUT]))) ||
    (r.rtype == OptionRow && Is(r.element, "command") &&
     !(parentType == Some(Action) && StrIn(parentElement, [EXECUTE, RESTART]))) ||
    (r.rtype == OptionBlock && !(parentType == Some(Action) && Is(parentElement, EXECUTE))) ||
    (r.rtype == OptionRow && StrIn(r.element, STARTUPNOTIFY_OPTIONS) && parentType != Some(OptionBlock))
  }

  /** Some row of `children` has the element `e` (`streq`, so NULL matches NULL). */
  predicate ElementTaken(children: seq<Node>, e: Option<string>) {
    exists k :: 0 <= k < |children| && children[k].row.element == e
  }

  /** The rule the dragged row at `s` breaks first, if any. */
  function ViolationOf(f: seq<Node>, d: Dest, s: Path, autosort: bool): Option<Violation>
    requires DestValid(f, d) && ValidPath(f, s)
  {
    var r := NodeAt(f, s).row;
    var parent := MotionParent(f, d);
    var parentType := if parent.Some? then Some(NodeAt(f, parent.value).row.rtype) else None;
    var parentElement := if parent.Some? then NodeAt(f, parent.value).row.element else None;
    var destParentPath := MotionParentPath(f, d);
    if r.rtype == Menu && d.AtRow? && IsAncestor(s, d.path) then Some(IntoItself)
    else if Misplaced(r, parentType, parentElement, parent.Some?) then Some(InappropriatePosition)
    else if autosort && IsOptionLike(r.rtype) && StrIn(parentElement, [EXECUTE, "startupnotify"]) &&
            SameParent(Parent(s), destParentPath) then Some(AutosortSameParent)
    else if parentType.Some? && parentType.value in {Action, OptionBlock} && IsOptionLike(r.rtype) &&
            !SameParent(Parent(s), destParentPath) && ElementTaken(NodeAt(f, parent.value).children, r.element)
    then Some(OptionTwice)
    else if r.rtype == OptionRow && Is(r.element, "prompt") && StrIn(parentElement, [EXIT, SESSION_LOGOUT]) &&
            !StrIn(r.value, ["yes", "no"]) then Some(PromptNotYesNo)
    else None
  }

  predicate SourcesValid(f: seq<Node>, sources: seq<Path>) {
    forall j :: 0 <= j < |sources| ==> ValidPath(f, sources[j])
  }

  /** The first violation among the dragged rows, in their order. */
  function FirstViolation(f: seq<Node>, d: Dest, sources: seq<Path>, autosort: bool): Option<Violation>
    requires DestValid(f, d) && SourcesValid(f, sources)
    decreases |sources|
  {
    if sources == [] then None
    else
      var v := ViolationOf(f, d, sources[0], autosort);
      if v.Some? then v else FirstViolation(f, d, sources[1..], autosort)
  }

  /** The handler refuses the drop exactly when one of the dragged rows
      breaks a rule, and then reports the violation of the first such row. */
  lemma {:induction false} FirstViolationIff(f: seq<Node>, d: Dest, sources: seq<Path>, autosort: bool)
    requires DestValid(f, d) && SourcesValid(f, sources)
    ensures FirstViolation(f, d, sources, autosort).None? <==>
      forall j :: 0 <= j < |sources| ==> ViolationOf(f, d, sources[j], autosort).None?
    ensures FirstViolation(f, d, sources, autosort).Some? ==>
      exists j :: 0 <= j < |sources| && FirstViolation(f, d, sources, autosort) == ViolationOf(f, d, sources[j], autosort) &&
        forall k :: 0 <= k < j ==> ViolationOf(f, d, sources[k], autosort).None?
    decreases |sources|
  {
    if sources != [] {
      var rest := sources[1..];
      assert SourcesValid(f, rest) by {
        forall j | 0 <= j < |rest| ensures ValidPath(f, rest[j]) {
          assert rest[j] == sources[j + 1];
        }
      }
      FirstViolationIff(f, d, rest, autosort);
      forall j | 0 <= j < |rest| ensures rest[j] == sources[j + 1] {
      }
      if ViolationOf(f, d, sources[0], autosort).None? && FirstViolation(f, d, rest, autosort).Some? {
        var j :| 0 <= j < |rest| && FirstViolation(f, d, rest, autosort) == ViolationOf(f, d, rest[j], autosort) &&
          forall k :: 0 <= k < j ==> ViolationOf(f, d, rest[k], autosort).None?;
        assert forall k :: 0 <= k < j + 1 ==> ViolationOf(f, d, sources[k], autosort).None? by {
          forall k | 0 <= k < j + 1 ensures ViolationOf(f, d, sources[k], autosort).None? {
            if k > 0 {
              assert sources[k] == rest[k - 1];
            }
          }
        }
      }
    }
  }

  /** `streq (menu_element_txt_loop, menu_element_action_txt_loop)` over the
      children of the destination parent. */
  method FindSameOption(children: seq<Node>, e: Option<string>) returns (taken: bool)
    ensures taken <==> ElementTaken(children, e)
  {
    var k := 0;
    while k < |children|
      invariant 0 <= k <= |children|
      invariant forall j :: 0 <= j < k ==> children[j].row.element != e
    {
      if children[k].row.element == e {
        return true;
      }
      k := k + 1;
    }
    return false;
  }

  /** The checks of one pass of the handler's loop, in the handler's order. */
  method CheckDraggedRow(f: seq<Node>, d: Dest, s: Path, autosort: bool) returns (v: Option<Violation>)
    requires DestValid(f, d) && ValidPath(f, s)
    ensures v == ViolationOf(f, d, s, autosort)
  {
    var r := NodeAt(f, s).row;
    var parent := MotionParent(f, d);
    var parentType := if parent.Some? then Some(NodeAt(f, parent.value).row.rtype) else None;
    var parentElement := if parent.Some? then NodeAt(f, parent.value).row.element else None;
    var destParentPath := MotionParentPath(f, d);
    if r.rtype == Menu && d.AtRow? && IsAncestor(s, d.path) {
      return Some(IntoItself);
    }
    if Misplaced(r, parentType, parentElement, parent.Some?) {
      return Some(InappropriatePosition);
    }
    if autosort && IsOptionLike(r.rtype) && StrIn(parentElement, [EXECUTE, "startupnotify"]) &&
       SameParent(Parent(s), destParentPath) {
      return Some(AutosortSameParent);
    }
    if parentType.Some? && parentType.value in {Action, OptionBlock} && IsOptionLike(r.rtype) &&
       !SameParent(Parent(s), destParentPath) {
      var taken := FindSameOption(NodeAt(f, parent.value).children, r.element);
      if taken {
        return Some(OptionTwice);
      }
    }
    if r.rtype == OptionRow && Is(r.element, "prompt") && StrIn(parentElement, [EXIT, SESSION_LOGOUT]) &&
       !StrIn(r.value, ["yes", "no"]) {
      return Some(PromptNotYesNo);
    }
    return None;
  }

  /** `drag_motion_handler`: the dragged rows are checked in order and the
      drop is refused (TRUE, with drag status 0) at the first violation. */
  method DragMotion(f: seq<Node>, d: Dest, sources: seq<Path>, autosort: bool)
    returns (refused: bool, status: Option<Violation>)
    requires DestValid(f, d) && SourcesValid(f, sources)
    ensures status == FirstViolation(f, d, sources, autosort)
    ensures refused <==> exists j :: 0 <= j < |sources| && ViolationOf(f, d, sources[j], autosort).Some?
  {
    status := None;
    var k := 0;
    while k < |sources|
      invariant 0 <= k <= |sources|
      invariant FirstViolation(f, d, sources, autosort) == FirstViolation(f, d, sources[k..], autosort)
      invariant status.None?
    {
      assert sources[k..][0] == sources[k] && sources[k..][1..] == sources[k + 1..];
      status := CheckDraggedRow(f, d, sources[k], autosort);
      if status.Some? {
        break;
      }
      k := k + 1;
    }
    assert k == |sources| ==> sources[k..] == [];
    FirstViolationIff(f, d, sources, autosort);
    refused := status.Some?;
  }

  /** What an accepted drop guarantees for every dragged row `r` and the
      parent it lands under: a menu does not land inside itself; menus, pipe
      menus, items and separators land at the toplevel or under a menu;
      actions under an item; prompts under Execute, Exit or SessionLogout;
      commands under Execute or Restart; option blocks under Execute;
      startupnotify options under an option block; an option moving to
      another parent does not meet an option of the same name there; and a
      prompt moving into Exit or SessionLogout is "yes" or "no". */
  lemma AcceptedDrop(f: seq<Node>, d: Dest, sources: seq<Path>, autosort: bool, j: nat)
    requires DestValid(f, d) && SourcesValid(f, sources) && j < |sources|
    requires FirstViolation(f, d, sources, autosort).None?
    ensures var r := NodeAt(f, sources[j]).row;
      var parent := MotionParent(f, d);
      var pt := if parent.Some? then Some(NodeAt(f, parent.value).row.rtype) else None;
      var pe := if parent.Some? then NodeAt(f, parent.value).row.element else None;
      && !(r.rtype == Menu && d.AtRow? && IsAncestor(sources[j], d.path))
      && (r.visibility.Some? ==> parent.None? || pt == Some(Menu))
      && (r.rtype == Action ==> pt == Some(Item))
      && (r.rtype == OptionRow && Is(r.element, "prompt") ==>
            pt == Some(Action) && StrIn(pe, [EXECUTE, EXIT, SESSION_LOGOUT]))
      && (r.rtype == OptionRow && Is(r.element, "command") ==> pt == Some(Action) && StrIn(pe, [EXECUTE, RESTART]))
      && (r.rtype == OptionBlock ==> pt == Some(Action) && Is(pe, EXECUTE))
      && (r.rtype == OptionRow && StrIn(r.element, STARTUPNOTIFY_OPTIONS) ==> pt == Some(OptionBlock))
      && (autosort && IsOptionLike(r.rtype) && StrIn(pe, [EXECUTE, "startupnotify"]) ==>
            !SameParent(Parent(sources[j]), MotionParentPath(f, d)))
      && (IsOptionLike(r.rtype) && pt.Some? && pt.value in {Action, OptionBlock} &&
          !SameParent(Parent(sources[j]), MotionParentPath(f, d)) ==>
            !ElementTaken(NodeAt(f, parent.value).children, r.element))
      && (r.rtype == OptionRow && Is(r.element, "prompt") && StrIn(pe, [EXIT, SESSION_LOGOUT]) ==>
            StrIn(r.value, ["yes", "no"]))
  {
    FirstViolationIff(f, d, sources, autosort);
  }

  // ---------------------------------------------------------------------
  // drag_data_received_handler: where the copies go.

  /** `gtk_tree_path_next`. */
  function NextPath(p: Path): (p': Path)
    requires p != []
    ensures |p'| == |p| && Parent(p') == Parent(p) && p'[|p| - 1] == p[|p| - 1] + 1
  {
    p[|p| - 1 := p[|p| - 1] + 1]
  }

  /** The copies go under the row at `parent` (the toplevel for `[]`), the
      first at `index`; `appended` when they are inserted at position -1. */
  datatype Placement = Placement(parent: Path, index: nat, appended: bool)

  /** Below the last row the copies are appended at the toplevel, onto a row
      they are appended to its children; before or after a row they are
      inserted at its position (after: the next position), and appended when
      that position is past the last child. */
  function DropPlacement(f: seq<Node>, d: Dest): (pl: Placement)
    requires DestValid(f, d)
    ensures ValidParent(f, pl.parent) && pl.index <= |Kids(f, pl.parent)|
    ensures pl.appended ==> pl.index == |Kids(f, pl.parent)|
    ensures pl.parent != [] <==> DroppedOnto(d) || (d.AtRow? && |d.path| > 1)
    ensures DroppedOnto(d) ==> pl.parent == d.path
    ensures d.AtRow? && !DroppedOnto(d) ==> pl.parent == Parent(d.path)
  {
    if d.BelowLastRow? then Placement([], |f|, true)
    else if DroppedOnto(d) then Placement(d.path, |Kids(f, d.path)|, true)
    else
      var p := if d.position == After then NextPath(d.path) else d.path;
      KidsAt(f, d.path);
      if |p| == 1 then Placement([], p[0], false)
      else if ValidPath(f, p) then Placement(Parent(p), p[|p| - 1], false)
      else
        assert Parent(p) == Parent(d.path);
        InRangeValid(f, p);
        Placement(Parent(p), |Kids(f, Parent(p))|, true)
  }

  /** A path whose last index is within the children of its valid parent
      is valid. */
  lemma InRangeValid(f: seq<Node>, p: Path)
    requires p != [] && ValidParent(f, Parent(p))
    ensures p[|p| - 1] < |Kids(f, Parent(p))| ==> ValidPath(f, p)
  {
    if p[|p| - 1] < |Kids(f, Parent(p))| {
      ValidChild(f, Parent(p), p[|p| - 1]);
      assert Parent(p) + [p[|p| - 1]] == p;
    }
  }

  /** The type of the new parent, NULL at the toplevel. */
  function ParentType(f: seq<Node>, q: Path): Option<RowType>
    requires ValidParent(f, q)
  {
    if q == [] then None else Some(NodeAt(f, q).row.rtype)
  }

  /** The visibility of the new parent, NULL at the toplevel. */
  function ParentVisibility(f: seq<Node>, q: Path): Option<string>
    requires ValidParent(f, q)
  {
    if q == [] then None else NodeAt(f, q).row.visibility
  }

  // ---------------------------------------------------------------------
  // The visibility of the copies.

  /** `g_str_has_suffix`, which answers FALSE for NULL. */
  predicate EndsWith(v: Option<string>, suffix: string) {
    v.Some? && HasSuffix(v.value, suffix)
  }

  /** The visibility a dragged row gets at the toplevel (parent visibility
      NULL) or in a menu: an invisible unintegrated menu stays one at the
      toplevel; below a visible parent or at the toplevel an unlabelled row
      other than a separator becomes an invisible item or menu and any other
      row visible; below an invisible parent it becomes a descendant of an
      invisible (unintegrated) menu. */
  function RootVisibility(parentVisibility: Option<string>, r: Row): (v: string)
    ensures parentVisibility.Some? && parentVisibility != Some(VISIBLE) ==>
      v == (if EndsWith(parentVisibility, "invisible menu") then DSCT_OF_INVISIBLE else DSCT_OF_UNINTEGRATED)
  {
    if parentVisibility.None? || parentVisibility == Some(VISIBLE) then
      if parentVisibility.None? && r.visibility == Some(UNINTEGRATED) then UNINTEGRATED
      else if r.element.None? && r.rtype != Separator then (if r.rtype == Item then INVISIBLE_ITEM else INVISIBLE_MENU)
      else VISIBLE
    else if HasSuffix(parentVisibility.value, "invisible menu") then DSCT_OF_INVISIBLE
    else DSCT_OF_UNINTEGRATED
  }

  /** The dragged row as it is inserted: its visibility is recomputed when
      its new parent is the toplevel (or has a NULL type) or a menu. */
  function CopiedRoot(r: Row, parentType: Option<RowType>, parentVisibility: Option<string>): (r': Row)
    ensures r'.(visibility := r.visibility) == r
  {
    if parentType.None? || parentType == Some(Unknown) || parentType == Some(Menu) then
      r.(visibility := Some(RootVisibility(parentVisibility, r)))
    else r
  }

  /** A dragged labelled row (or separator) that lands in a menu gets the
      class a new row placed in that menu gets (`VisibilityOfNew`, with the
      menu's visibility as the invisible ancestor unless it is visible). */
  lemma DroppedLikeAdded(r: Row, parentVisibility: string)
    requires r.element.Some? || r.rtype == Separator
    ensures RootVisibility(Some(parentVisibility), r) ==
      VisibilityOfNew(true, if parentVisibility == VISIBLE then None else Some(parentVisibility))
  {
  }

  /** Step 2b of `subrows_creation_auxiliary` for a subrow `r` that has a
      visibility: `rootVisibility` is the new visibility of the dragged row,
      `ancestor` the nearest invisible ancestor between it and `r`. */
  function SubrowVisibility(rootVisibility: Option<string>, ancestor: Option<string>, r: Row): string {
    if EndsWith(rootVisibility, "unintegrated menu") then DSCT_OF_UNINTEGRATED
    else if EndsWith(rootVisibility, "invisible menu") || EndsWith(ancestor, "invisible menu") then DSCT_OF_INVISIBLE
    else if ancestor.None? && r.element.None? && r.rtype != Separator then
      (if r.rtype == Menu then INVISIBLE_MENU else INVISIBLE_ITEM)
    else VISIBLE
  }

  /** A subrow and its own subrows after step 2b, in the pre-order of
      `gtk_tree_model_foreach`: rows without a visibility are left alone;
      the children see the row's new visibility as their nearest invisible
      ancestor when it is invisible. */
  function AdjustSubrow(n: Node, rootVisibility: Option<string>, ancestor: Option<string>): (m: Node)
    ensures m.row.(visibility := n.row.visibility) == n.row
    ensures m.row.visibility.None? <==> n.row.visibility.None?
    ensures SameLayout(m.children, n.children)
    decreases n, 1
  {
    var v := if n.row.visibility.None? then None else Some(SubrowVisibility(rootVisibility, ancestor, n.row));
    var below := if IsInvisible(v) then v else ancestor;
    Node(n.row.(visibility := v), AdjustSubrows(n.children, rootVisibility, below))
  }

  function AdjustSubrows(ns: seq<Node>, rootVisibility: Option<string>, ancestor: Option<string>): (r: seq<Node>)
    ensures |r| == |ns| && SameLayout(r, ns)
    ensures forall k :: 0 <= k < |ns| ==> r[k] == AdjustSubrow(ns[k], rootVisibility, ancestor)
    decreases ns, 0
  {
    seq(|ns|, k requires 0 <= k < |ns| => AdjustSubrow(ns[k], rootVisibility, ancestor))
  }

  /** Every row of `ns` that has a visibility has the visibility `v`. */
  ghost predicate AllOfClass(ns: seq<Node>, v: string)
    decreases ns
  {
    forall k :: 0 <= k < |ns| ==>
      (ns[k].row.visibility.Some? ==> ns[k].row.visibility == Some(v)) && AllOfClass(ns[k].children, v)
  }

  /** Below a dragged row that became an (invisible) unintegrated menu or a
      descendant of one, every subrow with a visibility becomes a descendant
      of an invisible unintegrated menu. */
  lemma {:induction false} SubrowsOfUnintegrated(ns: seq<Node>, rootVisibility: Option<string>, ancestor: Option<string>)
    requires EndsWith(rootVisibility, "unintegrated menu")
    ensures AllOfClass(AdjustSubrows(ns, rootVisibility, ancestor), DSCT_OF_UNINTEGRATED)
    decreases ns
  {
    var r := AdjustSubrows(ns, rootVisibility, ancestor);
    forall k | 0 <= k < |ns| ensures AllOfClass(r[k].children, DSCT_OF_UNINTEGRATED) {
      var v := r[k].row.visibility;
      SubrowsOfUnintegrated(ns[k].children, rootVisibility, if IsInvisible(v) then v else ancestor);
    }
  }

  /** Below a dragged row that became an invisible menu or a descendant of
      one, every subrow with a visibility becomes a descendant of an
      invisible menu. */
  lemma {:induction false} SubrowsOfInvisible(ns: seq<Node>, rootVisibility: Option<string>, ancestor: Option<string>)
    requires EndsWith(rootVisibility, "invisible menu") && !EndsWith(rootVisibility, "unintegrated menu")
    ensures AllOfClass(AdjustSubrows(ns, rootVisibility, ancestor), DSCT_OF_INVISIBLE)
    decreases ns
  {
    var r := AdjustSubrows(ns, rootVisibility, ancestor);
    forall k | 0 <= k < |ns| ensures AllOfClass(r[k].children, DSCT_OF_INVISIBLE) {
      var v := r[k].row.visibility;
      SubrowsOfInvisible(ns[k].children, rootVisibility, if IsInvisible(v) then v else ancestor);
    }
  }

  /** The copy of a dragged row: the row with its new visibility and its
      subrows with theirs. */
  function Copy(n: Node, parentType: Option<RowType>, parentVisibility: Option<string>): (c: Node)
    ensures c.row.(visibility := n.row.visibility) == n.row
    ensures SameLayout([c], [n])
  {
    var root := CopiedRoot(n.row, parentType, parentVisibility);
    Node(root, AdjustSubrows(n.children, root.visibility, None))
  }

  /** Step 1 of `subrows_creation_auxiliary` and the copy loop: the subrows
      of the dragged row are listed in pre-order with their depths below it,
      then each is appended under the last row copied one level up
      (`subrow_iters`), which rebuilds them with their shape. */
  method CopySubrows(n: Node) returns (copied: seq<Node>)
    ensures copied == n.children
  {
    var walk := Flatten(n.children, 1);
    copied := [];
    var k := 0;
    while k < |walk|
      invariant 0 <= k <= |walk| && copied == Fold([], walk[..k])
    {
      FoldSnoc([], walk, k);
      copied := AppendAtDepth(copied, walk[k].depth, walk[k].row);
      k := k + 1;
    }
    assert walk[..k] == walk;
    FoldFlatten([], n.children);
    assert [] + n.children == n.children;
  }

  // ---------------------------------------------------------------------
  // Inserting the copies: the rows below the insertion point move down.

  /** Where the row at `p` is after `m` rows were inserted at index `i`
      among the children of the row at `q`: the index below `q` grows by `m`
      for the rows from index `i` on and their descendants. */
  function Shift(p: Path, q: Path, i: nat, m: nat): (p': Path)
    ensures |p'| == |p|
  {
    if |p| > |q| && p[..|q|] == q && p[|q|] >= i then p[|q| := p[|q|] + m] else p
  }

  lemma ShiftCons(t: nat, a: Path, b: Path, i: nat, m: nat)
    ensures Shift([t] + a, [t] + b, i, m) == [t] + Shift(a, b, i, m)
  {
    var p, q := [t] + a, [t] + b;
    if |a| > |b| {
      assert p[..|q|] == [t] + a[..|b|];
      assert p[..|q|] == q <==> a[..|b|] == b by {
        if p[..|q|] == q {
          assert a[..|b|] == p[..|q|][1..];
        }
      }
      assert p[|q|] == a[|b|];
      if a[..|b|] == b && a[|b|] >= i {
        assert p[|q| := p[|q|] + m] == [t] + a[|b| := a[|b|] + m];
      }
    }
  }

  /** Below the toplevel the first index never moves, and a path off the
      line of `q` does not move at all. */
  lemma ShiftHead(p: Path, q: Path, i: nat, m: nat)
    requires p != [] && q != []
    ensures Shift(p, q, i, m)[0] == p[0]
    ensures p[0] != q[0] ==> Shift(p, q, i, m) == p
  {
    if |p| > |q| && p[0] != q[0] {
      assert p[..|q|][0] != q[0];
    }
  }

  /** The block `ns` inserted at index `i` among the children of the row at
      `q`. */
  function InsertBlock(f: seq<Node>, q: Path, i: nat, ns: seq<Node>): (g: seq<Node>)
    requires ValidParent(f, q) && i <= |Kids(f, q)|
    ensures ValidParent(g, q) && Kids(g, q) == Kids(f, q)[..i] + ns + Kids(f, q)[i..]
  {
    SetKids(f, q, Kids(f, q)[..i] + ns + Kids(f, q)[i..])
  }

  /** Inserting one more row right after the block extends the block. */
  lemma InsertBlockStep(f: seq<Node>, q: Path, i: nat, ns: seq<Node>, n: Node)
    requires ValidParent(f, q) && i <= |Kids(f, q)|
    ensures i + |ns| <= |Kids(InsertBlock(f, q, i, ns), q)|
    ensures InsertNode(InsertBlock(f, q, i, ns), q, i + |ns|, n) == InsertBlock(f, q, i, ns + [n])
  {
    var K := Kids(f, q);
    var h := InsertBlock(f, q, i, ns);
    var Kh := K[..i] + ns + K[i..];
    assert Kh[..i + |ns|] == K[..i] + ns && Kh[i + |ns|..] == K[i..];
    assert Kh[..i + |ns|] + [n] + Kh[i + |ns|..] == K[..i] + (ns + [n]) + K[i..];
    SetKidsTwice(f, q, Kh, K[..i] + (ns + [n]) + K[i..]);
  }

  /** The next copy of the loop lands right after the earlier ones, whether
      it is inserted at the running position or appended. */
  lemma InsertCopyStep(f: seq<Node>, q: Path, i: nat, appended: bool, cs: seq<Node>, k: nat, at: nat)
    requires ValidParent(f, q) && i <= |Kids(f, q)| && (appended ==> i == |Kids(f, q)|) && k < |cs|
    requires at == if appended then |Kids(InsertBlock(f, q, i, cs[..k]), q)| else i + k
    ensures at <= |Kids(InsertBlock(f, q, i, cs[..k]), q)|
    ensures InsertNode(InsertBlock(f, q, i, cs[..k]), q, at, cs[k]) == InsertBlock(f, q, i, cs[..k + 1])
  {
    InsertBlockStep(f, q, i, cs[..k], cs[k]);
    assert cs[..k + 1] == cs[..k] + [cs[k]];
  }

  /** The tree gains exactly the IDs of the inserted block. */
  lemma InsertBlockIds(f: seq<Node>, q: Path, i: nat, ns: seq<Node>)
    requires ValidParent(f, q) && i <= |Kids(f, q)|
    ensures TreeIds(InsertBlock(f, q, i, ns)) == TreeIds(f) + TreeIds(ns)
  {
    var K := Kids(f, q);
    var a, b := K[..i], K[i..];
    var g := SetKids(f, q, a + ns + b);
    assert g == InsertBlock(f, q, i, ns);
    TreeIdsSetKids(f, q, a + ns + b);
    TreeIdsThree(a, ns, b);
    TreeIdsAround(K, i);
    AddBack(TreeIds(g), TreeIds(f), TreeIds(a), TreeIds(ns), TreeIds(b));
  }

  lemma TreeIdsAround(K: seq<Node>, i: nat)
    requires i <= |K|
    ensures TreeIds(K[..i]) + TreeIds(K[i..]) == TreeIds(K)
  {
    var a, b := K[..i], K[i..];
    assert a + b == K;
    TreeIdsConcat(a, b);
  }

  lemma TreeIdsThree(a: seq<Node>, b: seq<Node>, c: seq<Node>)
    ensures TreeIds(a + b + c) == TreeIds(a) + TreeIds(b) + TreeIds(c)
  {
    TreeIdsConcat(a + b, c);
    TreeIdsConcat(a, b);
  }

  lemma AddBack<T>(x: multiset<T>, f: multiset<T>, a: multiset<T>, n: multiset<T>, b: multiset<T>)
    requires x + (a + b) == f + (a + n + b)
    ensures x == f + n
  {
    assert f + (a + n + b) == (f + n) + (a + b);
    Tree.Cancel(x, f + n, a + b);
  }

  /** Every row that is neither the new parent nor one of its ancestors is
      found, unchanged, at its shifted path. */
  lemma {:induction false} ShiftedNode(f: seq<Node>, q: Path, i: nat, ns: seq<Node>, p: Path)
    requires ValidParent(f, q) && i <= |Kids(f, q)| && ValidPath(f, p) && p != q && !IsAncestor(p, q)
    ensures ValidPath(InsertBlock(f, q, i, ns), Shift(p, q, i, |ns|))
    ensures NodeAt(InsertBlock(f, q, i, ns), Shift(p, q, i, |ns|)) == NodeAt(f, p)
    decreases |q|
  {
    var g, p' := InsertBlock(f, q, i, ns), Shift(p, q, i, |ns|);
    if q == [] {
      assert p'[1..] == p[1..];
      assert g[p'[0]] == f[p[0]];
    } else {
      var t := q[0];
      if p[0] != t {
        ShiftHead(p, q, i, |ns|);
        assert g[p[0]] == f[p[0]];
      } else {
        assert q[..1] == [t];
        assert |p| > 1;
        assert p == [t] + p[1..] && q == [t] + q[1..];
        ConsPaths(t, p[1..], q[1..]);
        ShiftedNode(f[t].children, q[1..], i, ns, p[1..]);
        ShiftCons(t, p[1..], q[1..], i, |ns|);
        assert Kids(f, q) == Kids(f[t].children, q[1..]);
        assert g[t] == Node(f[t].row, InsertBlock(f[t].children, q[1..], i, ns));
      }
    }
  }

  /** Shifting keeps the order of paths. */
  lemma {:induction false} ShiftBefore(a: Path, b: Path, q: Path, i: nat, m: nat)
    requires PathBefore(a, b)
    ensures PathBefore(Shift(a, q, i, m), Shift(b, q, i, m))
    decreases |q|
  {
    var a', b' := Shift(a, q, i, m), Shift(b, q, i, m);
    if a != [] && b != [] {
      if q == [] {
        assert a'[1..] == a[1..] && b'[1..] == b[1..];
      } else if a[0] == b[0] && a[0] == q[0] {
        ShiftBefore(a[1..], b[1..], q[1..], i, m);
        assert a == [a[0]] + a[1..] && b == [b[0]] + b[1..] && q == [q[0]] + q[1..];
        ShiftCons(a[0], a[1..], q[1..], i, m);
        ShiftCons(b[0], b[1..], q[1..], i, m);
        assert a'[1..] == Shift(a[1..], q[1..], i, m) && b'[1..] == Shift(b[1..], q[1..], i, m);
      } else {
        ShiftHead(a, q, i, m);
        ShiftHead(b, q, i, m);
      }
    }
  }

  /** Shifting does not make a row the ancestor of another. */
  lemma {:induction false} ShiftNotAncestor(a: Path, b: Path, q: Path, i: nat, m: nat)
    requires IsAncestor(Shift(a, q, i, m), Shift(b, q, i, m))
    ensures IsAncestor(a, b)
    decreases |q|
  {
    var a', b' := Shift(a, q, i, m), Shift(b, q, i, m);
    if a != [] {
      assert b'[0] == a'[0];
      if q == [] {
        forall j | 0 <= j < |a| ensures b[j] == a[j] {
          if j > 0 {
            assert b'[..|a|][j] == a'[j];
          }
        }
        assert b[..|a|] == a;
      } else {
        ShiftHead(a, q, i, m);
        ShiftHead(b, q, i, m);
        if a[0] == q[0] {
          assert a == [a[0]] + a[1..] && b == [b[0]] + b[1..] && q == [q[0]] + q[1..];
          ShiftCons(a[0], a[1..], q[1..], i, m);
          ShiftCons(b[0], b[1..], q[1..], i, m);
          ConsPaths(a[0], Shift(a[1..], q[1..], i, m), Shift(b[1..], q[1..], i, m));
          ShiftNotAncestor(a[1..], b[1..], q[1..], i, m);
          ConsPaths(a[0], a[1..], b[1..]);
        }
      }
    }
  }

  // ---------------------------------------------------------------------
  // The dragged rows.

  /** No dragged row is an ancestor of a later one. */
  predicate Disjoint(ps: seq<Path>) {
    forall a, b :: 0 <= a < b < |ps| ==> !IsAncestor(ps[a], ps[b])
  }

  /** No dragged row is the row at `q` or one of its ancestors. */
  predicate Outside(ps: seq<Path>, q: Path) {
    forall k :: 0 <= k < |ps| ==> ps[k] != q && !IsAncestor(ps[k], q)
  }

  function Shifted(ps: seq<Path>, q: Path, i: nat, m: nat): (r: seq<Path>)
    ensures |r| == |ps| && forall k :: 0 <= k < |ps| ==> r[k] == Shift(ps[k], q, i, m)
  {
    seq(|ps|, k requires 0 <= k < |ps| => Shift(ps[k], q, i, m))
  }

  /** The rows at `ps`, with their subrows. */
  function NodesAt(f: seq<Node>, ps: seq<Path>): (ns: seq<Node>)
    requires SourcesValid(f, ps)
    ensures |ns| == |ps| && forall k :: 0 <= k < |ps| ==> ns[k] == NodeAt(f, ps[k])
  {
    seq(|ps|, k requires 0 <= k < |ps| => NodeAt(f, ps[k]))
  }

  /** After a block is inserted, the dragged rows are found at their
      shifted paths, still in order and still apart. */
  lemma ShiftedSources(f: seq<Node>, q: Path, i: nat, ns: seq<Node>, ps: seq<Path>)
    requires ValidParent(f, q) && i <= |Kids(f, q)|
    requires SourcesValid(f, ps) && Increasing(ps) && Disjoint(ps) && Outside(ps, q)
    ensures SourcesValid(InsertBlock(f, q, i, ns), Shifted(ps, q, i, |ns|))
    ensures NodesAt(InsertBlock(f, q, i, ns), Shifted(ps, q, i, |ns|)) == NodesAt(f, ps)
    ensures Increasing(Shifted(ps, q, i, |ns|)) && Disjoint(Shifted(ps, q, i, |ns|))
  {
    var g, sh := InsertBlock(f, q, i, ns), Shifted(ps, q, i, |ns|);
    forall k | 0 <= k < |ps| ensures ValidPath(g, sh[k]) && NodeAt(g, sh[k]) == NodeAt(f, ps[k]) {
      ShiftedNode(f, q, i, ns, ps[k]);
    }
    forall a, b | 0 <= a < b < |ps| ensures PathBefore(sh[a], sh[b]) && !IsAncestor(sh[a], sh[b]) {
      ShiftBefore(ps[a], ps[b], q, i, |ns|);
      if IsAncestor(sh[a], sh[b]) {
        ShiftNotAncestor(ps[a], ps[b], q, i, |ns|);
      }
    }
  }

  /** Removing a row keeps every earlier row that is not its ancestor, with
      all its subrows. */
  lemma {:induction false} RemoveKeepsEarlierNode(f: seq<Node>, b: Path, a: Path)
    requires ValidPath(f, a) && ValidPath(f, b) && PathBefore(a, b) && !IsAncestor(a, b)
    ensures ValidPath(RemoveNode(f, b), a) && NodeAt(RemoveNode(f, b), a) == NodeAt(f, a)
    decreases |b|
  {
    var f' := RemoveNode(f, b);
    if a[0] < b[0] {
      assert f'[a[0]] == f[a[0]];
    } else {
      assert a[0] == b[0] && |b| > 1 && |a| > 1;
      assert a == [a[0]] + a[1..] && b == [a[0]] + b[1..];
      ConsPaths(a[0], a[1..], b[1..]);
      RemoveKeepsEarlierNode(f[b[0]].children, b[1..], a[1..]);
    }
  }

  /** While the dragged rows are removed from the last to the first, the
      ones not yet removed are still there with all their subrows. */
  lemma {:induction false} PrunedKeepsNodes(h: seq<Node>, sel: seq<Path>, k: nat)
    requires Increasing(sel) && Disjoint(sel) && SourcesValid(h, sel) && k <= |sel|
    ensures forall j :: 0 <= j < k ==> ValidPath(Pruned(h, sel, k), sel[j]) && NodeAt(Pruned(h, sel, k), sel[j]) == NodeAt(h, sel[j])
    decreases |sel| - k
  {
    if k < |sel| {
      PrunedKeepsNodes(h, sel, k + 1);
      var h' := Pruned(h, sel, k + 1);
      forall j | 0 <= j < k
        ensures ValidPath(Pruned(h, sel, k), sel[j]) && NodeAt(Pruned(h, sel, k), sel[j]) == NodeAt(h, sel[j])
      {
        RemoveKeepsEarlierNode(h', sel[k], sel[j]);
      }
    }
  }

  /** Removing the dragged rows removes exactly their IDs and those of
      their subrows. */
  lemma {:induction false} PrunedIds(h: seq<Node>, sel: seq<Path>, k: nat)
    requires Increasing(sel) && Disjoint(sel) && SourcesValid(h, sel) && k <= |sel|
    ensures TreeIds(Pruned(h, sel, k)) + TreeIds(NodesAt(h, sel)[k..]) == TreeIds(h)
    decreases |sel| - k
  {
    var N := NodesAt(h, sel);
    if k == |sel| {
      assert N[k..] == [];
    } else {
      PrunedIds(h, sel, k + 1);
      PrunedKeepsNodes(h, sel, k + 1);
      var h' := Pruned(h, sel, k + 1);
      TreeIdsRemoveNode(h', sel[k]);
      assert N[k..][1..] == N[k + 1..];
      assert TreeIds(N[k..]) == RowIds(N[k].row) + TreeIds(N[k].children) + TreeIds(N[k + 1..]);
    }
  }

  // ---------------------------------------------------------------------
  // The drop.

  /** The copies of the dragged rows, in their order. */
  function Copies(f: seq<Node>, ps: seq<Path>, parentType: Option<RowType>, parentVisibility: Option<string>): (cs: seq<Node>)
    requires SourcesValid(f, ps)
    ensures |cs| == |ps| && SameLayout(cs, NodesAt(f, ps))
    ensures forall k :: 0 <= k < |ps| ==> cs[k] == Copy(NodeAt(f, ps[k]), parentType, parentVisibility)
  {
    var cs := seq(|ps|, k requires 0 <= k < |ps| => Copy(NodeAt(f, ps[k]), parentType, parentVisibility));
    assert forall k :: 0 <= k < |ps| ==> SameLayout([cs[k]], [NodeAt(f, ps[k])]);
    cs
  }

  /** The rows are dropped onto (or next to) one of the dragged rows. */
  predicate DestIsDragged(d: Dest, ps: seq<Path>) {
    d.AtRow? && d.path in ps
  }

  /** The tree after the drop: the copies are inserted at the placement,
      then the dragged rows are removed from their (shifted) paths. */
  function Dropped(f: seq<Node>, d: Dest, ps: seq<Path>): seq<Node>
    requires DestValid(f, d) && SourcesValid(f, ps) && Increasing(ps) && Disjoint(ps)
    requires Outside(ps, DropPlacement(f, d).parent)
  {
    var pl := DropPlacement(f, d);
    var cs := Copies(f, ps, ParentType(f, pl.parent), ParentVisibility(f, pl.parent));
    ShiftedSources(f, pl.parent, pl.index, cs, ps);
    Pruned(InsertBlock(f, pl.parent, pl.index, cs), Shifted(ps, pl.parent, pl.index, |cs|), 0)
  }

  /** A drop moves rows: the tree has the same menu IDs before and after,
      which is why `remove_rows ("dnd")` leaves the registry alone. */
  lemma DroppedKeepsIds(f: seq<Node>, d: Dest, ps: seq<Path>)
    requires DestValid(f, d) && SourcesValid(f, ps) && Increasing(ps) && Disjoint(ps)
    requires Outside(ps, DropPlacement(f, d).parent)
    ensures TreeIds(Dropped(f, d, ps)) == TreeIds(f)
  {
    var pl := DropPlacement(f, d);
    var cs := Copies(f, ps, ParentType(f, pl.parent), ParentVisibility(f, pl.parent));
    var h := InsertBlock(f, pl.parent, pl.index, cs);
    var sh := Shifted(ps, pl.parent, pl.index, |cs|);
    ShiftedSources(f, pl.parent, pl.index, cs, ps);
    InsertBlockIds(f, pl.parent, pl.index, cs);
    PrunedIds(h, sh, 0);
    assert NodesAt(h, sh)[0..] == NodesAt(f, ps);
    SameLayoutIds(cs, NodesAt(f, ps));
    Tree.Cancel(TreeIds(Dropped(f, d, ps)), TreeIds(f), TreeIds(cs));
  }

  /** A dragged menu that the motion handler accepts is neither the new
      parent nor one of its ancestors, unless the rows are dropped onto it,
      which the drop handler ignores. */
  lemma AcceptedMenuOutside(f: seq<Node>, d: Dest, s: Path, autosort: bool)
    requires DestValid(f, d) && ValidPath(f, s) && NodeAt(f, s).row.rtype == Menu
    requires ViolationOf(f, d, s, autosort).None? && !(d.AtRow? && d.path == s)
    ensures s != DropPlacement(f, d).parent && !IsAncestor(s, DropPlacement(f, d).parent)
  {
    var q := DropPlacement(f, d).parent;
    if d.AtRow? && !DroppedOnto(d) && |d.path| > 1 {
      AncestorOfAncestor(s, q, d.path);
    }
  }

  lemma AncestorOfAncestor(a: Path, b: Path, c: Path)
    requires IsAncestor(b, c)
    ensures IsAncestor(a, b) ==> IsAncestor(a, c)
  {
    if IsAncestor(a, b) {
      assert c[..|a|] == c[..|b|][..|a|];
    }
  }

  /** The loop over the dragged rows that ends the handler early when the
      destination is one of them. */
  method FindDest(ps: seq<Path>, p: Path) returns (found: bool)
    ensures found <==> p in ps
  {
    var j := 0;
    while j < |ps|
      invariant 0 <= j <= |ps| && p !in ps[..j]
    {
      if ps[j] == p {
        return true;
      }
      assert ps[..j + 1] == ps[..j] + [ps[j]];
      j := j + 1;
    }
    assert ps[..j] == ps;
    return false;
  }

  /** The copy of the dragged row at `s`: the root row with its visibility
      adjusted, then its subrows copied and adjusted below the new root. */
  method CopyRow(h: seq<Node>, s: Path, parentType: Option<RowType>, parentVisibility: Option<string>)
    returns (c: Node)
    requires ValidPath(h, s)
    ensures c == Copy(NodeAt(h, s), parentType, parentVisibility)
  {
    var n := NodeAt(h, s);
    var root := CopiedRoot(n.row, parentType, parentVisibility);
    var children := CopySubrows(n);
    if children != [] {
      children := AdjustSubrows(children, root.visibility, None);
    } else {
      assert AdjustSubrows(children, root.visibility, None) == [];
    }
    c := Node(root, children);
  }

  /** `drag_data_received_handler` up to the removal of the dragged rows:
      nothing happens when the destination is one of the dragged rows;
      otherwise each dragged row is copied, with its subrows, to the
      placement, one after the other (each read at its current path, which
      the earlier copies may have moved down), and then the dragged rows
      are removed with `remove_rows ("dnd")`. */
  method DragDataReceived(f: seq<Node>, ids: seq<string>, d: Dest, ps: seq<Path>, findShown: bool)
    returns (g: seq<Node>, ids': seq<string>, shown: bool)
    requires DestValid(f, d) && SourcesValid(f, ps) && Increasing(ps) && Disjoint(ps)
    requires !DestIsDragged(d, ps) ==> Outside(ps, DropPlacement(f, d).parent)
    ensures DestIsDragged(d, ps) ==> g == f
    ensures !DestIsDragged(d, ps) ==> g == Dropped(f, d, ps)
    ensures ids' == ids && TreeIds(g) == TreeIds(f)
    ensures shown <==> findShown && g != []
  {
    g, ids', shown := f, ids, findShown;
    if d.AtRow? {
      var found := FindDest(ps, d.path);
      if found {
        return;
      }
    }
    var pl := DropPlacement(f, d);
    var q, i := pl.parent, pl.index;
    var h := InsertCopies(f, q, i, pl.appended, ps);
    ghost var cs := Copies(f, ps, ParentType(f, q), ParentVisibility(f, q));
    ShiftedSources(f, q, i, cs, ps);
    DroppedKeepsIds(f, d, ps);
    g, ids', shown := RemoveRows(h, ids, Shifted(ps, q, i, |ps|), "dnd", findShown);
  }

  /** The loop of `drag_data_received_handler` over the dragged rows: each
      copy goes at `insertion_position++`, or is appended as the last child
      of the row at `q`. */
  method InsertCopies(f: seq<Node>, q: Path, i: nat, appended: bool, ps: seq<Path>) returns (h: seq<Node>)
    requires ValidParent(f, q) && i <= |Kids(f, q)| && (appended ==> i == |Kids(f, q)|)
    requires SourcesValid(f, ps) && Outside(ps, q)
    ensures h == InsertBlock(f, q, i, Copies(f, ps, ParentType(f, q), ParentVisibility(f, q)))
  {
    var parentType, parentVisibility := ParentType(f, q), ParentVisibility(f, q);
    ghost var cs := Copies(f, ps, parentType, parentVisibility);
    h := f;
    var position := i;
    var k := 0;
    assert Kids(f, q)[..i] + cs[..0] + Kids(f, q)[i..] == Kids(f, q);
    SetKidsSelf(f, q);
    while k < |ps|
      invariant 0 <= k <= |ps| && h == InsertBlock(f, q, i, cs[..k])
      invariant !appended ==> position == i + k
    {
      h, position := InsertCopy(f, q, i, appended, ps, k, h, position);
      k := k + 1;
    }
    assert cs[..k] == cs;
  }

  /** One turn of that loop: the copy of the `k`-th dragged row, read at
      its shifted path, is inserted after the earlier copies. */
  method InsertCopy(f: seq<Node>, q: Path, i: nat, appended: bool, ps: seq<Path>, k: nat, h: seq<Node>, position: nat)
    returns (h': seq<Node>, position': nat)
    requires ValidParent(f, q) && i <= |Kids(f, q)| && (appended ==> i == |Kids(f, q)|)
    requires SourcesValid(f, ps) && Outside(ps, q) && k < |ps|
    requires h == InsertBlock(f, q, i, Copies(f, ps, ParentType(f, q), ParentVisibility(f, q))[..k])
    requires !appended ==> position == i + k
    ensures h' == InsertBlock(f, q, i, Copies(f, ps, ParentType(f, q), ParentVisibility(f, q))[..k + 1])
    ensures !appended ==> position' == i + k + 1
  {
    var parentType, parentVisibility := ParentType(f, q), ParentVisibility(f, q);
    ghost var cs := Copies(f, ps, parentType, parentVisibility);
    ShiftedNode(f, q, i, cs[..k], ps[k]);
    var c := CopyRow(h, Shift(ps[k], q, i, k), parentType, parentVisibility);
    assert c == cs[k];
    var at;
    position' := position;
    if appended {
      at := |Kids(h, q)|;
    } else {
      at := position;
      position' := position + 1;
    }
    InsertCopyStep(f, q, i, appended, cs, k, at);
    h' := InsertNode(h, q, at, c);
  }

  // ---------------------------------------------------------------------
  // Sorting the moved options.

  /** Some copy is an option or an option block. */
  predicate MovesOptions(moved: seq<RowType>) {
    exists k :: 0 <= k < |moved| && IsOptionLike(moved[k])
  }

  /** The last loop of `drag_data_received_handler`, over the copies from
      the last to the first (`new_rows` is built by prepending): with
      autosorting on, an option or option block whose new parent has more
      than one child makes the handler sort that parent's children by the
      order `name` selects.  `q` is where the new parent is after the
      dragged rows were removed; `moved` holds the types of the copies. */
  method SortDroppedOptions(g: seq<Node>, q: Path, moved: seq<RowType>, autosort: bool, name: Option<string>)
    returns (g': seq<Node>)
    requires ValidParent(g, q)
    ensures ValidParent(g', q) && g' == SetKids(g, q, Kids(g', q))
    ensures multiset(Kids(g', q)) == multiset(Kids(g, q))
    ensures autosort && MovesOptions(moved) && |Kids(g, q)| > 1 ==> RankSorted(Kids(g', q), OptionsOf(name))
    ensures !(autosort && MovesOptions(moved) && |Kids(g, q)| > 1) ==> g' == g
  {
    g' := g;
    SetKidsSelf(g, q);
    var k := |moved|;
    ghost var sorted := false;
    while k > 0
      invariant 0 <= k <= |moved| && ValidParent(g', q) && g' == SetKids(g, q, Kids(g', q))
      invariant multiset(Kids(g', q)) == multiset(Kids(g, q))
      invariant sorted ==> RankSorted(Kids(g', q), OptionsOf(name))
      invariant sorted <==> autosort && |Kids(g, q)| > 1 && exists j :: k <= j < |moved| && IsOptionLike(moved[j])
      invariant !sorted ==> g' == g
    {
      k := k - 1;
      assert |Kids(g', q)| == |Kids(g, q)| by {
        assert |multiset(Kids(g', q))| == |multiset(Kids(g, q))|;
      }
      if autosort && IsOptionLike(moved[k]) && |Kids(g', q)| > 1 {
        var cs := SortExecuteOrStartupnotifyOptions(Kids(g', q), name);
        SetKidsTwice(g, q, Kids(g', q), cs);
        g' := SetKids(g', q, cs);
        sorted := true;
      }
    }
  }

  /** The name the handler passes to the sort: the element of the new
      parent, which it only reads when the rows are not dropped onto a row
      and the destination is below the toplevel. */
  function SortNameAsWritten(f: seq<Node>, d: Dest): Option<string>
    requires DestValid(f, d)
  {
    if d.AtRow? && !DroppedOnto(d) && |d.path| > 1 then
      PrefixValid(f, d.path, |d.path| - 1);
      NodeAt(f, Parent(d.path)).row.element
    else None
  }

  /** The element of the new parent, however the rows reached it. */
  function SortName(f: seq<Node>, d: Dest): (name: Option<string>)
    requires DestValid(f, d)
    ensures DropPlacement(f, d).parent != [] ==> name == NodeAt(f, DropPlacement(f, d).parent).row.element
  {
    var q := DropPlacement(f, d).parent;
    if q == [] then None else NodeAt(f, q).row.element
  }

  /** The two names agree except when the rows are dropped onto a row. */
  lemma SortNamesAgree(f: seq<Node>, d: Dest)
    requires DestValid(f, d) && !DroppedOnto(d)
    ensures SortNameAsWritten(f, d) == SortName(f, d)
  {
  }

  /** As written: rows dropped onto an Execute action are sorted by the
      startupnotify order, which ranks none of prompt, command and
      startupnotify, so the sort leaves Execute options as they are: a
      prompt dropped onto an Execute action with a command stays behind it. */
  lemma OntoExecuteLeftUnsorted(f: seq<Node>, d: Dest)
    requires DestValid(f, d) && DroppedOnto(d) && NodeAt(f, d.path).row.element == Some(EXECUTE)
    ensures OptionsOf(SortNameAsWritten(f, d)) == STARTUPNOTIFY_OPTIONS
    ensures var cs := [OptionNode("command"), OptionNode("prompt")];
      SortedOptions(cs, SortNameAsWritten(f, d)) == cs && !RankSorted(cs, EXECUTE_OPTIONS)
  {
    var cs := [OptionNode("command"), OptionNode("prompt")];
    var opts := STARTUPNOTIFY_OPTIONS;
    assert FirstWith(cs, 1, opts[0]) == None && FirstWith(cs, 1, opts[1]) == None;
    assert FirstWith(cs, 1, opts[2]) == None && FirstWith(cs, 1, opts[3]) == None;
    assert PlaceLowest(cs, 0, opts, 0) == cs;
    assert R(cs[0], EXECUTE_OPTIONS) == 1 && R(cs[1], EXECUTE_OPTIONS) == 0;
  }

  /** An option row with element `e` and no subrows. */
  function OptionNode(e: string): (n: Node)
    ensures n.row.rtype == OptionRow && n.row.element == Some(e) && n.children == []
  {
    Node(Row(OptionRow, Some(e), Some(""), None, None, None, None), [])
  }

  /** As written: the handler's last loop with the name it passes. */
  method SortAfterDropAsWritten(f: seq<Node>, d: Dest, g: seq<Node>, q: Path, moved: seq<RowType>, autosort: bool)
    returns (g': seq<Node>)
    requires DestValid(f, d) && ValidParent(g, q)
    ensures ValidParent(g', q) && g' == SetKids(g, q, Kids(g', q))
    ensures multiset(Kids(g', q)) == multiset(Kids(g, q))
    ensures autosort && MovesOptions(moved) && |Kids(g, q)| > 1 ==>
      RankSorted(Kids(g', q), OptionsOf(SortNameAsWritten(f, d)))
  {
    g' := SortDroppedOptions(g, q, moved, autosort, SortNameAsWritten(f, d));
  }

  /** Corrected: with the element of the new parent as the name, options
      moved into an Execute action end in the Execute order, and those
      moved into an option block in the startupnotify order, whether they
      were dropped onto the parent or next to a sibling. */
  method SortAfterDrop(f: seq<Node>, d: Dest, g: seq<Node>, q: Path, moved: seq<RowType>, autosort: bool)
    returns (g': seq<Node>)
    requires DestValid(f, d) && ValidParent(g, q)
    ensures ValidParent(g', q) && g' == SetKids(g, q, Kids(g', q))
    ensures multiset(Kids(g', q)) == multiset(Kids(g, q))
    ensures autosort && MovesOptions(moved) && |Kids(g, q)| > 1 && DropPlacement(f, d).parent != [] ==>
      RankSorted(Kids(g', q), if NodeAt(f, DropPlacement(f, d).parent).row.element == Some(EXECUTE)
                              then EXECUTE_OPTIONS else STARTUPNOTIFY_OPTIONS)
    ensures !(autosort && MovesOptions(moved) && |Kids(g, q)| > 1) ==> g' == g
  {
    g' := SortDroppedOptions(g, q, moved, autosort, SortName(f, d));
  }
}
