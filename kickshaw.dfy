/*
 * Queries over the tree that the editor's parts share: the toplevel row of a
 * path, which options an action or option block already has, the nearest
 * invisible ancestor of a row, and the rules by which a cell is shown
 * (editable, as a toggle, highlighted as invisible).
 */
module Kickshaw {
  import opened Rows
  import opened Tree

  /** `get_toplevel_iter_from_path`: the path of the toplevel row above (or
      at) `p`. */
  function ToplevelPath(p: Path): (t: Path)
    requires p != []
    ensures |t| == 1 && t[0] == p[0]
    ensures t == p || IsAncestor(t, p)
  {
    [p[0]]
  }

  // ---------------------------------------------------------------------
  // Existing options.

  /** Some direct child's element is `name`. */
  predicate HasChild(children: seq<Node>, name: string) {
    exists c :: 0 <= c < |children| && children[c].row.element == Some(name)
  }

  /** `check_for_existing_options`: for every child and every option, the
      option's flag is raised when the child's element is that option.  A
      flag that is already raised stays raised. */
  method CheckForExistingOptions(children: seq<Node>, options: seq<string>, optsExist: array<bool>)
    requires optsExist.Length == |options| && |options| < 256
    modifies optsExist
    ensures forall i :: 0 <= i < |options| ==> (optsExist[i] <==> old(optsExist[i]) || HasChild(children, options[i]))
  {
    var c := 0;
    while c < |children|
      invariant 0 <= c <= |children|
      invariant forall i :: 0 <= i < |options| ==>
        (optsExist[i] <==> old(optsExist[i]) || exists d :: 0 <= d < c && children[d].row.element == Some(options[i]))
    {
      var element := children[c].row.element;
      var o := 0;
      while o < |options|
        invariant 0 <= o <= |options|
        invariant forall i :: 0 <= i < |options| ==>
          (optsExist[i] <==> old(optsExist[i]) || (exists d :: 0 <= d < c && children[d].row.element == Some(options[i]))
                             || (i < o && element == Some(options[i])))
      {
        if element == Some(options[o]) {
          optsExist[o] := true;
        }
        o := o + 1;
      }
      c := c + 1;
    }
  }

  // ---------------------------------------------------------------------
  // Invisible ancestors and descendants.

  /** The visibility of the ancestor of `p` at depth `k`. */
  function AncestorVisibility(f: seq<Node>, p: Path, k: nat): Option<string>
    requires ValidPath(f, p) && 1 <= k < |p|
  {
    PrefixValid(f, p, k);
    NodeAt(f, p[..k]).row.visibility
  }

  /** The visibility of the nearest proper ancestor of `p` whose visibility
      starts with "invisible"; `None` when there is no such ancestor. */
  function NearestInvisibleAncestor(f: seq<Node>, p: Path): Option<string>
    requires ValidPath(f, p)
    decreases |p|
  {
    if |p| == 1 then None
    else
      PrefixValid(f, p, |p| - 1);
      var v := NodeAt(f, Parent(p)).row.visibility;
      if IsInvisible(v) then v else NearestInvisibleAncestor(f, Parent(p))
  }

  /** `check_if_invisible_ancestor_exists`: NULL for a toplevel row;
      otherwise the path is moved up one level at a time until an ancestor
      with an invisible visibility is found or the toplevel is reached. */
  method CheckIfInvisibleAncestorExists(f: seq<Node>, p: Path) returns (v: Option<string>)
    requires ValidPath(f, p)
    ensures v == NearestInvisibleAncestor(f, p)
  {
    if |p| == 1 {
      return None;
    }
    var pathCopy := p;
    while true
      invariant 1 < |pathCopy| <= |p| && ValidPath(f, pathCopy)
      invariant NearestInvisibleAncestor(f, pathCopy) == NearestInvisibleAncestor(f, p)
      decreases |pathCopy|
    {
      PrefixValid(f, pathCopy, |pathCopy| - 1);
      pathCopy := Parent(pathCopy);
      var visibility := NodeAt(f, pathCopy).row.visibility;
      if IsInvisible(visibility) {
        return visibility;
      }
      if |pathCopy| == 1 {
        return None;
      }
    }
  }

  /** The nearest invisible ancestor, stated by depths: when there is one, it
      is an ancestor whose visibility is invisible and no deeper ancestor's
      is; when there is none, no ancestor's visibility is invisible. */
  lemma {:induction false} NearestInvisibleAncestorIff(f: seq<Node>, p: Path)
    requires ValidPath(f, p)
    ensures var v := NearestInvisibleAncestor(f, p);
      (v == None <==> forall k :: 1 <= k < |p| ==> !IsInvisible(AncestorVisibility(f, p, k))) &&
      (v != None ==> exists k :: 1 <= k < |p| && v == AncestorVisibility(f, p, k) && IsInvisible(v) &&
                       forall k' :: k < k' < |p| ==> !IsInvisible(AncestorVisibility(f, p, k')))
    decreases |p|
  {
    if |p| > 1 {
      var q := Parent(p);
      PrefixValid(f, p, |p| - 1);
      NearestInvisibleAncestorIff(f, q);
      forall k | 1 <= k < |q| ensures AncestorVisibility(f, q, k) == AncestorVisibility(f, p, k) {
        assert q[..k] == p[..k];
      }
      assert AncestorVisibility(f, p, |q|) == NodeAt(f, q).row.visibility by {
        assert p[..|q|] == q;
      }
    }
  }

  /** Two forests that agree on the rows above `p` agree on its nearest
      invisible ancestor. */
  lemma {:induction false} NearestInvisibleAncestorOfLine(f1: seq<Node>, f2: seq<Node>, p: Path)
    requires ValidPath(f1, p) && ValidPath(f2, p)
    requires forall k :: 1 <= k < |p| ==> AncestorVisibility(f1, p, k) == AncestorVisibility(f2, p, k)
    ensures NearestInvisibleAncestor(f1, p) == NearestInvisibleAncestor(f2, p)
    decreases |p|
  {
    if |p| > 1 {
      var q := Parent(p);
      PrefixValid(f1, p, |p| - 1);
      PrefixValid(f2, p, |p| - 1);
      assert p[..|q|] == q;
      assert AncestorVisibility(f1, p, |q|) == AncestorVisibility(f2, p, |q|);
      forall k | 1 <= k < |q| ensures AncestorVisibility(f1, q, k) == AncestorVisibility(f2, q, k) {
        assert q[..k] == p[..k];
        assert AncestorVisibility(f1, p, k) == AncestorVisibility(f2, p, k);
      }
      NearestInvisibleAncestorOfLine(f1, f2, q);
    }
  }

  /** `check_if_invisible_descendant_exists`, for one row: the row has no
      label and is not a separator. */
  predicate IsUnlabelled(r: Row) {
    r.element == None && r.rtype != Separator
  }

  // ---------------------------------------------------------------------
  // How a cell is shown.

  /** The cell of `column` of a row can be edited: the element of a
      separator or of a labelled menu, pipe menu or item; the value of an
      option; the menu ID of a menu or pipe menu; the execute string of a
      pipe menu. */
  predicate Editable(r: Row, column: nat) {
    (column == COL_MENU_ELEMENT &&
      (r.rtype == Separator || (r.element.Some? && (r.rtype == Menu || r.rtype == PipeMenu || r.rtype == Item)))) ||
    (column == COL_VALUE && r.rtype == OptionRow) ||
    (column == COL_MENU_ID && IsMenuOrPipe(r.rtype)) ||
    (column == COL_EXECUTE && r.rtype == PipeMenu)
  }

  /** Only menus and pipe menus have an editable menu ID, and an unlabelled
      menu, pipe menu or item must be visualised before its label can be
      edited. */
  lemma EditableColumns(r: Row)
    ensures Editable(r, COL_MENU_ID) <==> r.rtype == Menu || r.rtype == PipeMenu
    ensures IsMenuLevel(r.rtype) && r.rtype != Separator && r.element == None ==> !Editable(r, COL_MENU_ELEMENT)
    ensures !Editable(r, COL_TYPE) && !Editable(r, COL_ELEMENT_VISIBILITY)
  {
  }

  /** The value column of a "prompt" or "enabled" option whose parent is not
      an Execute action is shown as a toggle: the prompt of Exit or
      SessionLogout and the "enabled" option of a startupnotify block, but
      never the prompt of Execute, which is free text. */
  predicate ShownAsToggle(r: Row, parentElement: Option<string>, column: nat): (t: bool)
    ensures t ==> column == COL_VALUE && r.rtype == OptionRow && StrIn(r.element, ["prompt", "enabled"])
    ensures r.element == Some("prompt") && parentElement == Some(EXECUTE) ==> !t
    ensures (column == COL_VALUE && r.rtype == OptionRow && r.element == Some("enabled") &&
             parentElement == Some("startupnotify")) ==> t
    ensures (column == COL_VALUE && r.rtype == OptionRow && r.element == Some("prompt") &&
             StrIn(parentElement, [EXIT, SESSION_LOGOUT])) ==> t
  {
    column == COL_VALUE && r.rtype == OptionRow && StrIn(r.element, ["prompt", "enabled"]) &&
    parentElement != Some(EXECUTE)
  }

  /** The toggle is active when the value is "yes". */
  predicate ToggleActive(r: Row) {
    r.value == Some("yes")
  }

  /** The background class of a row: not highlighted, an invisible row
      (integrated), or an invisible row of an unintegrated menu. */
  datatype Highlight = NoHighlight | IntegratedInvisible | UnintegratedInvisible

  /** The highlight of a row with visibility `own`.  The ancestor lookup
      (`ancestor`, the result of `check_if_invisible_ancestor_exists`) is only
      made when the row's own visibility is NULL or "visible". */
  function RowHighlight(own: Option<string>, ancestor: Option<string>): (h: Highlight)
    ensures h == NoHighlight <==> (own == None || own == Some(VISIBLE)) && ancestor == None
  {
    if own.Some? && own != Some(VISIBLE) then
      if HasSuffix(own.value, "unintegrated menu") then UnintegratedInvisible else IntegratedInvisible
    else if ancestor.Some? then
      if HasSuffix(ancestor.value, "unintegrated menu") then UnintegratedInvisible else IntegratedInvisible
    else NoHighlight
  }

  /** Of the visibility classes, exactly the unintegrated menu and its
      descendants are highlighted as unintegrated; the others are
      highlighted as integrated invisible rows. */
  lemma HighlightOfClasses(ancestor: Option<string>)
    ensures RowHighlight(Some(UNINTEGRATED), ancestor) == UnintegratedInvisible
    ensures RowHighlight(Some(DSCT_OF_UNINTEGRATED), ancestor) == UnintegratedInvisible
    ensures RowHighlight(Some(INVISIBLE_MENU), ancestor) == IntegratedInvisible
    ensures RowHighlight(Some(INVISIBLE_ITEM), ancestor) == IntegratedInvisible
    ensures RowHighlight(Some(DSCT_OF_INVISIBLE), ancestor) == IntegratedInvisible
  {
    UnintegratedSuffix();
    DescendantOfUnintegratedSuffix();
    DescendantOfInvisibleSuffix();
  }

  lemma UnintegratedSuffix()
    ensures HasSuffix(UNINTEGRATED, "unintegrated menu")
  {
    assert UNINTEGRATED[|UNINTEGRATED| - 17..] == "unintegrated menu";
  }

  lemma DescendantOfUnintegratedSuffix()
    ensures HasSuffix(DSCT_OF_UNINTEGRATED, "unintegrated menu")
  {
    assert DSCT_OF_UNINTEGRATED[|DSCT_OF_UNINTEGRATED| - 17..] == "unintegrated menu";
  }

  lemma DescendantOfInvisibleSuffix()
    ensures !HasSuffix(DSCT_OF_INVISIBLE, "unintegrated menu")
  {
    assert DSCT_OF_INVISIBLE[|DSCT_OF_INVISIBLE| - 17] == 'o';
  }

  /** `change_view_and_options`: the view items "menu ID column", "execute
      column" and "element visibility column" (0 to 2) each show or hide the
      column three places further on. */
  function ColumnOfViewItem(item: nat): (column: nat)
    requires item <= 2
    ensures column == [COL_MENU_ID, COL_EXECUTE, COL_ELEMENT_VISIBILITY][item]
  {
    item + 3
  }
}
