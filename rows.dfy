/*
 * The rows of a Kickshaw menu document.
 *
 * Every row of the editor's tree store carries a type, a menu element (the
 * label of a menu, pipe menu, item or separator, the name of an action or of
 * an option), a value (options only), a menu ID, an execute string (pipe
 * menus), an icon path and a visibility class.  Absent fields are NULL in the
 * tree store and `None` here.
 */
module Rows {

  datatype Option<T> = None | Some(value: T)

  /** The seven row types ("menu", "pipe menu", "item", "separator", "action",
      "option", "option block"); `Unknown` is the NULL type the loader gives to
      an element it does not recognise. */
  datatype RowType = Menu | PipeMenu | Item | Separator | Action | OptionRow | OptionBlock | Unknown

  datatype Row = Row(
    rtype: RowType,
    element: Option<string>,
    value: Option<string>,
    menuId: Option<string>,
    execute: Option<string>,
    icon: Option<string>,
    visibility: Option<string>)

  /** A row together with its children, in sibling order. */
  datatype Node = Node(row: Row, children: seq<Node>)

  // The visibility classes of menus, pipe menus, items and separators.
  const VISIBLE := "visible"
  const INVISIBLE_MENU := "invisible menu"
  const INVISIBLE_ITEM := "invisible item"
  const UNINTEGRATED := "invisible unintegrated menu"
  const DSCT_OF_INVISIBLE := "invisible dsct. of invisible menu"
  const DSCT_OF_UNINTEGRATED := "invisible dsct. of invisible unintegrated menu"

  // Action names and option names.
  const EXECUTE := "Execute"
  const EXIT := "Exit"
  const RECONFIGURE := "Reconfigure"
  const RESTART := "Restart"
  const SESSION_LOGOUT := "SessionLogout"
  const ACTIONS: seq<string> := [EXECUTE, EXIT, RECONFIGURE, RESTART, SESSION_LOGOUT]
  const EXECUTE_OPTIONS: seq<string> := ["prompt", "command", "startupnotify"]
  const STARTUPNOTIFY_OPTIONS: seq<string> := ["enabled", "name", "wmclass", "icon"]

  // The columns of the tree view.
  const COL_MENU_ELEMENT := 0
  const COL_TYPE := 1
  const COL_VALUE := 2
  const COL_MENU_ID := 3
  const COL_EXECUTE := 4
  const COL_ELEMENT_VISIBILITY := 5

  const NEWLY_CREATED_LABEL := "(Newly created label)"

  /** Menus, pipe menus, items and separators: the rows that carry a visibility. */
  predicate IsMenuLevel(t: RowType) {
    t == Menu || t == PipeMenu || t == Item || t == Separator
  }

  predicate IsMenuOrPipe(t: RowType) {
    t == Menu || t == PipeMenu
  }

  predicate IsOptionLike(t: RowType) {
    t == OptionRow || t == OptionBlock
  }

  /** `streq_any` with GLib's NULL-safe equality: NULL equals no candidate. */
  predicate StrIn(s: Option<string>, candidates: seq<string>) {
    s.Some? && s.value in candidates
  }

  /** `streq` against a literal. */
  predicate Is(s: Option<string>, lit: string) {
    s == Some(lit)
  }

  predicate HasPrefix(s: string, p: string) {
    |p| <= |s| && s[..|p|] == p
  }

  predicate HasSuffix(s: string, p: string) {
    |p| <= |s| && s[|s| - |p|..] == p
  }

  /** The visibility starts with "invisible". */
  predicate IsInvisible(v: Option<string>) {
    v.Some? && HasPrefix(v.value, "invisible")
  }

  /** The invisible classes are recognised as such. */
  lemma InvisibleClasses()
    ensures IsInvisible(Some(INVISIBLE_MENU)) && IsInvisible(Some(INVISIBLE_ITEM))
    ensures IsInvisible(Some(UNINTEGRATED)) && IsInvisible(Some(DSCT_OF_INVISIBLE))
    ensures IsInvisible(Some(DSCT_OF_UNINTEGRATED)) && !IsInvisible(Some(VISIBLE))
  {
    assert INVISIBLE_MENU[..9] == "invisible";
    assert INVISIBLE_ITEM[..9] == "invisible";
    assert UNINTEGRATED[..9] == "invisible";
    assert DSCT_OF_INVISIBLE[..9] == "invisible";
    assert DSCT_OF_UNINTEGRATED[..9] == "invisible";
  }

  function WithVisibility(r: Row, v: Option<string>): (r': Row)
    ensures r'.visibility == v && r'.(visibility := r.visibility) == r
  {
    r.(visibility := v)
  }

  function WithElement(r: Row, e: Option<string>): (r': Row)
    ensures r'.element == e && r'.(element := r.element) == r
  {
    r.(element := e)
  }

  /** No string occurs twice in the list. */
  predicate Distinct(ids: seq<string>) {
    ids == [] || (ids[0] !in ids[1..] && Distinct(ids[1..]))
  }

  /** Distinct, stated by positions (both directions). */
  lemma {:induction false} DistinctIff(ids: seq<string>)
    ensures Distinct(ids) <==> forall i, j :: 0 <= i < j < |ids| ==> ids[i] != ids[j]
  {
    if ids != [] {
      DistinctIff(ids[1..]);
      if forall i, j :: 0 <= i < j < |ids| ==> ids[i] != ids[j] {
        assert forall i, j :: 0 <= i < j < |ids[1..]| ==> ids[1..][i] != ids[1..][j] by {
          forall i, j | 0 <= i < j < |ids[1..]| ensures ids[1..][i] != ids[1..][j] {
            assert ids[1..][i] == ids[i + 1] && ids[1..][j] == ids[j + 1];
          }
        }
      }
      if Distinct(ids) {
        forall i, j | 0 <= i < j < |ids| ensures ids[i] != ids[j] {
          DistinctAt(ids, i, j);
        }
      }
    }
  }

  /** Distinct, stated by positions. */
  lemma {:induction false} DistinctAt(ids: seq<string>, i: nat, j: nat)
    requires Distinct(ids) && i < j < |ids|
    ensures ids[i] != ids[j]
  {
    if i == 0 {
      assert ids[j] == ids[1..][j - 1];
    } else {
      DistinctAt(ids[1..], i - 1, j - 1);
    }
  }

  function Reverse<T>(s: seq<T>): (r: seq<T>)
    ensures |r| == |s| && forall k :: 0 <= k < |s| ==> r[k] == s[|s| - 1 - k]
  {
    if s == [] then [] else Reverse(s[1..]) + [s[0]]
  }

  lemma ReverseReverse<T>(s: seq<T>)
    ensures Reverse(Reverse(s)) == s
  {
  }

  /** Reversing puts an appended element first. */
  lemma ReverseSnoc<T>(s: seq<T>, x: T)
    ensures Reverse(s + [x]) == [x] + Reverse(s)
  {
  }
}
