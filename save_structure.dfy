/*
 * Why a saved menu is well nested.
 *
 * `closing_tags` never looks at the tree: from the previous and the current
 * row of the walk alone it decides which `</startupnotify>`, `</action>`,
 * `</item>` and `</menu>` lines to write and how far to indent them.  For a
 * menu of the shape the editor builds (menus hold menus, pipe menus, items
 * and separators; items hold actions; actions hold the options "prompt" and
 * "command" and an empty-valued "startupnotify" block; that block holds its
 * options), the lines written below a menu or item are exactly its nested
 * form: each row's line, then the lines of its children, then its closing
 * tag at its own indentation.
 */
module SaveStructure {
  import opened Rows
  import opened SaveMenu

  const ACTION_OPTIONS: seq<string> := ["prompt", "command"]

  /** A row that may stand below a row of type `parent`. */
  predicate Fits(r: Row, parent: RowType) {
    match parent
    case Menu => IsMenuLevel(r.rtype)
    case Item => r.rtype == Action
    case Action =>
      (r.rtype == OptionRow && StrIn(r.element, ACTION_OPTIONS))
      || (r.rtype == OptionBlock && Is(r.element, "startupnotify") && r.value.None?)
    case OptionBlock => r.rtype == OptionRow && StrIn(r.element, STARTUPNOTIFY_OPTIONS)
    case _ => false
  }

  /** The rows that hold others. */
  predicate Holds(t: RowType) {
    t == Menu || t == Item || t == Action || t == OptionBlock
  }

  /** Every row of `f` fits below `parent`, and only rows that hold others
      have children, which are well formed below them in turn. */
  predicate WellFormed(f: seq<Node>, parent: RowType)
    decreases f
  {
    f == [] ||
    (Fits(f[0].row, parent) && (f[0].children != [] ==> Holds(f[0].row.rtype))
     && WellFormed(f[0].children, f[0].row.rtype) && WellFormed(f[1..], parent))
  }

  /** The open rows a walk can be inside of: `t` directly below `parent`. */
  predicate Encloses(parent: RowType, t: RowType) {
    (parent == Menu && (t == Menu || t == Item)) || (parent == Item && t == Action) || (parent == Action && t == OptionBlock)
  }

  /** The row `process_menu_or_item` is called on: a menu in the menus
      stage, an item in the root stage. */
  function Top(stage: Stage): RowType {
    if stage == Menus then Menu else Item
  }

  /** The types of the open rows around a row of the walk, from the
      processed row (depth 0) to its parent. */
  predicate Chain(stage: Stage, a: seq<RowType>) {
    |a| >= 1 && a[0] == Top(stage) && forall j :: 1 <= j < |a| ==> Encloses(a[j - 1], a[j])
  }

  // ---------------------------------------------------------------------
  // The nested form.

  /** The indentation units of a row at depth `d`. */
  function Unit(stage: Stage, d: nat): nat {
    Count(Offset(stage), d + 1)
  }

  function CloseTag(t: RowType): string {
    match t
    case Menu => "</menu>"
    case Item => "</item>"
    case Action => "</action>"
    case OptionBlock => "</startupnotify>"
    case _ => ""
  }

  /** The closing tag of an open row at depth `d`, at the row's own
      indentation. */
  function CloseLine(stage: Stage, d: nat, t: RowType): string {
    Indent(Unit(stage, d)) + CloseTag(t)
  }

  /** Each row's line, then the lines of its children and its closing tag
      at its own indentation.  The line of a row is left as a parameter:
      `RowLineOf(stage)` is the one `save_menu` writes. */
  function Nested(stage: Stage, f: seq<Node>, d: nat, line: Visit -> string): seq<string>
    decreases f
  {
    if f == [] then []
    else [line(Visit(d, EscapedRow(f[0].row), f[0].children != []))]
         + (if f[0].children != [] then Nested(stage, f[0].children, d + 1, line) + [CloseLine(stage, d, f[0].row.rtype)] else [])
         + Nested(stage, f[1..], d, line)
  }

  function RowLineOf(stage: Stage): Visit -> string {
    v => RowLine(stage, v)
  }

  /** The closing tags of the open rows at depths `hi - 1` down to `lo`. */
  function Closers(stage: Stage, a: seq<RowType>, lo: nat, hi: nat): (ls: seq<string>)
    requires hi <= |a|
    ensures |ls| == Count(lo, hi)
    decreases hi - lo
  {
    if lo >= hi then [] else [CloseLine(stage, hi - 1, a[hi - 1])] + Closers(stage, a, lo, hi - 1)
  }

  /** The depth the walk climbs back to: that of the next row, or at the
      end 1 in the menus stage (the toplevel `</menu>` is written by
      `save_menu`) and 0 in the root stage. */
  function Level(stage: Stage, nx: Option<Visit>): nat {
    match nx
    case None => if stage == Menus then 1 else 0
    case Some(x) => x.depth
  }

  /** The next row can follow a row inside the open rows `a`. */
  predicate Compatible(a: seq<RowType>, nx: Option<Visit>) {
    match nx
    case None => true
    case Some(x) => 1 <= x.depth <= |a| && Fits(x.row, a[x.depth - 1])
  }

  // ---------------------------------------------------------------------
  // The open rows.

  lemma {:induction false} ChainMenus(stage: Stage, a: seq<RowType>, j: nat)
    requires Chain(stage, a) && j < |a| && a[j] == Menu
    ensures stage == Menus && forall i :: 0 <= i <= j ==> a[i] == Menu
    decreases j
  {
    if j > 0 {
      ChainMenus(stage, a, j - 1);
    }
  }

  /** An open item is the processed row in the root stage, or lies
      inside menus only. */
  lemma {:induction false} ChainItem(stage: Stage, a: seq<RowType>, j: nat)
    requires Chain(stage, a) && j < |a| && a[j] == Item
    ensures j == 0 ==> stage == RootMenu
    ensures j > 0 ==> stage == Menus && forall i :: 0 <= i < j ==> a[i] == Menu
  {
    if j > 0 {
      ChainMenus(stage, a, j - 1);
    }
  }

  lemma {:induction false} ChainGrows(stage: Stage, a: seq<RowType>, t: RowType)
    requires Chain(stage, a) && Encloses(a[|a| - 1], t)
    ensures Chain(stage, a + [t])
  {
    var b := a + [t];
    forall j | 1 <= j < |b| ensures Encloses(b[j - 1], b[j]) {
      if j < |a| {
        assert b[j - 1] == a[j - 1] && b[j] == a[j];
      }
    }
  }

  // ---------------------------------------------------------------------
  // Closing tags.

  lemma {:induction false} ClosersFrame(stage: Stage, a: seq<RowType>, t: RowType, lo: nat, hi: nat)
    requires hi <= |a|
    ensures Closers(stage, a + [t], lo, hi) == Closers(stage, a, lo, hi)
    decreases hi
  {
    if lo < hi {
      ClosersFrame(stage, a, t, lo, hi - 1);
      assert (a + [t])[hi - 1] == a[hi - 1];
    }
  }

  /** `closing_tags`'s loop writes the deepest `</menu>` first. */
  lemma {:induction false} MenuClosesPeel(from: int, downto: int)
    requires downto <= from
    ensures MenuCloses(from, downto) == [Indent(Count(1, from + 1)) + "</menu>"] + MenuCloses(from - 1, downto)
    decreases from - downto
  {
    if downto < from {
      MenuClosesPeel(from, downto + 1);
      AssociateThree([Indent(Count(1, from + 1)) + "</menu>"], MenuCloses(from - 1, downto + 1), [Indent(Count(1, downto + 1)) + "</menu>"]);
    }
  }

  /** Open menus are closed as `closing_tags`'s loop closes them. */
  lemma {:induction false} ClosersMenus(a: seq<RowType>, lo: nat, hi: nat)
    requires lo <= hi <= |a| && forall i :: lo <= i < hi ==> a[i] == Menu
    ensures Closers(Menus, a, lo, hi) == MenuCloses(hi - 1, lo)
    decreases hi
  {
    if lo < hi {
      ClosersMenus(a, lo, hi - 1);
      MenuClosesPeel(hi - 1, lo);
    }
  }

  // ---------------------------------------------------------------------
  // Escaping keeps the shape.

  /** The names of options carry no special character, so escaping keeps
      them. */
  lemma {:induction false} OptionNamePlain(w: string)
    requires w in ACTION_OPTIONS || w == "startupnotify" || w in STARTUPNOTIFY_OPTIONS
    ensures Escape(w) == w
  {
    PlainWord(w);
  }

  lemma {:induction false} PlainWord(w: string)
    requires forall c :: c in w ==> !Special(c)
    ensures Escape(w) == w
  {
    assert forall k :: 0 <= k < |w| ==> w[k] in w;
    EscapePlain(w);
  }

  /** The rows `get_field_values` returns fit where the rows of the tree
      do. */
  lemma {:induction false} FitsEscaped(r: Row, parent: RowType)
    requires Fits(r, parent)
    ensures Fits(EscapedRow(r), parent)
  {
    if parent == Action || parent == OptionBlock {
      OptionNamePlain(r.element.value);
    }
  }

  /** The options of an action and those of a startupnotify block are told
      apart by name. */
  lemma {:induction false} OptionNamesDistinct()
    ensures forall w :: w in STARTUPNOTIFY_OPTIONS ==> w !in ["command", "prompt", "startupnotify"]
    ensures forall w :: w in ACTION_OPTIONS ==> w !in STARTUPNOTIFY_OPTIONS && w in ["command", "prompt", "startupnotify"]
  {
    assert "enabled"[0] != "command"[0];
    assert "wmclass"[0] != "command"[0];
  }

  // ---------------------------------------------------------------------
  // What `closing_tags` writes after a row without children.

  /** The `</menu>` lines when the next row, or the end, is at menu level
      at depth `l` at least `p - sub - 1` below the previous row. */
  lemma {:induction false} MenuLinesAre(stage: Stage, p: int, cur: Visit, last: bool, sub: int, l: nat)
    requires IsMenuLevel(cur.row.rtype) || last
    requires stage == Menus ==> l == (if last then 1 else cur.depth)
    requires l <= p - sub - 1
    ensures MenuLines(stage, p, cur, last, sub) == (if stage == Menus then MenuCloses(p - sub - 2, l) else [])
  {
  }

  /** After a menu, pipe menu, item or separator without children only
      menus are closed. */
  lemma {:induction false} ClosingAfterMenuLevel(stage: Stage, v: Visit, p: int, cur: Visit, last: bool)
    requires IsMenuLevel(v.row.rtype) && !v.hasChild
    ensures ClosingLines(stage, v, p, cur, last) == MenuLines(stage, p, cur, last, -1)
  {
    assert Subtraction(v, cur, last) == -1;
  }

  /** After an action without options its item, one level up, is
      closed. */
  lemma {:induction false} ClosingAfterAction(stage: Stage, v: Visit, p: nat, cur: Visit, last: bool)
    requires v.row.rtype == Action && !v.hasChild && (IsMenuLevel(cur.row.rtype) || last) && p >= 1
    ensures ClosingLines(stage, v, p, cur, last) == [CloseLine(stage, p - 1, Item)] + MenuLines(stage, p, cur, last, 0)
  {
    assert Subtraction(v, cur, last) == 0;
  }

  /** After an option of an action the action is closed one level up, and
      the item two levels up when the next row is at menu level. */
  lemma {:induction false} ClosingAfterOption(stage: Stage, v: Visit, p: nat, cur: Visit, last: bool)
    requires IsOptionLike(v.row.rtype) && !IsSuboption(v) && StrIn(v.row.element, ["command", "prompt", "startupnotify"])
    requires (!IsOptionLike(cur.row.rtype) || last) && p >= 2
    ensures !(IsMenuLevel(cur.row.rtype) || last) ==> ClosingLines(stage, v, p, cur, last) == [CloseLine(stage, p - 1, Action)]
    ensures IsMenuLevel(cur.row.rtype) || last ==>
      ClosingLines(stage, v, p, cur, last) == [CloseLine(stage, p - 1, Action)] + [CloseLine(stage, p - 2, Item)] + MenuLines(stage, p, cur, last, 1)
  {
    var sn := StartupnotifyLines(stage, v, p, cur, last);
    assert sn == [];
    var sub := Subtraction(v, cur, last);
    assert sub == 1;
    var al := ActionLines(stage, v, p, cur, last, sub);
    var il := ItemLines(stage, v, p, cur, last, sub);
    var ml := MenuLines(stage, p, cur, last, sub);
    assert al == [CloseLine(stage, p - 1, Action)];
    assert ClosingLines(stage, v, p, cur, last) == sn + al + il + ml;
    assert sn + al == al;
    if IsMenuLevel(cur.row.rtype) || last {
      assert il == [CloseLine(stage, p - 2, Item)];
    } else {
      assert il == [] && ml == [];
      assert al + il + ml == al;
    }
  }

  /** After an option of a startupnotify block the block is closed one
      level up; then as after an option of the action, unless another
      option of the action follows. */
  lemma {:induction false} ClosingAfterSuboption(stage: Stage, v: Visit, p: nat, cur: Visit, last: bool)
    requires IsSuboption(v) && !StrIn(v.row.element, ["command", "prompt", "startupnotify"])
    requires (!IsSuboption(cur) || last) && p >= 3
    ensures IsOptionLike(cur.row.rtype) && !last ==> ClosingLines(stage, v, p, cur, last) == [CloseLine(stage, p - 1, OptionBlock)]
    ensures !IsOptionLike(cur.row.rtype) && !IsMenuLevel(cur.row.rtype) && !last ==>
      ClosingLines(stage, v, p, cur, last) == [CloseLine(stage, p - 1, OptionBlock)] + [CloseLine(stage, p - 2, Action)]
    ensures IsMenuLevel(cur.row.rtype) || last ==>
      ClosingLines(stage, v, p, cur, last) == [CloseLine(stage, p - 1, OptionBlock)] + [CloseLine(stage, p - 2, Action)] + [CloseLine(stage, p - 3, Item)] + MenuLines(stage, p, cur, last, 2)
  {
    var sn := StartupnotifyLines(stage, v, p, cur, last);
    assert sn == [CloseLine(stage, p - 1, OptionBlock)];
    var sub := Subtraction(v, cur, last);
    var al := ActionLines(stage, v, p, cur, last, sub);
    var il := ItemLines(stage, v, p, cur, last, sub);
    var ml := MenuLines(stage, p, cur, last, sub);
    assert ClosingLines(stage, v, p, cur, last) == sn + al + il + ml;
    if IsOptionLike(cur.row.rtype) && !last {
      assert sub == -1 && al == [] && il == [] && ml == [];
      assert sn + al + il + ml == sn;
    } else {
      assert sub == 2 && al == [CloseLine(stage, p - 2, Action)];
      if !(IsMenuLevel(cur.row.rtype) || last) {
        assert il == [] && ml == [];
        assert sn + al + il + ml == sn + al;
      } else {
        assert il == [CloseLine(stage, p - 3, Item)];
      }
    }
  }

  /** The open rows below an open item are menus in the menus stage; in
      the root stage there are none. */
  lemma {:induction false} ClosersBelowItem(stage: Stage, a: seq<RowType>, l: nat, q: nat)
    requires Chain(stage, a) && q < |a| && a[q] == Item && l <= q
    requires stage == RootMenu ==> l == 0
    ensures Closers(stage, a, l, q) == (if stage == Menus then MenuCloses(q - 1, l) else [])
  {
    ChainItem(stage, a, q);
    if stage == Menus {
      ClosersMenus(a, l, q);
    }
  }

  /** The closing tags of an action and its item. */
  lemma {:induction false} ClosersPeelTwo(stage: Stage, a: seq<RowType>, l: nat)
    requires 2 <= |a| && l <= |a| - 2 && a[|a| - 2] == Item && a[|a| - 1] == Action
    ensures Closers(stage, a, l, |a|) == [CloseLine(stage, |a| - 1, Action)] + [CloseLine(stage, |a| - 2, Item)] + Closers(stage, a, l, |a| - 2)
  {
    var p := |a|;
    var m := Closers(stage, a, l, p - 2);
    assert Closers(stage, a, l, p - 1) == [CloseLine(stage, p - 2, Item)] + m;
    JoinTwo(CloseLine(stage, p - 1, Action), CloseLine(stage, p - 2, Item), m);
  }

  /** The closing tags of a startupnotify block, its action and its item. */
  lemma {:induction false} ClosersPeelThree(stage: Stage, a: seq<RowType>, l: nat)
    requires 3 <= |a| && l <= |a| - 3 && a[|a| - 3] == Item && a[|a| - 2] == Action && a[|a| - 1] == OptionBlock
    ensures Closers(stage, a, l, |a|) == [CloseLine(stage, |a| - 1, OptionBlock)] + [CloseLine(stage, |a| - 2, Action)]
                                         + [CloseLine(stage, |a| - 3, Item)] + Closers(stage, a, l, |a| - 3)
  {
    var p := |a|;
    var m := Closers(stage, a, l, p - 3);
    assert Closers(stage, a, l, p - 2) == [CloseLine(stage, p - 3, Item)] + m;
    assert Closers(stage, a, l, p - 1) == [CloseLine(stage, p - 2, Action)] + ([CloseLine(stage, p - 3, Item)] + m);
    Join(CloseLine(stage, p - 1, OptionBlock), CloseLine(stage, p - 2, Action), CloseLine(stage, p - 3, Item), m);
  }

  lemma {:induction false} Join<T>(x: T, y: T, z: T, s: seq<T>)
    ensures [x] + [y] + [z] + s == [x] + ([y] + ([z] + s))
  {
  }

  lemma {:induction false} JoinTwo<T>(x: T, y: T, s: seq<T>)
    ensures [x] + [y] + s == [x] + ([y] + s)
  {
  }

  // ---------------------------------------------------------------------
  // After the last row below an open row.

  /** The walk leaves a row without children at depth `|a|` for the next
      row, or for the end: `closing_tags` closes exactly the open rows the
      next row is not inside of, deepest first. */
  lemma {:induction false} LeafTransition(stage: Stage, a: seq<RowType>, v: Visit, nx: Option<Visit>)
    requires Chain(stage, a) && v.depth == |a| && !v.hasChild && Fits(v.row, a[|a| - 1]) && Compatible(a, nx)
    ensures Transition(stage, v, nx) == Closers(stage, a, Level(stage, nx), |a|)
  {
    var p := |a|;
    if nx.Some? && nx.value.depth == p {
    } else if a[p - 1] == Menu {
      LeafInMenu(stage, a, v, nx);
    } else if a[p - 1] == Item {
      LeafInItem(stage, a, v, nx);
    } else if a[p - 1] == Action {
      LeafInAction(stage, a, v, nx);
    } else {
      LeafInOptionBlock(stage, a, v, nx);
    }
  }

  /** When the next row lies above a row, or the walk ends, the closing
      tags of `closing_tags` are written. */
  lemma TransitionClimbs(stage: Stage, v: Visit, nx: Option<Visit>)
    requires nx.Some? ==> nx.value.depth < v.depth
    ensures Transition(stage, v, nx)
            == ClosingLines(stage, v, v.depth, if nx.None? then v else nx.value, nx.None?)
  {
  }

  /** A menu, pipe menu, item or separator without children: the menus
      the next row is not inside of are closed. */
  lemma {:induction false} LeafInMenu(stage: Stage, a: seq<RowType>, v: Visit, nx: Option<Visit>)
    requires Chain(stage, a) && v.depth == |a| && !v.hasChild && a[|a| - 1] == Menu && Fits(v.row, Menu)
    requires Compatible(a, nx) && (nx.Some? ==> nx.value.depth < |a|)
    ensures Transition(stage, v, nx) == Closers(stage, a, Level(stage, nx), |a|)
  {
    var p := |a|;
    ChainMenus(stage, a, p - 1);
    var last := nx.None?;
    var cur := if last then v else nx.value;
    var l := Level(stage, nx);
    assert IsMenuLevel(cur.row.rtype) by {
      if !last {
        assert a[cur.depth - 1] == Menu;
      }
    }
    TransitionClimbs(stage, v, nx);
    ClosingAfterMenuLevel(stage, v, p, cur, last);
    MenuLinesAre(stage, p, cur, last, -1, l);
    ClosersMenus(a, l, p);
  }

  /** An action without options: its item is closed, then the menus the
      next row is not inside of. */
  lemma {:induction false} LeafInItem(stage: Stage, a: seq<RowType>, v: Visit, nx: Option<Visit>)
    requires Chain(stage, a) && v.depth == |a| && !v.hasChild && a[|a| - 1] == Item && Fits(v.row, Item)
    requires Compatible(a, nx) && (nx.Some? ==> nx.value.depth < |a|)
    ensures Transition(stage, v, nx) == Closers(stage, a, Level(stage, nx), |a|)
  {
    var p := |a|;
    var last := nx.None?;
    var cur := if last then v else nx.value;
    var l := Level(stage, nx);
    NextBelowItem(stage, a, p - 1, nx);
    TransitionClimbs(stage, v, nx);
    ClosingAfterAction(stage, v, p, cur, last);
    MenuLinesAre(stage, p, cur, last, 0, l);
    ClosersBelowItem(stage, a, l, p - 1);
    assert Closers(stage, a, l, p) == [CloseLine(stage, p - 1, Item)] + Closers(stage, a, l, p - 1);
  }

  /** An option of an action, or an empty startupnotify block: the action
      is closed, and when the next row is no action of the same item, the
      item and the menus the next row is not inside of. */
  lemma {:induction false} LeafInAction(stage: Stage, a: seq<RowType>, v: Visit, nx: Option<Visit>)
    requires Chain(stage, a) && v.depth == |a| && !v.hasChild && a[|a| - 1] == Action && Fits(v.row, Action)
    requires Compatible(a, nx) && (nx.Some? ==> nx.value.depth < |a|)
    ensures Transition(stage, v, nx) == Closers(stage, a, Level(stage, nx), |a|)
  {
    var p := |a|;
    assert a[p - 2] == Item;
    ChainItem(stage, a, p - 2);
    OptionNamesDistinct();
    if Level(stage, nx) == p - 1 {
      var cur := nx.value;
      assert cur.row.rtype == Action;
      ClosingAfterOption(stage, v, p, cur, false);
    } else {
      OptionBelowItem(stage, a, v, nx);
    }
  }

  /** An option of an action followed by a row at menu level, or by the
      end. */
  lemma {:induction false} OptionBelowItem(stage: Stage, a: seq<RowType>, v: Visit, nx: Option<Visit>)
    requires Chain(stage, a) && v.depth == |a| >= 2 && a[|a| - 2] == Item && a[|a| - 1] == Action
    requires IsOptionLike(v.row.rtype) && !IsSuboption(v) && StrIn(v.row.element, ["command", "prompt", "startupnotify"])
    requires Compatible(a, nx) && (nx.Some? ==> nx.value.depth < |a| - 1)
    ensures Transition(stage, v, nx) == Closers(stage, a, Level(stage, nx), |a|)
  {
    var p := |a|;
    var last := nx.None?;
    var cur := if last then v else nx.value;
    var l := Level(stage, nx);
    NextBelowItem(stage, a, p - 2, nx);
    TransitionClimbs(stage, v, nx);
    ClosingAfterOption(stage, v, p, cur, last);
    MenuLinesAre(stage, p, cur, last, 1, l);
    ClosersBelowItem(stage, a, l, p - 2);
    ClosersPeelTwo(stage, a, l);
  }

  /** Below the rows of the item at depth `q + 1`, a next row no deeper
      than the item is a menu-level row; in the root stage only the end
      can follow. */
  lemma {:induction false} NextBelowItem(stage: Stage, a: seq<RowType>, q: nat, nx: Option<Visit>)
    requires Chain(stage, a) && q < |a| && a[q] == Item
    requires Compatible(a, nx) && (nx.Some? ==> nx.value.depth <= q)
    ensures nx.Some? ==> IsMenuLevel(nx.value.row.rtype)
    ensures Level(stage, nx) <= q && (stage == RootMenu ==> Level(stage, nx) == 0)
  {
    ChainItem(stage, a, q);
    if nx.Some? {
      assert a[nx.value.depth - 1] == Menu;
    }
  }

  /** An option of a startupnotify block: the block is closed, then as
      for an option of the action. */
  lemma {:induction false} LeafInOptionBlock(stage: Stage, a: seq<RowType>, v: Visit, nx: Option<Visit>)
    requires Chain(stage, a) && v.depth == |a| && !v.hasChild && a[|a| - 1] == OptionBlock && Fits(v.row, OptionBlock)
    requires Compatible(a, nx) && (nx.Some? ==> nx.value.depth < |a|)
    ensures Transition(stage, v, nx) == Closers(stage, a, Level(stage, nx), |a|)
  {
    var p := |a|;
    assert a[p - 2] == Action && a[p - 3] == Item;
    ChainItem(stage, a, p - 3);
    OptionNamesDistinct();
    TransitionClimbs(stage, v, nx);
    var l := Level(stage, nx);
    if l == p - 1 {
      var cur := nx.value;
      assert IsOptionLike(cur.row.rtype) && !IsSuboption(cur);
      ClosingAfterSuboption(stage, v, p, cur, false);
    } else if l == p - 2 {
      var cur := nx.value;
      assert cur.row.rtype == Action;
      ClosingAfterSuboption(stage, v, p, cur, false);
    } else {
      SuboptionBelowItem(stage, a, v, nx);
    }
  }

  /** An option of a startupnotify block followed by a row at menu level,
      or by the end. */
  lemma {:induction false} SuboptionBelowItem(stage: Stage, a: seq<RowType>, v: Visit, nx: Option<Visit>)
    requires Chain(stage, a) && v.depth == |a| >= 3 && a[|a| - 3] == Item && a[|a| - 2] == Action && a[|a| - 1] == OptionBlock
    requires IsSuboption(v) && !StrIn(v.row.element, ["command", "prompt", "startupnotify"])
    requires Compatible(a, nx) && (nx.Some? ==> nx.value.depth < |a| - 2)
    ensures Transition(stage, v, nx) == Closers(stage, a, Level(stage, nx), |a|)
  {
    var p := |a|;
    var last := nx.None?;
    var cur := if last then v else nx.value;
    var l := Level(stage, nx);
    NextBelowItem(stage, a, p - 3, nx);
    TransitionClimbs(stage, v, nx);
    ClosingAfterSuboption(stage, v, p, cur, last);
    MenuLinesAre(stage, p, cur, last, 2, l);
    ClosersBelowItem(stage, a, l, p - 3);
    ClosersPeelThree(stage, a, l);
  }

  // ---------------------------------------------------------------------
  // The whole walk.

  /** The lines written for the rows of `w`, and the closing tags after
      its last row before the row `nx`, or at the end. */
  function Emitted(stage: Stage, w: seq<Visit>, nx: Option<Visit>): seq<string>
    requires w != []
  {
    Steps(stage, w) + Transition(stage, w[|w| - 1], nx)
  }

  lemma {:induction false} LastOfAppend<T>(x: seq<T>, y: seq<T>)
    requires y != []
    ensures (x + y)[|x + y| - 1] == y[|y| - 1]
  {
  }

  /** One more row adds the closing tags before it and its line. */
  lemma {:induction false} StepsSnoc(stage: Stage, w: seq<Visit>, e: Visit)
    requires w != []
    ensures Steps(stage, w + [e]) == Steps(stage, w) + Transition(stage, w[|w| - 1], Some(e)) + [RowLine(stage, e)]
  {
    var u := w + [e];
    assert u[..|u| - 1] == w && u[|u| - 1] == e && u[|u| - 2] == w[|w| - 1];
  }

  /** The lines of a walk are written row after row. */
  lemma {:induction false} StepsAppend(stage: Stage, x: seq<Visit>, y: seq<Visit>)
    requires x != [] && y != []
    ensures Steps(stage, x + y) == Steps(stage, x) + Transition(stage, x[|x| - 1], Some(y[0])) + Steps(stage, y)
    decreases |y|
  {
    if |y| == 1 {
      assert x + y == x + [y[0]];
      StepsSnoc(stage, x, y[0]);
      assert Steps(stage, y) == [RowLine(stage, y[0])];
    } else {
      var y', e := y[..|y| - 1], y[|y| - 1];
      assert y == y' + [e];
      StepsAppend(stage, x, y');
      StepsAppendNext(stage, x, y', e);
    }
  }

  /** The step of `StepsAppend`: one more row at the end of `y`. */
  lemma {:induction false} StepsAppendNext(stage: Stage, x: seq<Visit>, y: seq<Visit>, e: Visit)
    requires x != [] && y != []
    requires Steps(stage, x + y) == Steps(stage, x) + Transition(stage, x[|x| - 1], Some(y[0])) + Steps(stage, y)
    ensures Steps(stage, x + (y + [e])) == Steps(stage, x) + Transition(stage, x[|x| - 1], Some(y[0])) + Steps(stage, y + [e])
  {
    var t := Transition(stage, x[|x| - 1], Some(y[0]));
    AssociateThree(x, y, [e]);
    var tr := Transition(stage, y[|y| - 1], Some(e));
    var r := tr + [RowLine(stage, e)];
    LastOfAppend(x, y);
    StepsSnoc(stage, x + y, e);
    AssociateThree(Steps(stage, x + y), tr, [RowLine(stage, e)]);
    assert Steps(stage, x + (y + [e])) == Steps(stage, x + y) + r;
    StepsSnoc(stage, y, e);
    AssociateThree(Steps(stage, y), tr, [RowLine(stage, e)]);
    assert Steps(stage, y + [e]) == Steps(stage, y) + r;
    AssociateThree(Steps(stage, x) + t, Steps(stage, y), r);
  }

  /** A single row: its line, then the closing tags after it. */
  lemma {:induction false} EmittedOne(stage: Stage, v: Visit, nx: Option<Visit>)
    ensures Emitted(stage, [v], nx) == [RowLine(stage, v)] + Transition(stage, v, nx)
    ensures nx.Some? && nx.value.depth >= v.depth ==> Emitted(stage, [v], nx) == [RowLine(stage, v)]
  {
    var u := [v];
    assert u[..0] == [] && u[0] == v;
    assert Steps(stage, u) == [RowLine(stage, v)];
  }

  /** The lines of two runs of rows, one after the other, are the lines of
      the first before the second's first row, then those of the second. */
  lemma {:induction false} EmittedAppend(stage: Stage, x: seq<Visit>, y: seq<Visit>, nx: Option<Visit>)
    requires x != [] && y != []
    ensures Emitted(stage, x + y, nx) == Emitted(stage, x, Some(y[0])) + Emitted(stage, y, nx)
  {
    StepsAppend(stage, x, y);
    LastOfAppend(x, y);
    var t := Transition(stage, x[|x| - 1], Some(y[0]));
    AssociateThree(Steps(stage, x) + t, Steps(stage, y), Transition(stage, y[|y| - 1], nx));
  }

  /** A row that holds others and fits below an open row extends the open
      rows. */
  lemma {:induction false} FitsEncloses(r: Row, parent: RowType)
    requires Fits(r, parent) && Holds(r.rtype)
    ensures Encloses(parent, r.rtype)
  {
  }

  // ---------------------------------------------------------------------
  // The walk with the line of a row and the gap after it as parameters.

  /** The line of each row of `w`, each followed by the gap before the
      next row, or before `nx` after the last one. */
  function Run(w: seq<Visit>, nx: Option<Visit>, line: Visit -> string, gap: (Visit, Option<Visit>) -> seq<string>): seq<string>
    requires w != []
    decreases |w|
  {
    [line(w[0])] + (if |w| == 1 then gap(w[0], nx) else gap(w[0], Some(w[1])) + Run(w[1..], nx, line, gap))
  }

  lemma {:induction false} RunAppend(x: seq<Visit>, y: seq<Visit>, nx: Option<Visit>, line: Visit -> string, gap: (Visit, Option<Visit>) -> seq<string>)
    requires x != [] && y != []
    ensures Run(x + y, nx, line, gap) == Run(x, Some(y[0]), line, gap) + Run(y, nx, line, gap)
    decreases |x|
  {
    var u := x + y;
    var l, g := line(x[0]), gap(x[0], Some(u[1]));
    assert u[0] == x[0];
    if |x| == 1 {
      assert u[1..] == y && u[1] == y[0];
      AssociateThree([l], g, Run(y, nx, line, gap));
    } else {
      assert u[1..] == x[1..] + y && u[1] == x[1];
      RunAppend(x[1..], y, nx, line, gap);
      Regroup([l], g, Run(x[1..], Some(y[0]), line, gap), Run(y, nx, line, gap));
    }
  }

  lemma Regroup<T>(a: seq<T>, b: seq<T>, c: seq<T>, d: seq<T>)
    ensures a + (b + (c + d)) == a + (b + c) + d
  {
  }

  /** The gap after `v` before a row `x` at the same depth or deeper is
      empty. */
  ghost predicate Shallow(gap: (Visit, Option<Visit>) -> seq<string>, v: Visit, x: Visit) {
    v.depth <= x.depth ==> gap(v, Some(x)) == []
  }

  ghost predicate Descends(gap: (Visit, Option<Visit>) -> seq<string>) {
    forall v: Visit, x: Visit {:trigger Shallow(gap, v, x)} :: Shallow(gap, v, x)
  }

  /** The gap after a row `v` without children inside the open rows `b`
      closes the open rows the next row `n` is not inside of. */
  ghost predicate LeafGap(stage: Stage, gap: (Visit, Option<Visit>) -> seq<string>, b: seq<RowType>, v: Visit, n: Option<Visit>) {
    Chain(stage, b) && v.depth == |b| && !v.hasChild && Fits(v.row, b[|b| - 1]) && Compatible(b, n)
    ==> gap(v, n) == Closers(stage, b, Level(stage, n), |b|)
  }

  ghost predicate ClosesLeaves(stage: Stage, gap: (Visit, Option<Visit>) -> seq<string>) {
    forall b: seq<RowType>, v: Visit, n: Option<Visit> {:trigger LeafGap(stage, gap, b, v, n)} :: LeafGap(stage, gap, b, v, n)
  }

  /** The rows of a well-formed forest below the open rows `a`, followed
      by the row `nx` or by the end, come out in nested form, then the
      open rows that `nx` is not inside of are closed. */
  lemma {:induction false} RunNested(stage: Stage, a: seq<RowType>, f: seq<Node>, nx: Option<Visit>,
                                     line: Visit -> string, gap: (Visit, Option<Visit>) -> seq<string>)
    requires Chain(stage, a) && f != [] && WellFormed(f, a[|a| - 1]) && Compatible(a, nx)
    requires Descends(gap) && ClosesLeaves(stage, gap)
    ensures Run(Walk(f, |a|), nx, line, gap) == Nested(stage, f, |a|, line) + Closers(stage, a, Level(stage, nx), |a|)
    decreases f, 1
  {
    if f[0].children == [] {
      RunLeaf(stage, a, f, nx, line, gap);
    } else {
      RunParent(stage, a, f, nx, line, gap);
    }
  }

  /** The row after the first of a forest: the first of the siblings, or
      `nx` when there are none. */
  function Following(f: seq<Node>, d: nat, nx: Option<Visit>): Option<Visit>
    requires f != []
  {
    if |f| == 1 then nx else Some(Visit(d, EscapedRow(f[1].row), f[1].children != []))
  }

  /** The siblings of the first row are well formed, and what follows the
      first row can follow it. */
  lemma {:induction false} Siblings(stage: Stage, a: seq<RowType>, f: seq<Node>, nx: Option<Visit>)
    requires Chain(stage, a) && f != [] && WellFormed(f, a[|a| - 1]) && Compatible(a, nx)
    ensures Fits(EscapedRow(f[0].row), a[|a| - 1]) && WellFormed(f[0].children, f[0].row.rtype)
    ensures f[0].children != [] ==> Holds(f[0].row.rtype)
    ensures Compatible(a, Following(f, |a|, nx))
    ensures |f| > 1 ==> WellFormed(f[1..], a[|a| - 1]) && Walk(f[1..], |a|)[0] == Following(f, |a|, nx).value
  {
    FitsEscaped(f[0].row, a[|a| - 1]);
    if |f| > 1 {
      FitsEscaped(f[1].row, a[|a| - 1]);
      assert f[1..][0] == f[1];
    }
  }

  /** Opening a row of type `t` inside the open rows `a`: the rows that
      could follow inside `a` still can, and climbing back out of it
      closes it first. */
  lemma {:induction false} Grow(stage: Stage, a: seq<RowType>, t: RowType, nx: Option<Visit>)
    requires |a| >= 1 && Compatible(a, nx)
    ensures Compatible(a + [t], nx) && Level(stage, nx) <= |a|
    ensures Closers(stage, a + [t], Level(stage, nx), |a| + 1) == [CloseLine(stage, |a|, t)] + Closers(stage, a, Level(stage, nx), |a|)
  {
    if nx.Some? {
      assert (a + [t])[nx.value.depth - 1] == a[nx.value.depth - 1];
    }
    ClosersFrame(stage, a, t, Level(stage, nx), |a|);
    assert (a + [t])[|a|] == t;
  }

  lemma {:induction false} DropEmpty<T>(x: seq<T>, e: seq<T>, y: seq<T>)
    requires e == []
    ensures x + (e + y) == x + y && x + e + y == x + y
  {
  }

  /** Walking a forest whose first row has no children: that row, then
      its siblings; in nested form likewise. */
  lemma {:induction false} LeafCons(stage: Stage, f: seq<Node>, d: nat, line: Visit -> string)
    requires f != [] && f[0].children == []
    ensures Walk(f, d) == [Visit(d, EscapedRow(f[0].row), false)] + Walk(f[1..], d)
    ensures Nested(stage, f, d, line) == [line(Visit(d, EscapedRow(f[0].row), false))] + Nested(stage, f[1..], d, line)
  {
    var v := Visit(d, EscapedRow(f[0].row), false);
    var e: seq<Visit> := Walk(f[0].children, d + 1);
    assert Walk(f, d) == [v] + (e + Walk(f[1..], d));
    DropEmpty([v], e, Walk(f[1..], d));
    DropEmpty([line(v)], [], Nested(stage, f[1..], d, line));
  }

  /** Walking a forest whose first row has children: that row, the rows
      below it, then its siblings; in nested form the rows below it are
      followed by its closing tag. */
  lemma {:induction false} ParentCons(stage: Stage, f: seq<Node>, d: nat, line: Visit -> string)
    requires f != [] && f[0].children != []
    ensures Walk(f, d) == [Visit(d, EscapedRow(f[0].row), true)] + (Walk(f[0].children, d + 1) + Walk(f[1..], d))
    ensures Nested(stage, f, d, line) == [line(Visit(d, EscapedRow(f[0].row), true))]
                                         + (Nested(stage, f[0].children, d + 1, line) + [CloseLine(stage, d, f[0].row.rtype)])
                                         + Nested(stage, f[1..], d, line)
  {
    var v := Visit(d, EscapedRow(f[0].row), true);
    var a := Walk(f[0].children, d + 1);
    var b := Walk(f[1..], d);
    assert Walk(f, d) == [v] + a + b;
    AssociateThree([v], a, b);
  }

  lemma {:induction false} RunLeaf(stage: Stage, a: seq<RowType>, f: seq<Node>, nx: Option<Visit>,
                                   line: Visit -> string, gap: (Visit, Option<Visit>) -> seq<string>)
    requires Chain(stage, a) && f != [] && WellFormed(f, a[|a| - 1]) && Compatible(a, nx)
    requires Descends(gap) && ClosesLeaves(stage, gap)
    requires f[0].children == []
    ensures Run(Walk(f, |a|), nx, line, gap) == Nested(stage, f, |a|, line) + Closers(stage, a, Level(stage, nx), |a|)
    decreases f, 0
  {
    var d := |a|;
    var v := Visit(d, EscapedRow(f[0].row), false);
    var nr := Following(f, d, nx);
    Siblings(stage, a, f, nx);
    var wr := Walk(f[1..], d);
    var c := Closers(stage, a, Level(stage, nx), d);
    var tail := Nested(stage, f[1..], d, line);
    if |f| > 1 {
      RunNested(stage, a, f[1..], nx, line, gap);
    }
    LeafCons(stage, f, d, line);
    assert LeafGap(stage, gap, a, v, nr);
    LeafSteps(stage, a, v, wr, nx, line, gap, tail, c);
  }

  lemma {:induction false} RunParent(stage: Stage, a: seq<RowType>, f: seq<Node>, nx: Option<Visit>,
                                     line: Visit -> string, gap: (Visit, Option<Visit>) -> seq<string>)
    requires Chain(stage, a) && f != [] && WellFormed(f, a[|a| - 1]) && Compatible(a, nx)
    requires Descends(gap) && ClosesLeaves(stage, gap)
    requires f[0].children != []
    ensures Run(Walk(f, |a|), nx, line, gap) == Nested(stage, f, |a|, line) + Closers(stage, a, Level(stage, nx), |a|)
    decreases f, 0
  {
    var d := |a|;
    var b := a + [f[0].row.rtype];
    var nr := Following(f, d, nx);
    ParentSetting(stage, a, f, nx, b, line);
    if |f| > 1 {
      RunNested(stage, a, f[1..], nx, line, gap);
    }
    RunNested(stage, b, f[0].children, nr, line, gap);
    ParentCons(stage, f, d, line);
    ParentSteps(Visit(d, EscapedRow(f[0].row), true), Walk(f[0].children, d + 1), Walk(f[1..], d), nx, nr, line, gap,
                Nested(stage, f[0].children, d + 1, line), CloseLine(stage, d, f[0].row.rtype),
                Closers(stage, a, Level(stage, nr), d), Nested(stage, f[1..], d, line), Closers(stage, a, Level(stage, nx), d));
  }

  /** What the case of a row with children needs to know about the open
      rows `b` below it and about its siblings. */
  lemma {:induction false} ParentSetting(stage: Stage, a: seq<RowType>, f: seq<Node>, nx: Option<Visit>, b: seq<RowType>, line: Visit -> string)
    requires Chain(stage, a) && f != [] && WellFormed(f, a[|a| - 1]) && Compatible(a, nx)
    requires f[0].children != [] && b == a + [f[0].row.rtype]
    ensures |b| == |a| + 1 && Chain(stage, b) && WellFormed(f[0].children, b[|b| - 1])
    ensures Compatible(b, Following(f, |a|, nx))
    ensures Closers(stage, b, Level(stage, Following(f, |a|, nx)), |b|)
            == [CloseLine(stage, |a|, f[0].row.rtype)] + Closers(stage, a, Level(stage, Following(f, |a|, nx)), |a|)
    ensures |f| > 1 ==> WellFormed(f[1..], a[|a| - 1]) && Compatible(a, nx)
    ensures |f| > 1 <==> Walk(f[1..], |a|) != []
    ensures |f| > 1 ==> Following(f, |a|, nx) == Some(Walk(f[1..], |a|)[0]) && Closers(stage, a, Level(stage, Following(f, |a|, nx)), |a|) == []
    ensures |f| == 1 ==> Following(f, |a|, nx) == nx && Nested(stage, f[1..], |a|, line) == []
  {
    var t := f[0].row.rtype;
    Siblings(stage, a, f, nx);
    FitsEncloses(f[0].row, a[|a| - 1]);
    ChainGrows(stage, a, t);
    Grow(stage, a, t, Following(f, |a|, nx));
    assert b[|b| - 1] == t;
  }

  /** The glue of the case of a row without children. */
  lemma {:induction false} LeafSteps(stage: Stage, a: seq<RowType>, v: Visit, wr: seq<Visit>, nx: Option<Visit>,
                                     line: Visit -> string, gap: (Visit, Option<Visit>) -> seq<string>,
                                     tail: seq<string>, c: seq<string>)
    requires |a| >= 1 && v.depth == |a| && Descends(gap)
    requires wr == [] ==> tail == [] && gap(v, nx) == c
    requires wr != [] ==> wr[0].depth == |a| && Run(wr, nx, line, gap) == tail + c
    ensures Run([v] + wr, nx, line, gap) == [line(v)] + tail + c
  {
    if wr == [] {
      assert [v] + wr == [v];
    } else {
      RunAppend([v], wr, nx, line, gap);
      assert Shallow(gap, v, wr[0]);
      AssociateThree([line(v)], tail, c);
    }
  }

  /** The glue of the case of a row with children: `nr` is the row after
      them and `cr` the closing lines before it. */
  lemma {:induction false} ParentSteps(v: Visit, wc: seq<Visit>, wr: seq<Visit>, nx: Option<Visit>, nr: Option<Visit>,
                                       line: Visit -> string, gap: (Visit, Option<Visit>) -> seq<string>,
                                       inner: seq<string>, close: string, cr: seq<string>, tail: seq<string>, c: seq<string>)
    requires Descends(gap) && wc != [] && v.depth <= wc[0].depth
    requires Run(wc, nr, line, gap) == inner + ([close] + cr)
    requires wr == [] ==> tail == [] && nr == nx && cr == c
    requires wr != [] ==> nr == Some(wr[0]) && cr == [] && Run(wr, nx, line, gap) == tail + c
    ensures Run([v] + (wc + wr), nx, line, gap) == [line(v)] + (inner + [close]) + tail + c
  {
    var lv := [line(v)];
    RunAppend([v], wc + wr, nx, line, gap);
    assert (wc + wr)[0] == wc[0];
    assert Shallow(gap, v, wc[0]);
    assert Run([v], Some(wc[0]), line, gap) == lv + [] == lv;
    if wr == [] {
      assert wc + wr == wc;
      Regroup(lv, inner, [close], c);
      assert lv + (inner + [close]) + tail == lv + (inner + [close]);
    } else {
      RunAppend(wc, wr, nx, line, gap);
      assert Run(wc + wr, nx, line, gap) == inner + ([close] + []) + (tail + c);
      assert [close] + [] == [close];
      Regroup(lv, inner + [close], tail, c);
      AssociateThree(inner, [close], tail + c);
    }
  }

  // ---------------------------------------------------------------------
  // The walk `save_menu` writes.

  /** The closing lines `save_menu` writes between two rows of the walk. */
  function TransitionOf(stage: Stage): (Visit, Option<Visit>) -> seq<string> {
    (p, n) => Transition(stage, p, n)
  }

  /** Nothing is closed before a row at the same depth or deeper. */
  lemma {:induction false} TransitionDescends(stage: Stage)
    ensures Descends(TransitionOf(stage))
  {
    forall v: Visit, x: Visit ensures Shallow(TransitionOf(stage), v, x) {
    }
  }

  /** After a row without children, `closing_tags` closes exactly the open
      rows the next row is not inside of. */
  lemma {:induction false} TransitionClosesLeaves(stage: Stage)
    ensures ClosesLeaves(stage, TransitionOf(stage))
  {
    forall b: seq<RowType>, v: Visit, n: Option<Visit> ensures LeafGap(stage, TransitionOf(stage), b, v, n) {
      if Chain(stage, b) && v.depth == |b| && !v.hasChild && Fits(v.row, b[|b| - 1]) && Compatible(b, n) {
        LeafTransition(stage, b, v, n);
      }
    }
  }

  /** The lines written for a walk are its row lines with the closing
      lines of `closing_tags` between them. */
  lemma {:induction false} EmittedIsRun(stage: Stage, w: seq<Visit>, nx: Option<Visit>)
    requires w != []
    ensures Emitted(stage, w, nx) == Run(w, nx, RowLineOf(stage), TransitionOf(stage))
    decreases |w|
  {
    var line, gap := RowLineOf(stage), TransitionOf(stage);
    var l := RowLine(stage, w[0]);
    assert line(w[0]) == l;
    if |w| == 1 {
      assert w == [w[0]];
      EmittedOne(stage, w[0], nx);
    } else {
      var g := Transition(stage, w[0], Some(w[1]));
      assert gap(w[0], Some(w[1])) == g;
      assert w == [w[0]] + w[1..];
      EmittedAppend(stage, [w[0]], w[1..], nx);
      EmittedOne(stage, w[0], Some(w[1]));
      EmittedIsRun(stage, w[1..], nx);
      AssociateThree([l], g, Run(w[1..], nx, line, gap));
    }
  }

  /** The walk of a well-formed forest below the open rows `a` followed by
      `nx`: its nested form, then the closing tags of the open rows `nx`
      is not inside of. */
  lemma {:induction false} WalkNested(stage: Stage, a: seq<RowType>, f: seq<Node>, nx: Option<Visit>)
    requires Chain(stage, a) && f != [] && WellFormed(f, a[|a| - 1]) && Compatible(a, nx)
    ensures Emitted(stage, Walk(f, |a|), nx) == Nested(stage, f, |a|, RowLineOf(stage)) + Closers(stage, a, Level(stage, nx), |a|)
  {
    TransitionDescends(stage);
    TransitionClosesLeaves(stage);
    RunNested(stage, a, f, nx, RowLineOf(stage), TransitionOf(stage));
    EmittedIsRun(stage, Walk(f, |a|), nx);
  }

  /** The whole walk is followed by the end. */
  lemma {:induction false} WrittenEmitted(stage: Stage, w: seq<Visit>)
    requires w != []
    ensures Written(stage, w) == Emitted(stage, w, None)
  {
  }

  /** The lines written below a menu defined in the menus stage are the
      nested form of its subrows; its `</menu>` is written by `save_menu`
      itself. */
  lemma {:induction false} MenusNested(cs: seq<Node>)
    requires cs != [] && WellFormed(cs, Menu)
    ensures Written(Menus, Walk(cs, 1)) == Nested(Menus, cs, 1, RowLineOf(Menus))
  {
    var a := [Menu];
    assert Chain(Menus, a);
    WalkNested(Menus, a, cs, None);
    WrittenEmitted(Menus, Walk(cs, 1));
    assert Level(Menus, None) == 1 && Closers(Menus, a, 1, 1) == [];
  }

  /** The lines written below an item of the root menu are the nested form
      of its actions, then the item's `</item>`. */
  lemma {:induction false} RootNested(cs: seq<Node>)
    requires cs != [] && WellFormed(cs, Item)
    ensures Written(RootMenu, Walk(cs, 1)) == Nested(RootMenu, cs, 1, RowLineOf(RootMenu)) + [CloseLine(RootMenu, 0, Item)]
  {
    var a := [Item];
    assert Chain(RootMenu, a);
    var w := Walk(cs, 1);
    var n := Nested(RootMenu, cs, 1, RowLineOf(RootMenu));
    WalkNested(RootMenu, a, cs, None);
    assert Level(RootMenu, None) == 0 && |a| == 1;
    var c := Closers(RootMenu, a, 0, 1);
    assert Emitted(RootMenu, w, None) == n + c;
    assert Closers(RootMenu, a, 0, 0) == [];
    assert c == [CloseLine(RootMenu, 0, Item)];
    WrittenEmitted(RootMenu, w);
  }
}
